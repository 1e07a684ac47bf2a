/** Words from the tests of the transliterator
    (src/test/java/com/aspectsense/greektools/GreeklishTest.java, lines 17-19, 27, 37-38,
    47-49, 57, 67-68 and 77), and a text of two of them, worked through the model. */
module GreeklishExamples {
  import opened Text
  import opened GreekTables
  import opened Rewriting
  import opened Greeklish
  import opened LetterPasses
  import opened WordProperties
  import opened ContextFindings

  /** The letter images of a word are the image of its first character followed by those of
      the rest. */
  lemma ImagesCons(w: string, allCaps: bool, withAccent: bool)
    requires w != []
    ensures LetterImages(w, allCaps, withAccent)
            == LetterImage(w[0], allCaps, withAccent) + LetterImages(w[1..], allCaps, withAccent)
  {
  }

  /** The small-letter spellings of the first four letters of Νέαρχος. */
  lemma NearchosHeadImages()
    ensures LetterImage('Ν', false, false) == "N" && LetterImage('έ', false, false) == "e"
    ensures LetterImage('α', false, false) == "a" && LetterImage('ρ', false, false) == "r"
  {
  }

  /** The small-letter spellings of the last three letters of Νέαρχος: χ is spelt ch. */
  lemma NearchosTailImages()
    ensures LetterImage('χ', false, false) == "ch" && LetterImage('ο', false, false) == "o"
    ensures LetterImage('ς', false, false) == "s"
  {
  }

  /** The letters of Νέαρχος in a word with small letters: χ is spelt ch. */
  lemma NearchosLetters()
    ensures LetterImages("Νέαρχος", false, false) == "Nearchos"
  {
    var w := "Νέαρχος";
    NearchosHeadImages();
    NearchosTailImages();
    ImagesCons(w[6..], false, false);
    assert w[6..][1..] == [];
    ImagesCons(w[5..], false, false);
    assert w[5..][1..] == w[6..];
    ImagesCons(w[4..], false, false);
    assert w[4..][1..] == w[5..];
    ImagesCons(w[3..], false, false);
    assert w[3..][1..] == w[4..];
    ImagesCons(w[2..], false, false);
    assert w[2..][1..] == w[3..];
    ImagesCons(w[1..], false, false);
    assert w[1..][1..] == w[2..];
    ImagesCons(w, false, false);
  }

  /** The spellings of the first four letters of ΝΈΑΡΧΟΣ in a word in capitals. */
  lemma CapitalNearchosHeadImages()
    ensures LetterImage('Ν', true, false) == "N" && LetterImage('Έ', true, false) == "E"
    ensures LetterImage('Α', true, false) == "A" && LetterImage('Ρ', true, false) == "R"
  {
  }

  /** The spellings of the last three letters of ΝΈΑΡΧΟΣ in a word in capitals: Χ is
      spelt CH. */
  lemma CapitalNearchosTailImages()
    ensures LetterImage('Χ', true, false) == "CH" && LetterImage('Ο', true, false) == "O"
    ensures LetterImage('Σ', true, false) == "S"
  {
  }

  /** The letters of ΝΈΑΡΧΟΣ in a word in capitals: Χ is spelt CH. */
  lemma CapitalNearchosLetters()
    ensures LetterImages("ΝΈΑΡΧΟΣ", true, false) == "NEARCHOS"
  {
    var w := "ΝΈΑΡΧΟΣ";
    CapitalNearchosHeadImages();
    CapitalNearchosTailImages();
    ImagesCons(w[6..], true, false);
    assert w[6..][1..] == [];
    ImagesCons(w[5..], true, false);
    assert w[5..][1..] == w[6..];
    ImagesCons(w[4..], true, false);
    assert w[4..][1..] == w[5..];
    ImagesCons(w[3..], true, false);
    assert w[3..][1..] == w[4..];
    ImagesCons(w[2..], true, false);
    assert w[2..][1..] == w[3..];
    ImagesCons(w[1..], true, false);
    assert w[1..][1..] == w[2..];
    ImagesCons(w, true, false);
  }

  /** Νέαρχος and ΝΈΑΡΧΟΣ hold no digraph pair and do not start with μπ. */
  lemma NearchosIsPlain(w: string)
    requires w == "Νέαρχος" || w == "ΝΈΑΡΧΟΣ"
    ensures NoDigraphPair(w)
    ensures !StartsWith(w, "ΜΠ") && !StartsWith(w, "Μπ") && !StartsWith(w, "μπ")
  {
    if w == "Νέαρχος" {
      forall i | 0 <= i < |w| - 1 ensures !IsDigraphPair(w[i], w[i + 1]) {
        assert w[i] in "Νέαρχο";
      }
      assert w[..2] == "Νέ";
    } else {
      forall i | 0 <= i < |w| - 1 ensures !IsDigraphPair(w[i], w[i + 1]) {
        assert w[i] in "ΝΈΑΡΧΟ";
      }
      assert w[..2] == "ΝΈ";
    }
  }

  /** "Νέαρχος" becomes "Nearchos" under either αυ/ευ test: the word holds no digraph and
      has small letters. */
  lemma Nearchos(w: string, test: ContextTest)
    requires w == "Νέαρχος"
    ensures TransliterateWord(w, false, test) == Ok("Nearchos")
  {
    NearchosIsPlain(w);
    assert IsLowercaseLetter(w[1]);
    PlainWordByLetters(w, false, test);
    NearchosLetters();
  }

  /** "ΝΈΑΡΧΟΣ" becomes "NEARCHOS": the word is in capitals, so Χ takes a capital H. */
  lemma CapitalNearchos(w: string, test: ContextTest)
    requires w == "ΝΈΑΡΧΟΣ"
    ensures TransliterateWord(w, false, test) == Ok("NEARCHOS")
  {
    NearchosIsPlain(w);
    assert InAllCaps(w);
    PlainWordByLetters(w, false, test);
    CapitalNearchosLetters();
  }

  // ---------------------------------------------------------------- Αυλός: a voiced αυ

  /** The loop for Αυ on "Αυλός": the key is found at 0 and followed by λ, a consonant of
      note 1, with more letters after it, so both tests choose the voiced form Av. */
  lemma AvlosStep(w: string, test: ContextTest)
    requires w == "Αυλός"
    ensures ContextStep(w, ContextRule("Αυ", "Av", "Af"), test) == Ok("Avλός")
  {
    var e := ContextRule("Αυ", "Av", "Af");
    assert IsContextRule(e);
    assert IndexOf(w, "Αυ") == Some(0);
    assert CheckNote1(w[2]);
    AsWrittenChoice(w, e, 0);
    CorrectedChoice(w, e, 0);
    assert ReplaceAll(w, "Αυ", "Av") == "Avλός";
  }

  /** What the Αυ loop leaves of "Αυλός" holds no digraph pair. */
  lemma AvlosRestIsPlain(x: string)
    requires x == "Avλός"
    ensures NoDigraphPair(x)
  {
    forall i | 0 <= i < |x| - 1 ensures !IsDigraphPair(x[i], x[i + 1]) {
      assert x[i] in "Avλό";
    }
  }

  /** ΑΥ in capitals does not occur in "Αυλός". */
  lemma CapitalAuAbsent(w: string)
    requires w == "Αυλός"
    ensures IndexOf(w, "ΑΥ").None?
  {
    NoPairOf(w, "ΑΥ");
  }

  /** A word without digraph pairs holds none of the keys after entry `n` when those keys
      are digraph pairs. */
  lemma LaterPairKeysAbsent(x: string, table: seq<ContextRule>, n: nat)
    requires NoDigraphPair(x)
    requires forall i :: n < i < |table| ==>
               |table[i].key| == 2 && IsDigraphPair(table[i].key[0], table[i].key[1])
    ensures forall i :: n < i < |table| ==> !Occurs(x, table[i].key)
  {
    forall i | n < i < |table| ensures !Occurs(x, table[i].key) {
      PairKeyAbsent(x, table[i].key);
    }
  }

  /** When a word holds no key of the first entry, the second entry's loop gives a word
      without digraph pairs and the later keys are digraph pairs, the pass over the table
      gives what the second loop gives. */
  lemma SecondKeyOnly(w: string, table: seq<ContextRule>, test: ContextTest, x: string)
    requires ContextTable(table) && |table| >= 2
    requires IndexOf(w, table[0].key).None?
    requires ContextStep(w, table[1], test) == Ok(x) && NoDigraphPair(x)
    requires forall i :: 1 < i < |table| ==>
               |table[i].key| == 2 && IsDigraphPair(table[i].key[0], table[i].key[1])
    ensures ContextStage(w, table, test) == Ok(x)
  {
    LaterPairKeysAbsent(x, table, 1);
    OnlyKeyFound(w, table, 1, test, x);
  }

  /** The digraph passes turn "Αυλός", without accents, into "Avλός". */
  lemma AvlosDigraphs(w: string, test: ContextTest)
    requires w == "Αυλός"
    ensures DigraphStages(InitialMp(w), false, test) == Ok("Avλός")
  {
    NoMpPrefix(w);
    TablesWellFormed();
    Notes12KeysArePairs();
    PlainTableHead();
    CapitalAuAbsent(w);
    AvlosStep(w, test);
    AvlosRestIsPlain("Avλός");
    SecondKeyOnly(w, ExceptionsNotes12(), test, "Avλός");
    DigraphStagesByContext(w, false, test, Ok("Avλός"));
  }

  /** The spellings of the letters of "Avλός" in a word with small letters: the Latin
      letters stay as they are. */
  lemma AvlosImages()
    ensures LetterImage('A', false, false) == "A" && LetterImage('v', false, false) == "v"
    ensures LetterImage('λ', false, false) == "l" && LetterImage('ό', false, false) == "o"
    ensures LetterImage('ς', false, false) == "s"
  {
  }

  /** The letters of "Avλός" are spelt "Avlos". */
  lemma AvlosLetters()
    ensures LetterImages("Avλός", false, false) == "Avlos"
  {
    var d := "Avλός";
    AvlosImages();
    ImagesCons(d[4..], false, false);
    assert d[4..][1..] == [];
    ImagesCons(d[3..], false, false);
    assert d[3..][1..] == d[4..];
    ImagesCons(d[2..], false, false);
    assert d[2..][1..] == d[3..];
    ImagesCons(d[1..], false, false);
    assert d[1..][1..] == d[2..];
    ImagesCons(d, false, false);
  }

  /** "Αυλός" has small letters, so it is not in capitals. */
  lemma AvlosInSmallLetters(w: string)
    requires w == "Αυλός"
    ensures !InAllCaps(w)
  {
    assert IsLowercaseLetter(w[1]);
  }

  /** A word in small letters is spelt letter by letter from what its digraph passes
      leave. */
  lemma SmallWordByLetters(w: string, test: ContextTest, d: string, r: string)
    requires DigraphStages(InitialMp(w), false, test) == Ok(d)
    requires !InAllCaps(w) && LetterImages(d, false, false) == r
    ensures TransliterateWord(w, false, test) == Ok(r)
  {
    WordFromDigraphs(w, false, test, d);
  }

  /** "Αυλός" becomes "Avlos" under either αυ/ευ test: Αυ before λ is voiced. */
  lemma Avlos(w: string, test: ContextTest)
    requires w == "Αυλός"
    ensures TransliterateWord(w, false, test) == Ok("Avlos")
  {
    AvlosDigraphs(w, test);
    AvlosInSmallLetters(w);
    AvlosLetters();
    SmallWordByLetters(w, test, "Avλός", "Avlos");
  }

  // ---------------------------------------------------------------- Μπιφτέκια: the μπ rule

  /** A key whose first character is missing from a text does not occur in it. */
  lemma FirstCharAbsent(s: string, k: string)
    requires k != [] && k[0] !in s
    ensures !Occurs(s, k)
  {
    forall i: nat | i <= |s| ensures !OccursAt(s, k, i) {
      if i + |k| <= |s| {
        assert s[i..i + |k|][0] == s[i];
        assert s[i] in s;
      }
    }
  }

  /** The μπ rule turns "Μπιφτέκια" into "Bιφτέκια": the word holds no second Μπ. */
  lemma BiftekiaMp(w: string)
    requires w == "Μπιφτέκια"
    ensures InitialMp(w) == "Bιφτέκια"
  {
    assert w[..2] == "Μπ";
    FirstCharAbsent(w[2..], "Μπ");
  }

  /** The μπ rule turns "ΜΠΙΦΤΈΚΙΑ" into "BΙΦΤΈΚΙΑ": the word holds no second ΜΠ. */
  lemma CapitalBiftekiaMp(w: string)
    requires w == "ΜΠΙΦΤΈΚΙΑ"
    ensures InitialMp(w) == "BΙΦΤΈΚΙΑ"
  {
    assert w[..2] == "ΜΠ";
    FirstCharAbsent(w[2..], "ΜΠ");
  }

  /** What the μπ rule leaves of either spelling holds no digraph pair. */
  lemma BiftekiaRestIsPlain(x: string)
    requires x == "Bιφτέκια" || x == "BΙΦΤΈΚΙΑ"
    ensures NoDigraphPair(x)
  {
    forall i | 0 <= i < |x| - 1 ensures !IsDigraphPair(x[i], x[i + 1]) {
      assert x[i] in "BιφτέκιΙΦΤΈΚ";
    }
  }

  /** "Μπιφτέκια" has small letters. */
  lemma BiftekiaInSmallLetters(w: string)
    requires w == "Μπιφτέκια"
    ensures !InAllCaps(w)
  {
    assert IsLowercaseLetter(w[1]);
  }

  /** The Latin B that the μπ rule leaves is spelt B in either kind of word. */
  lemma LatinBImages()
    ensures LetterImage('B', false, false) == "B" && LetterImage('B', true, false) == "B"
  {
  }

  /** The spellings of ι, φ and τ in a word with small letters. */
  lemma BiftekiaHeadImages()
    ensures LetterImage('ι', false, false) == "i"
    ensures LetterImage('φ', false, false) == "f" && LetterImage('τ', false, false) == "t"
  {
  }

  /** The spellings of έ, κ and α in a word with small letters. */
  lemma BiftekiaTailImages()
    ensures LetterImage('έ', false, false) == "e" && LetterImage('κ', false, false) == "k"
    ensures LetterImage('α', false, false) == "a"
  {
  }

  /** The letters of "Bιφτέκια" in a word with small letters. */
  lemma BiftekiaLetters()
    ensures LetterImages("Bιφτέκια", false, false) == "Biftekia"
  {
    LatinBImages();
    BiftekiaHeadImages();
    BiftekiaTailImages();
    var w := "Bιφτέκια";
    ImagesCons(w[7..], false, false);
    assert w[7..][1..] == [];
    ImagesCons(w[6..], false, false);
    assert w[6..][1..] == w[7..];
    ImagesCons(w[5..], false, false);
    assert w[5..][1..] == w[6..];
    ImagesCons(w[4..], false, false);
    assert w[4..][1..] == w[5..];
    ImagesCons(w[3..], false, false);
    assert w[3..][1..] == w[4..];
    ImagesCons(w[2..], false, false);
    assert w[2..][1..] == w[3..];
    ImagesCons(w[1..], false, false);
    assert w[1..][1..] == w[2..];
    ImagesCons(w, false, false);
  }

  /** "ΜΠΙΦΤΈΚΙΑ" is in capitals. */
  lemma CapitalBiftekiaInCapitals(w: string)
    requires w == "ΜΠΙΦΤΈΚΙΑ"
    ensures InAllCaps(w)
  {
    forall i | 0 <= i < |w| ensures !IsLowercaseLetter(w[i]) {
      assert w[i] in "ΜΠΙΦΤΈΚΑ";
    }
  }

  /** The spellings of Ι, Φ and Τ in a word in capitals. */
  lemma CapitalBiftekiaHeadImages()
    ensures LetterImage('Ι', true, false) == "I"
    ensures LetterImage('Φ', true, false) == "F" && LetterImage('Τ', true, false) == "T"
  {
  }

  /** The spellings of Έ, Κ and Α in a word in capitals. */
  lemma CapitalBiftekiaTailImages()
    ensures LetterImage('Έ', true, false) == "E" && LetterImage('Κ', true, false) == "K"
    ensures LetterImage('Α', true, false) == "A"
  {
  }

  /** The letters of "BΙΦΤΈΚΙΑ" in a word in capitals. */
  lemma CapitalBiftekiaLetters()
    ensures LetterImages("BΙΦΤΈΚΙΑ", true, false) == "BIFTEKIA"
  {
    LatinBImages();
    CapitalBiftekiaHeadImages();
    CapitalBiftekiaTailImages();
    var w := "BΙΦΤΈΚΙΑ";
    ImagesCons(w[7..], true, false);
    assert w[7..][1..] == [];
    ImagesCons(w[6..], true, false);
    assert w[6..][1..] == w[7..];
    ImagesCons(w[5..], true, false);
    assert w[5..][1..] == w[6..];
    ImagesCons(w[4..], true, false);
    assert w[4..][1..] == w[5..];
    ImagesCons(w[3..], true, false);
    assert w[3..][1..] == w[4..];
    ImagesCons(w[2..], true, false);
    assert w[2..][1..] == w[3..];
    ImagesCons(w[1..], true, false);
    assert w[1..][1..] == w[2..];
    ImagesCons(w, true, false);
  }

  /** "Μπιφτέκια" becomes "Biftekia" under either αυ/ευ test: the initial μπ is spelt B and
      the rest letter by letter. */
  lemma Biftekia(w: string, test: ContextTest)
    requires w == "Μπιφτέκια"
    ensures TransliterateWord(w, false, test) == Ok("Biftekia")
  {
    BiftekiaMp(w);
    BiftekiaRestIsPlain("Bιφτέκια");
    DigraphStagesSkipPlainWord("Bιφτέκια", false, test);
    BiftekiaInSmallLetters(w);
    BiftekiaLetters();
    SmallWordByLetters(w, test, "Bιφτέκια", "Biftekia");
  }

  /** "ΜΠΙΦΤΈΚΙΑ" becomes "BIFTEKIA" under either αυ/ευ test: the word is in capitals. */
  lemma CapitalBiftekia(w: string, test: ContextTest)
    requires w == "ΜΠΙΦΤΈΚΙΑ"
    ensures TransliterateWord(w, false, test) == Ok("BIFTEKIA")
  {
    CapitalBiftekiaMp(w);
    BiftekiaRestIsPlain("BΙΦΤΈΚΙΑ");
    DigraphStagesSkipPlainWord("BΙΦΤΈΚΙΑ", false, test);
    CapitalBiftekiaInCapitals(w);
    CapitalBiftekiaLetters();
    WordFromDigraphs(w, false, test, "BΙΦΤΈΚΙΑ");
  }

  // ---------------------------------------------------------------- Ουρανός: a fixed digraph

  /** A digraph pair other than the first two characters of a word is absent from it when
      the word holds no digraph pair after its first character. */
  lemma OnlyLeadingPair(w: string, k: string)
    requires |w| >= 2 && NoDigraphPair(w[1..])
    requires |k| == 2 && IsDigraphPair(k[0], k[1]) && k != w[..2]
    ensures !Occurs(w, k)
  {
    forall i: nat | i <= |w| ensures !OccursAt(w, k, i) {
      if i + 2 <= |w| {
        if i == 0 {
          assert w[0..2] == w[..2];
        } else {
          assert w[1..][i - 1] == w[i] && w[1..][i] == w[i + 1];
          assert w[i..i + 2][0] == w[i] && w[i..i + 2][1] == w[i + 1];
        }
      }
    }
  }

  /** When entry `n` is the first whose key the word holds, and its replacement leaves none
      of the later keys, the pass over the fixed-digraph table gives what that replacement
      gives. */
  lemma {:induction false} ReplaceEachOnlyEntry(w: string, table: seq<(string, string)>, n: nat, x: string)
    requires NonEmptyKeys(table) && n < |table|
    requires forall i :: 0 <= i < n ==> !Occurs(w, table[i].0)
    requires ReplaceAll(w, table[n].0, table[n].1) == x
    requires forall i :: n < i < |table| ==> !Occurs(x, table[i].0)
    ensures ReplaceEach(w, table) == x
    decreases n
  {
    assert forall i :: 1 <= i < |table| ==> table[1..][i - 1] == table[i];
    if n > 0 {
      ReplaceEachOnlyEntry(w, table[1..], n - 1, x);
    }
  }

  /** "Ουρανός" starts with the pair Ου and holds no other digraph pair. */
  lemma OuranosTailIsPlain(w: string)
    requires w == "Ουρανός"
    ensures |w| >= 2 && w[..2] == "Ου" && NoDigraphPair(w[1..])
  {
    forall i | 0 <= i < |w[1..]| - 1 ensures !IsDigraphPair(w[1..][i], w[1..][i + 1]) {
      assert w[1..][i] in "υρανό";
    }
  }

  /** Every key of the plain αυ/ευ table starts with α or ε. */
  lemma Notes12KeysStartWithAlphaOrEpsilon()
    ensures forall i :: 0 <= i < |ExceptionsNotes12()| ==> ExceptionsNotes12()[i].key[0] in "ΑαΕε"
  {
  }

  /** The αυ/ευ passes leave "Ουρανός" alone: its only pair is Ου. */
  lemma OuranosContext(w: string, test: ContextTest)
    requires w == "Ουρανός"
    ensures ContextStage(w, ExceptionsNotes12(), test) == Ok(w)
  {
    TablesWellFormed();
    Notes12KeysArePairs();
    Notes12KeysStartWithAlphaOrEpsilon();
    OuranosTailIsPlain(w);
    forall i | 0 <= i < |ExceptionsNotes12()| ensures !Occurs(w, ExceptionsNotes12()[i].key) {
      OnlyLeadingPair(w, ExceptionsNotes12()[i].key);
    }
  }

  /** What the Ου entry leaves of "Ουρανός" holds no digraph pair. */
  lemma OuranosRestIsPlain(x: string)
    requires x == "Ouρανός"
    ensures NoDigraphPair(x)
  {
    forall i | 0 <= i < |x| - 1 ensures !IsDigraphPair(x[i], x[i + 1]) {
      assert x[i] in "Ouρανό";
    }
  }

  /** A key that starts the text and whose first character is missing from the rest is
      replaced at the start only. */
  lemma ReplacedAtStartOnly(w: string, k: string, v: string)
    requires k != [] && StartsWith(w, k) && k[0] !in w[|k|..]
    ensures ReplaceAll(w, k, v) == v + w[|k|..]
  {
    ReplaceAllAtKey(w, k, v);
    FirstCharAbsent(w[|k|..], k);
  }

  /** "Ουρανός" starts with Ου, holds no other Ο, and is Ου followed by "ρανός". */
  lemma OuranosStartsWithOu(w: string)
    requires w == "Ουρανός"
    ensures StartsWith(w, "Ου") && 'Ο' !in w[2..] && "Ou" + w[2..] == "Ouρανός"
  {
    assert w[0..2] == "Ου";
    assert w[2..] == "ρανός";
  }

  /** The Ου entry turns "Ουρανός" into "Ouρανός": Ου occurs once, at the start. */
  lemma OuranosOu(w: string)
    requires w == "Ουρανός"
    ensures ReplaceAll(w, "Ου", "Ou") == "Ouρανός"
  {
    OuranosStartsWithOu(w);
    ReplacedAtStartOnly(w, "Ου", "Ou");
  }

  /** The fixed-digraph pass turns "Ουρανός" into "Ouρανός": ΟΥ, the first key, is absent,
      the second, Ου, is replaced, and nothing it leaves holds a later key. */
  lemma OuranosFixed(w: string)
    requires w == "Ουρανός"
    ensures ReplaceEach(w, Exceptions()) == "Ouρανός"
  {
    var x := "Ouρανός";
    TablesWellFormed();
    FixedKeysArePairs();
    OuranosTailIsPlain(w);
    assert Exceptions()[0].0 == "ΟΥ" && Exceptions()[1] == ("Ου", "Ou");
    OnlyLeadingPair(w, "ΟΥ");
    OuranosOu(w);
    OuranosRestIsPlain(x);
    forall i | 1 < i < |Exceptions()| ensures !Occurs(x, Exceptions()[i].0) {
      PairKeyAbsent(x, Exceptions()[i].0);
    }
    ReplaceEachOnlyEntry(w, Exceptions(), 1, x);
  }

  /** The digraph passes turn "Ουρανός", without accents, into "Ouρανός". */
  lemma OuranosDigraphs(w: string, test: ContextTest)
    requires w == "Ουρανός"
    ensures DigraphStages(InitialMp(w), false, test) == Ok("Ouρανός")
  {
    NoMpPrefix(w);
    OuranosContext(w, test);
    OuranosFixed(w);
  }

  /** The spellings of O and u, which the Ου entry leaves, and of ρ in a word with small
      letters. */
  lemma OuranosHeadImages()
    ensures LetterImage('O', false, false) == "O" && LetterImage('u', false, false) == "u"
    ensures LetterImage('ρ', false, false) == "r"
  {
  }

  /** The spellings of α, ν, ό and ς in a word with small letters. */
  lemma OuranosTailImages()
    ensures LetterImage('α', false, false) == "a" && LetterImage('ν', false, false) == "n"
    ensures LetterImage('ό', false, false) == "o" && LetterImage('ς', false, false) == "s"
  {
  }

  /** The letters of "Ouρανός" are spelt "Ouranos". */
  lemma OuranosLetters()
    ensures LetterImages("Ouρανός", false, false) == "Ouranos"
  {
    OuranosHeadImages();
    OuranosTailImages();
    var w := "Ouρανός";
    ImagesCons(w[6..], false, false);
    assert w[6..][1..] == [];
    ImagesCons(w[5..], false, false);
    assert w[5..][1..] == w[6..];
    ImagesCons(w[4..], false, false);
    assert w[4..][1..] == w[5..];
    ImagesCons(w[3..], false, false);
    assert w[3..][1..] == w[4..];
    ImagesCons(w[2..], false, false);
    assert w[2..][1..] == w[3..];
    ImagesCons(w[1..], false, false);
    assert w[1..][1..] == w[2..];
    ImagesCons(w, false, false);
  }

  /** "Ουρανός" has small letters. */
  lemma OuranosInSmallLetters(w: string)
    requires w == "Ουρανός"
    ensures !InAllCaps(w)
  {
    assert IsLowercaseLetter(w[1]);
  }

  /** "Ουρανός" becomes "Ouranos" under either αυ/ευ test: the fixed digraph Ου is spelt Ou. */
  lemma Ouranos(w: string, test: ContextTest)
    requires w == "Ουρανός"
    ensures TransliterateWord(w, false, test) == Ok("Ouranos")
  {
    OuranosDigraphs(w, test);
    OuranosInSmallLetters(w);
    OuranosLetters();
    SmallWordByLetters(w, test, "Ouρανός", "Ouranos");
  }

  // ---------------------------------------------------------------- Νέαρχος with accents

  /** The accented spellings of the first four letters of Νέαρχος: έ keeps its accent as é. */
  lemma AccentedNearchosHeadImages()
    ensures LetterImage('Ν', false, true) == "N" && LetterImage('έ', false, true) == "é"
    ensures LetterImage('α', false, true) == "a" && LetterImage('ρ', false, true) == "r"
  {
  }

  /** The accented spellings of the last three letters of Νέαρχος, the same as without. */
  lemma AccentedNearchosTailImages()
    ensures LetterImage('χ', false, true) == "ch" && LetterImage('ο', false, true) == "o"
    ensures LetterImage('ς', false, true) == "s"
  {
  }

  /** The letters of Νέαρχος with accents kept. */
  lemma AccentedNearchosLetters()
    ensures LetterImages("Νέαρχος", false, true) == "Néarchos"
  {
    var w := "Νέαρχος";
    AccentedNearchosHeadImages();
    AccentedNearchosTailImages();
    ImagesCons(w[6..], false, true);
    assert w[6..][1..] == [];
    ImagesCons(w[5..], false, true);
    assert w[5..][1..] == w[6..];
    ImagesCons(w[4..], false, true);
    assert w[4..][1..] == w[5..];
    ImagesCons(w[3..], false, true);
    assert w[3..][1..] == w[4..];
    ImagesCons(w[2..], false, true);
    assert w[2..][1..] == w[3..];
    ImagesCons(w[1..], false, true);
    assert w[1..][1..] == w[2..];
    ImagesCons(w, false, true);
  }

  /** "Νέαρχος" becomes "Néarchos" with accents kept, under either αυ/ευ test. */
  lemma AccentedNearchos(w: string, test: ContextTest)
    requires w == "Νέαρχος"
    ensures TransliterateWord(w, true, test) == Ok("Néarchos")
  {
    NearchosIsPlain(w);
    assert IsLowercaseLetter(w[1]);
    PlainWordByLetters(w, true, test);
    AccentedNearchosLetters();
  }

  // ---------------------------------------------------------------- a text of two words

  /** Trimming a text whose ends are above U+0020, with one space after it, gives the text. */
  lemma TrimTrailingSpace(t: string)
    requires t != [] && t[0] > ' ' && t[|t| - 1] > ' '
    ensures Trim(t + " ") == t
  {
    var s := t + " ";
    assert s[..|s| - 1] == t;
    assert TrimStartIndex(s) == 0;
    assert TrimEndIndex(s, 0) == TrimEndIndex(t, 0) == |t|;
    assert s[0..|t|] == t;
  }

  /** Two words without spaces, with one space between them, are two tokens. */
  lemma TwoTokens(a: string, b: string)
    requires a != [] && ' ' !in a && b != [] && ' ' !in b
    ensures Tokens(a + " " + b) == [a, b]
  {
    TokensSplitAtSpace(a, b);
    OneToken(a);
    OneToken(b);
  }

  /** The outcomes of two words with one space between them are those of each word. */
  lemma TwoWordOutcomes(a: string, b: string, withAccent: bool, test: ContextTest, x: string, y: string)
    requires a != [] && ' ' !in a && b != [] && ' ' !in b
    requires TransliterateWord(a, withAccent, test) == Ok(x)
    requires TransliterateWord(b, withAccent, test) == Ok(y)
    ensures var outs := WordOutcomes(Tokens(a + " " + b), withAccent, test);
            |outs| == 2 && outs[0] == Ok(x) && outs[1] == Ok(y)
  {
    var words := [a, b];
    TwoTokens(a, b);
    assert TransliterateWord(words[0], withAccent, test) == Ok(x);
    assert TransliterateWord(words[1], withAccent, test) == Ok(y);
  }

  /** Two outcomes that are words are joined with a space after each. */
  lemma JoinTwo(outs: seq<Outcome>, x: string, y: string)
    requires |outs| == 2 && outs[0] == Ok(x) && outs[1] == Ok(y)
    ensures Join(outs) == Ok(x + " " + y + " ")
  {
    var rest := outs[1..];
    assert |rest| == 1 && rest[0] == Ok(y);
    assert |rest[1..]| == 0;
    assert Join(rest) == Ok(y + " " + "");
    assert y + " " + "" == y + " ";
    assert x + " " + (y + " ") == x + " " + y + " ";
  }

  /** Two words with one space between them become their two transliterations with one
      space between them, when neither fails and the first starts and the second ends
      above U+0020. */
  lemma TwoWordText(a: string, b: string, withAccent: bool, test: ContextTest, x: string, y: string)
    requires a != [] && ' ' !in a && b != [] && ' ' !in b
    requires TransliterateWord(a, withAccent, test) == Ok(x)
    requires TransliterateWord(b, withAccent, test) == Ok(y)
    requires x != [] && x[0] > ' ' && y != [] && y[|y| - 1] > ' '
    ensures TransliterateText(a + " " + b, withAccent, test) == Ok(x + " " + y)
  {
    TwoWordOutcomes(a, b, withAccent, test, x, y);
    JoinTwo(WordOutcomes(Tokens(a + " " + b), withAccent, test), x, y);
    TrimTrailingSpace(x + " " + y);
  }

  /** "Νέαρχος Αυλός" is Νέαρχος and Αυλός with a space between them, and so is
      "Nearchos Avlos" for their transliterations. */
  lemma NearchosAvlosParts(t: string, u: string)
    requires t == "Νέαρχος Αυλός" && u == "Nearchos Avlos"
    ensures t == "Νέαρχος" + " " + "Αυλός" && ' ' !in "Νέαρχος" && ' ' !in "Αυλός"
    ensures u == "Nearchos" + " " + "Avlos"
  {
  }

  /** "Νέαρχος Αυλός" becomes "Nearchos Avlos" under either αυ/ευ test. */
  lemma NearchosAvlos(t: string, test: ContextTest)
    requires t == "Νέαρχος Αυλός"
    ensures TransliterateText(t, false, test) == Ok("Nearchos Avlos")
  {
    NearchosAvlosParts(t, "Nearchos Avlos");
    Nearchos("Νέαρχος", test);
    Avlos("Αυλός", test);
    TwoWordText("Νέαρχος", "Αυλός", false, test, "Nearchos", "Avlos");
  }

  /** `toGreeklish` on the text "Νέαρχος Αυλός" gives "Nearchos Avlos". */
  method ToGreeklishTwoWords() returns (r: Outcome)
    ensures r == Ok("Nearchos Avlos")
  {
    r := ToGreeklish("Νέαρχος Αυλός", false);
    NearchosAvlos("Νέαρχος Αυλός", AsWritten);
  }
}
