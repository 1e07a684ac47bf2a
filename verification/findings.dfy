/** The αυ/ευ end-of-word test of src/main/java/com/aspectsense/greektools/Greeklish.java
    (lines 245-246 and 259-260) as written and as ISO 843 intends it, on two words: "Αυ",
    where the key ends the word, and "Εύα", where exactly one letter follows it. Each word
    holds a single key of the αυ/ευ tables, so the order in which the code visits the keys
    does not matter for either. */
module ContextFindings {
  import opened Text
  import opened GreekTables
  import opened Rewriting
  import opened Greeklish
  import opened LetterPasses
  import opened WordProperties

  // ---------------------------------------------------------------- passes over a table

  /** Keys that do not occur in the word are passed over: the context pass over a table is
      the pass over what follows them. */
  lemma {:induction false} ContextStageSkipsAbsent(w: string, table: seq<ContextRule>, n: nat, test: ContextTest)
    requires ContextTable(table) && n <= |table|
    requires forall i :: 0 <= i < n ==> IndexOf(w, table[i].key).None?
    ensures ContextTable(table[n..])
    ensures ContextStage(w, table, test) == ContextStage(w, table[n..], test)
    decreases n
  {
    assert forall i :: n <= i < |table| ==> table[n..][i - n] == table[i];
    if n > 0 {
      assert forall i :: 1 <= i < |table| ==> table[1..][i - 1] == table[i];
      ContextStageSkipsAbsent(w, table[1..], n - 1, test);
      assert table[1..][n - 1..] == table[n..];
    }
  }

  /** When the first key of a table that occurs in the word is entry `n`, the pass over the
      table is that entry's loop, then the pass over the entries after it. */
  lemma FirstKeyFound(w: string, table: seq<ContextRule>, n: nat, test: ContextTest)
    requires ContextTable(table) && n < |table|
    requires forall i :: 0 <= i < n ==> IndexOf(w, table[i].key).None?
    ensures ContextTable(table[n + 1..])
    ensures ContextStep(w, table[n], test).CharAtOutOfRange? ==>
              ContextStage(w, table, test) == ContextStep(w, table[n], test)
    ensures ContextStep(w, table[n], test).Ok? ==>
              ContextStage(w, table, test) == ContextStage(ContextStep(w, table[n], test).word, table[n + 1..], test)
  {
    ContextStageSkipsAbsent(w, table, n, test);
    assert table[n..][0] == table[n];
    assert table[n..][1..] == table[n + 1..];
  }

  /** When entry `n` is the only one whose key the word holds, and what its loop leaves holds
      none of the later keys, the pass over the table gives what that loop gives. */
  lemma OnlyKeyFound(w: string, table: seq<ContextRule>, n: nat, test: ContextTest, x: string)
    requires ContextTable(table) && n < |table|
    requires forall i :: 0 <= i < n ==> IndexOf(w, table[i].key).None?
    requires ContextStep(w, table[n], test) == Ok(x)
    requires forall i :: n < i < |table| ==> !Occurs(x, table[i].key)
    ensures ContextStage(w, table, test) == Ok(x)
  {
    FirstKeyFound(w, table, n, test);
    assert forall j :: n + 1 <= j < |table| ==> table[n + 1..][j - n - 1] == table[j];
  }

  /** In a table of twelve entries, when the word holds none of the first ten keys and the
      loop for the eleventh leaves no trace of the twelfth, the pass gives what that loop
      gives. */
  lemma EleventhKeyOnly(w: string, table: seq<ContextRule>, test: ContextTest, x: string)
    requires ContextTable(table) && |table| == 12
    requires forall i :: 0 <= i < 10 ==> IndexOf(w, table[i].key).None?
    requires ContextStep(w, table[10], test) == Ok(x)
    requires IndexOf(x, table[11].key).None?
    ensures ContextStage(w, table, test) == Ok(x)
  {
    assert forall i :: 10 < i < |table| ==> table[i] == table[11];
    OnlyKeyFound(w, table, 10, test, x);
  }

  /** A key of two characters is absent from a word in which its two characters are never
      neighbours. */
  lemma NoPairOf(w: string, k: string)
    requires |k| == 2 && forall i :: 0 <= i < |w| - 1 ==> w[i] != k[0] || w[i + 1] != k[1]
    ensures IndexOf(w, k).None?
  {
    forall i: nat | i <= |w| ensures !OccursAt(w, k, i) {
      if i + 2 <= |w| {
        assert w[i..i + 2][0] == w[i] && w[i..i + 2][1] == w[i + 1];
      }
    }
  }

  /** Latin text holds no key of two Greek letters. */
  lemma LatinTextHoldsNoKey(s: string, k: string)
    requires IsLatinText(s) && IsDigraphKey(k)
    ensures !Occurs(s, k)
  {
    LatinTextHasNoGreek(s);
    forall i: nat | i <= |s| ensures !OccursAt(s, k, i) {
      if i + 2 <= |s| {
        assert s[i] in s;
        assert s[i..i + 2][0] == s[i];
      }
    }
  }

  /** Latin text holds no digraph pair. */
  lemma LatinTextHasNoPair(s: string)
    requires IsLatinText(s)
    ensures NoDigraphPair(s)
  {
    LatinTextHasNoGreek(s);
    forall i | 0 <= i < |s| - 1 ensures !IsDigraphPair(s[i], s[i + 1]) {
      assert s[i] in s;
    }
  }

  // ---------------------------------------------------------------- whole words

  /** A word whose first letter is not Μ or μ does not start with μπ in any case. */
  lemma NoMpPrefix(w: string)
    requires w != [] && w[0] != 'Μ' && w[0] != 'μ'
    ensures InitialMp(w) == w
  {
    if |w| >= 2 {
      assert w[0..2][0] == w[0];
    }
  }

  /** When the αυ/ευ passes leave no digraph pair behind, the fixed-digraph passes change
      nothing: the digraph passes end with what the plain αυ/ευ table gives. */
  lemma DigraphStagesByContext(w: string, withAccent: bool, test: ContextTest, r: Outcome)
    requires ContextTable(ExceptionsWithAccentsNotes12()) && ContextTable(ExceptionsNotes12())
    requires withAccent ==> ContextStage(w, ExceptionsWithAccentsNotes12(), test) == Ok(w)
    requires ContextStage(w, ExceptionsNotes12(), test) == r
    requires r.Ok? ==> NoDigraphPair(r.word)
    ensures DigraphStages(w, withAccent, test) == r
  {
    TablesWellFormed();
    FixedKeysArePairs();
    if r.Ok? {
      ReplaceEachSkips(r.word, ExceptionsWithAccents());
      ReplaceEachSkips(r.word, Exceptions());
    }
  }

  /** A word is spelt letter by letter from what the digraph passes leave. */
  lemma WordFromDigraphs(w: string, withAccent: bool, test: ContextTest, d: string)
    requires DigraphStages(InitialMp(w), withAccent, test) == Ok(d)
    ensures TransliterateWord(w, withAccent, test) == Ok(LetterImages(d, InAllCaps(w), withAccent))
  {
    LetterStagesByCharacter(d, InAllCaps(w), withAccent);
  }

  /** A word whose digraph passes already give Latin text is finished: no letter pass
      changes Latin text. */
  lemma LatinAfterDigraphs(w: string, withAccent: bool, test: ContextTest, d: string)
    requires DigraphStages(InitialMp(w), withAccent, test) == Ok(d) && IsLatinText(d)
    ensures TransliterateWord(w, withAccent, test) == Ok(d)
  {
    LatinTextUntranslated(d);
  }

  // ---------------------------------------------------------------- "Αυ": the key ends the word

  /** The loop for Αυ on "Αυ": the key is found at 0 with nothing after it. As written the
      code then reads the character at 2, past the end; as intended the end of the word
      gives the voiceless form. ΑΥ, the key before it, is absent. */
  lemma AuStep(w: string)
    requires w == "Αυ"
    ensures IndexOf(w, "ΑΥ").None?
    ensures ContextStep(w, ContextRule("Αυ", "Av", "Af"), AsWritten) == CharAtOutOfRange(2)
    ensures ContextStep(w, ContextRule("Αυ", "Av", "Af"), Corrected) == Ok("Af")
    ensures IsLatinText("Af")
  {
    NoPairOf(w, "ΑΥ");
    assert IndexOf(w, "Αυ") == Some(0);
  }

  /** The first two entries of the plain table. */
  lemma PlainTableHead()
    ensures |ExceptionsNotes12()| >= 2
    ensures ExceptionsNotes12()[0].key == "ΑΥ" && ExceptionsNotes12()[1] == ContextRule("Αυ", "Av", "Af")
  {
  }

  /** "Αυ" holds no key of the accented table. */
  lemma AccentedStageSkipsAu(w: string, test: ContextTest)
    requires w == "Αυ"
    ensures ContextTable(ExceptionsWithAccentsNotes12())
    ensures ContextStage(w, ExceptionsWithAccentsNotes12(), test) == Ok(w)
  {
    ExceptionsWithAccentsNotes12WellFormed();
    var accented := ExceptionsWithAccentsNotes12();
    ContextStageSkipsAbsent(w, accented, |accented|, test);
  }

  /** A table whose first key is ΑΥ and whose second entry is Αυ → Av/Af, on "Αυ". */
  lemma AuAgainstTable(w: string, table: seq<ContextRule>)
    requires w == "Αυ" && ContextTable(table) && |table| >= 2
    requires table[0].key == "ΑΥ" && table[1] == ContextRule("Αυ", "Av", "Af")
    ensures ContextStage(w, table, AsWritten) == CharAtOutOfRange(2)
    ensures ContextStage(w, table, Corrected) == Ok("Af")
  {
    AuStep(w);
    FirstKeyFound(w, table, 1, AsWritten);
    forall i | 1 < i < |table| ensures !Occurs("Af", table[i].key) {
      LatinTextHoldsNoKey("Af", table[i].key);
    }
    OnlyKeyFound(w, table, 1, Corrected, "Af");
  }

  /** As written, the αυ/ευ passes stop on "Αυ": the accented table holds none of its keys,
      and in the plain table ΑΥ is absent and Αυ is found at 0 with nothing after it. */
  lemma DigraphStagesOnAuAsWritten(w: string, withAccent: bool)
    requires w == "Αυ"
    ensures DigraphStages(InitialMp(w), withAccent, AsWritten) == CharAtOutOfRange(2)
  {
    NoMpPrefix(w);
    TablesWellFormed();
    AccentedStageSkipsAu(w, AsWritten);
    PlainTableHead();
    AuAgainstTable(w, ExceptionsNotes12());
    DigraphStagesByContext(w, withAccent, AsWritten, CharAtOutOfRange(2));
  }

  /** As intended, the αυ/ευ passes turn "Αυ" into "Af", which no later key matches. */
  lemma DigraphStagesOnAuCorrected(w: string, withAccent: bool)
    requires w == "Αυ"
    ensures DigraphStages(InitialMp(w), withAccent, Corrected) == Ok("Af")
  {
    NoMpPrefix(w);
    TablesWellFormed();
    AccentedStageSkipsAu(w, Corrected);
    PlainTableHead();
    AuAgainstTable(w, ExceptionsNotes12());
    AuStep(w);
    LatinTextHasNoPair("Af");
    DigraphStagesByContext(w, withAccent, Corrected, Ok("Af"));
  }

  /** As written, "Αυ" makes `charAt(2)` read past the end of the word, so the word, and any
      text holding it, cannot be transliterated. */
  lemma KeyEndingWordFails(w: string, withAccent: bool)
    requires w == "Αυ"
    ensures TransliterateWord(w, withAccent, AsWritten) == CharAtOutOfRange(2)
  {
    DigraphStagesOnAuAsWritten(w, withAccent);
  }

  /** As intended, "Αυ" ends in the voiceless form: "Af". */
  lemma KeyEndingWordCorrected(w: string, withAccent: bool)
    requires w == "Αυ"
    ensures TransliterateWord(w, withAccent, Corrected) == Ok("Af")
  {
    AuStep(w);
    DigraphStagesOnAuCorrected(w, withAccent);
    LatinAfterDigraphs(w, withAccent, Corrected, "Af");
  }

  // ---------------------------------------------------------------- "Εύα": one letter after the key

  /** The text is exactly the three characters `a`, `b`, `c`. */
  predicate Spells(s: string, a: char, b: char, c: char) {
    |s| == 3 && s[0] == a && s[1] == b && s[2] == c
  }

  /** The loop for Εύ on "Εύα": the key is found at 0, one letter before the end. As written
      that counts as the end of the word (voiceless); as intended the vowel α follows, so the
      form is voiced. */
  lemma EuStep(w: string)
    requires Spells(w, 'Ε', 'ύ', 'α')
    ensures ContextStep(w, ContextRule("Εύ", "Ev", "Ef"), AsWritten).Ok?
    ensures Spells(ContextStep(w, ContextRule("Εύ", "Ev", "Ef"), AsWritten).word, 'E', 'f', 'α')
    ensures ContextStep(w, ContextRule("Εύ", "Ev", "Ef"), Corrected).Ok?
    ensures Spells(ContextStep(w, ContextRule("Εύ", "Ev", "Ef"), Corrected).word, 'E', 'v', 'α')
  {
    assert IndexOf(w, "Εύ") == Some(0);
    assert ReplaceAll(w, "Εύ", "Ef") == "Efα";
    assert ReplaceAll(w, "Εύ", "Ev") == "Evα";
  }

  /** The entries of the plain table around Εύ: ten other keys before it, one (εύ) after it. */
  lemma PlainTableAroundEu()
    ensures |ExceptionsNotes12()| == 12
    ensures ExceptionsNotes12()[10] == ContextRule("Εύ", "Ev", "Ef") && ExceptionsNotes12()[11].key == "εύ"
    ensures forall i :: 0 <= i < 10 ==> ExceptionsNotes12()[i].key != "Εύ"
  {
  }

  /** No αυ/ευ key other than Εύ occurs in "Εύα". */
  lemma EarlierKeysAbsentFromEua(w: string, table: seq<ContextRule>)
    requires Spells(w, 'Ε', 'ύ', 'α') && ContextTable(table) && |table| >= 10
    requires forall i :: 0 <= i < 10 ==> table[i].key != "Εύ"
    ensures forall i :: 0 <= i < 10 ==> IndexOf(w, table[i].key).None?
  {
    forall i | 0 <= i < 10 ensures IndexOf(w, table[i].key).None? {
      var k := table[i].key;
      assert k == [k[0], k[1]];
      NoPairOf(w, k);
    }
  }

  /** εύ does not occur in E, a Latin letter and α. */
  lemma SmallEuAbsent(x: string, k: string, v: char)
    requires Spells(x, 'E', v, 'α') && k == "εύ"
    ensures IndexOf(x, k).None?
  {
    NoPairOf(x, k);
  }

  /** A table of twelve entries whose eleventh entry turns "Εύα" into E, a Latin letter
      and α, whose twelfth key is εύ and whose earlier keys are not Εύ: the eleventh entry
      alone decides the outcome. */
  lemma EuaAgainstTable(w: string, table: seq<ContextRule>, test: ContextTest, v: char)
    requires Spells(w, 'Ε', 'ύ', 'α') && ContextTable(table) && |table| == 12
    requires table[11].key == "εύ"
    requires forall i :: 0 <= i < 10 ==> table[i].key != "Εύ"
    requires ContextStep(w, table[10], test).Ok?
    requires Spells(ContextStep(w, table[10], test).word, 'E', v, 'α')
    ensures ContextStage(w, table, test) == ContextStep(w, table[10], test)
  {
    EarlierKeysAbsentFromEua(w, table);
    var x := ContextStep(w, table[10], test).word;
    SmallEuAbsent(x, table[11].key, v);
    EleventhKeyOnly(w, table, test, x);
  }

  /** What is left of "Εύα" after its loop holds no digraph pair. */
  lemma ReplacedEuaHasNoPair(x: string, v: char)
    requires Spells(x, 'E', v, 'α') && (v == 'f' || v == 'v')
    ensures NoDigraphPair(x)
  {
  }

  /** The plain αυ/ευ table turns "Εύα" into "Efα" as written. */
  lemma PlainStageOnEuaAsWritten(w: string)
    requires Spells(w, 'Ε', 'ύ', 'α')
    ensures ContextTable(ExceptionsNotes12())
    ensures ContextStage(w, ExceptionsNotes12(), AsWritten).Ok?
    ensures Spells(ContextStage(w, ExceptionsNotes12(), AsWritten).word, 'E', 'f', 'α')
    ensures NoDigraphPair(ContextStage(w, ExceptionsNotes12(), AsWritten).word)
  {
    TablesWellFormed();
    PlainTableAroundEu();
    EuStep(w);
    EuaAgainstTable(w, ExceptionsNotes12(), AsWritten, 'f');
    ReplacedEuaHasNoPair(ContextStage(w, ExceptionsNotes12(), AsWritten).word, 'f');
  }

  /** The plain αυ/ευ table turns "Εύα" into "Evα" as intended. */
  lemma PlainStageOnEuaCorrected(w: string)
    requires Spells(w, 'Ε', 'ύ', 'α')
    ensures ContextTable(ExceptionsNotes12())
    ensures ContextStage(w, ExceptionsNotes12(), Corrected).Ok?
    ensures Spells(ContextStage(w, ExceptionsNotes12(), Corrected).word, 'E', 'v', 'α')
    ensures NoDigraphPair(ContextStage(w, ExceptionsNotes12(), Corrected).word)
  {
    TablesWellFormed();
    PlainTableAroundEu();
    EuStep(w);
    EuaAgainstTable(w, ExceptionsNotes12(), Corrected, 'v');
    ReplacedEuaHasNoPair(ContextStage(w, ExceptionsNotes12(), Corrected).word, 'v');
  }

  /** As written, the αυ/ευ passes turn "Εύα" (without accents) into "Efα". */
  lemma DigraphStagesOnEuaAsWritten(w: string)
    requires Spells(w, 'Ε', 'ύ', 'α')
    ensures DigraphStages(InitialMp(w), false, AsWritten).Ok?
    ensures Spells(DigraphStages(InitialMp(w), false, AsWritten).word, 'E', 'f', 'α')
  {
    NoMpPrefix(w);
    TablesWellFormed();
    PlainStageOnEuaAsWritten(w);
    DigraphStagesByContext(w, false, AsWritten, ContextStage(w, ExceptionsNotes12(), AsWritten));
  }

  /** As intended, the αυ/ευ passes turn "Εύα" (without accents) into "Evα". */
  lemma DigraphStagesOnEuaCorrected(w: string)
    requires Spells(w, 'Ε', 'ύ', 'α')
    ensures DigraphStages(InitialMp(w), false, Corrected).Ok?
    ensures Spells(DigraphStages(InitialMp(w), false, Corrected).word, 'E', 'v', 'α')
  {
    NoMpPrefix(w);
    TablesWellFormed();
    PlainStageOnEuaCorrected(w);
    DigraphStagesByContext(w, false, Corrected, ContextStage(w, ExceptionsNotes12(), Corrected));
  }

  /** The letters left after Εύ has been replaced: only α is still Greek. */
  lemma EuaLetters(d: string, v: char)
    requires Spells(d, 'E', v, 'α') && (v == 'f' || v == 'v')
    ensures LetterImages(d, false, false) == ['E', v, 'a']
  {
    assert LetterImage('α', false, false) == "a";
    assert LetterImage(v, false, false) == [v];
    assert LetterImage('E', false, false) == "E";
    assert LetterImages(d[2..], false, false) == "a";
    assert LetterImages(d[1..], false, false) == [v, 'a'];
  }

  /** As written, "Εύα" (Eva) becomes "Efa": the code takes the vowel α for the end of the
      word. */
  lemma OneLetterAfterKeyAsWritten(w: string)
    requires Spells(w, 'Ε', 'ύ', 'α')
    ensures TransliterateWord(w, false, AsWritten) == Ok("Efa")
  {
    DigraphStagesOnEuaAsWritten(w);
    var d := DigraphStages(InitialMp(w), false, AsWritten).word;
    WordFromDigraphs(w, false, AsWritten, d);
    assert IsLowercaseLetter(w[1]);
    EuaLetters(d, 'f');
  }

  /** As intended, "Εύα" becomes "Eva": ευ before a vowel is voiced. */
  lemma OneLetterAfterKeyCorrected(w: string)
    requires Spells(w, 'Ε', 'ύ', 'α')
    ensures TransliterateWord(w, false, Corrected) == Ok("Eva")
  {
    DigraphStagesOnEuaCorrected(w);
    var d := DigraphStages(InitialMp(w), false, Corrected).word;
    WordFromDigraphs(w, false, Corrected, d);
    assert IsLowercaseLetter(w[1]);
    EuaLetters(d, 'v');
  }
}
