/** The Greek to Latin transliteration of src/main/java/com/aspectsense/greektools/Greeklish.java
    (ISO 843 / ELOT 743): the per-word pipeline, the sentence wrapper and the two read-only
    scans over a word. */
module Greeklish {
  import opened Text
  import opened GreekTables
  import opened Rewriting

  // ---------------------------------------------------------------- classification

  /** `checkNote1(c)`: the character after αυ/ευ voices it when it is a vowel or one of the
      consonants of note 1. Every Greek letter is a vowel, a note-1 consonant, a note-2
      consonant or final sigma, so these are exactly the letters that are neither of the
      last two. */
  function CheckNote1(c: char): (note1: bool)
    ensures note1 <==> IsGreekLetter(c) && !IsNote2Consonant(c) && c != 'ς'
  {
    IsVowel(c) || IsNote1Consonant(c)
  }

  /** The word holds no lower-case Greek letter. */
  predicate InAllCaps(word: string) {
    forall i :: 0 <= i < |word| ==> !IsLowercaseLetter(word[i])
  }

  /** `isGreekWordInAllCaps`: scans for a lower-case Greek letter and stops at the first. */
  method IsGreekWordInAllCaps(greekWord: string) returns (allCaps: bool)
    ensures allCaps == InAllCaps(greekWord)
  {
    for i := 0 to |greekWord|
      invariant forall j :: 0 <= j < i ==> !IsLowercaseLetter(greekWord[j])
    {
      if IsLowercaseLetter(greekWord[i]) {
        return false;
      }
    }
    return true;
  }

  /** `containsGreek`: scans for a Greek letter and stops at the first. */
  method ContainsGreek(text: string) returns (found: bool)
    ensures found <==> exists i :: 0 <= i < |text| && IsGreekLetter(text[i])
  {
    for i := 0 to |text|
      invariant forall j :: 0 <= j < i ==> !IsGreekLetter(text[j])
    {
      if IsGreekLetter(text[i]) {
        return true;
      }
    }
    return false;
  }

  // ---------------------------------------------------------------- outcome of a word

  /** The transliterated word, or the `StringIndexOutOfBoundsException` that `charAt` raises
      when asked for the character at `index`, one past the end of the word. */
  datatype Outcome = Ok(word: string) | CharAtOutOfRange(index: nat) {
    predicate IsFailure() {
      CharAtOutOfRange?
    }

    function PropagateFailure(): Outcome
      requires IsFailure()
    {
      this
    }

    function Extract(): string
      requires !IsFailure()
    {
      word
    }
  }

  /** The test that picks between the two forms of αυ/ευ: the one the code applies, or the
      rule of ISO 843 it evidently means (see the findings in the README). */
  datatype ContextTest = AsWritten | Corrected

  // ---------------------------------------------------------------- the μπ rule

  /** Lines 232-236: a word starting with ΜΠ, Μπ or μπ (checked in that order) has every
      occurrence of that spelling replaced by B, B or b. */
  function InitialMp(w: string): (r: string)
    ensures !StartsWith(w, "ΜΠ") && !StartsWith(w, "Μπ") && !StartsWith(w, "μπ") ==> r == w
    ensures StartsWith(w, "ΜΠ") ==> r != [] && r[0] == 'B' && !Occurs(r, "ΜΠ")
    ensures !StartsWith(w, "ΜΠ") && StartsWith(w, "Μπ") ==> r != [] && r[0] == 'B' && !Occurs(r, "Μπ")
    ensures !StartsWith(w, "ΜΠ") && !StartsWith(w, "Μπ") && StartsWith(w, "μπ")
            ==> r != [] && r[0] == 'b' && !Occurs(r, "μπ")
    ensures StartsWith(w, "ΜΠ") && !Occurs(w[2..], "ΜΠ") ==> r == "B" + w[2..]
    ensures StartsWith(w, "Μπ") && !Occurs(w[2..], "Μπ") ==> r == "B" + w[2..]
    ensures StartsWith(w, "μπ") && !Occurs(w[2..], "μπ") ==> r == "b" + w[2..]
  {
    if StartsWith(w, "ΜΠ") then
      ReplaceAllHead(w, "ΜΠ", "B");
      ReplaceAllRemovesKey(w, "ΜΠ", "B");
      ReplaceAllAtKey(w, "ΜΠ", "B");
      ReplaceAll(w, "ΜΠ", "B")
    else if StartsWith(w, "Μπ") then
      ReplaceAllHead(w, "Μπ", "B");
      ReplaceAllRemovesKey(w, "Μπ", "B");
      ReplaceAllAtKey(w, "Μπ", "B");
      ReplaceAll(w, "Μπ", "B")
    else if StartsWith(w, "μπ") then
      ReplaceAllHead(w, "μπ", "b");
      ReplaceAllRemovesKey(w, "μπ", "b");
      ReplaceAllAtKey(w, "μπ", "b");
      ReplaceAll(w, "μπ", "b")
    else w
  }

  // ---------------------------------------------------------------- αυ / ευ in context

  /** The value chosen for key `e.key` first found at `i` in `w`, or `None` when the test reads
      the character one past the end of the word. As written (lines 245-246), `endOfWord`
      holds when exactly ONE character follows the key. */
  function ChosenForm(w: string, e: ContextRule, i: nat, test: ContextTest): Option<string>
    requires i + |e.key| <= |w|
  {
    var next := i + |e.key|;
    match test
    case AsWritten =>
      if i == |w| - |e.key| - 1 then Some(e.voiceless)
      else if next == |w| then None
      else if CheckNote1(w[next]) then Some(e.voiced) else Some(e.voiceless)
    case Corrected =>
      if next == |w| then Some(e.voiceless)
      else if CheckNote1(w[next]) then Some(e.voiced) else Some(e.voiceless)
  }

  /** The code's choice: the voiced form exactly when at least two characters follow the key
      and the first of them passes `checkNote1`; exactly one following character gives the
      voiceless form; a key that ends the word reads past the end. */
  lemma AsWrittenChoice(w: string, e: ContextRule, i: nat)
    requires IsContextRule(e) && i + |e.key| <= |w|
    ensures ChosenForm(w, e, i, AsWritten) == Some(e.voiced)
            <==> i + |e.key| + 2 <= |w| && CheckNote1(w[i + |e.key|])
    ensures ChosenForm(w, e, i, AsWritten) == Some(e.voiceless)
            <==> i + |e.key| + 1 == |w| || (i + |e.key| + 2 <= |w| && !CheckNote1(w[i + |e.key|]))
    ensures ChosenForm(w, e, i, AsWritten).None? <==> i + |e.key| == |w|
  {
    assert e.voiced[|e.voiced| - 1] != e.voiceless[|e.voiceless| - 1];
  }

  /** The corrected choice never fails: voiceless at the end of the word, otherwise voiced
      exactly when the next character passes `checkNote1`. */
  lemma CorrectedChoice(w: string, e: ContextRule, i: nat)
    requires IsContextRule(e) && i + |e.key| <= |w|
    ensures ChosenForm(w, e, i, Corrected).Some?
    ensures ChosenForm(w, e, i, Corrected) == Some(e.voiced)
            <==> i + |e.key| < |w| && CheckNote1(w[i + |e.key|])
  {
    assert e.voiced[|e.voiced| - 1] != e.voiceless[|e.voiceless| - 1];
  }

  /** A Latin replacement shares no character with a key of two Greek letters. */
  lemma ReplacementAvoidsKey(k: string, v: string)
    requires IsDigraphKey(k) && IsReplacement(v)
    ensures forall c :: c in v ==> c !in k
  {
    LetterFacts(k[0]);
    LetterFacts(k[1]);
  }

  /** Replacing any key by Latin text creates no key of two Greek letters. */
  lemma ReplacementKeepsDigraphKeysAbsent(w: string, key: string, v: string)
    requires key != [] && IsReplacement(v)
    ensures forall k :: IsDigraphKey(k) && !Occurs(w, k) ==> !Occurs(ReplaceAll(w, key, v), k)
  {
    forall k | IsDigraphKey(k) && !Occurs(w, k) ensures !Occurs(ReplaceAll(w, key, v), k) {
      ReplacementAvoidsKey(k, v);
      ReplaceAllKeepsAbsent(w, key, v, k);
    }
  }

  /** One `while ((index = word.indexOf(key)) != -1)` loop (lines 244-248 and 258-262): the
      first occurrence decides the form, which then replaces every occurrence, so the key is
      gone and the loop body runs at most once; no other Greek digraph appears. */
  function ContextStep(w: string, e: ContextRule, test: ContextTest): (r: Outcome)
    requires IsContextRule(e)
    ensures !Occurs(w, e.key) ==> r == Ok(w)
    ensures r.Ok? ==> !Occurs(r.word, e.key)
    ensures r.Ok? ==> r.word == ReplaceAll(w, e.key, e.voiced) || r.word == ReplaceAll(w, e.key, e.voiceless)
    ensures r.Ok? ==> forall k :: IsDigraphKey(k) && !Occurs(w, k) ==> !Occurs(r.word, k)
    ensures test == Corrected ==> r.Ok?
  {
    match IndexOf(w, e.key)
    case None => Ok(w)
    case Some(i) =>
      CorrectedChoice(w, e, i);
      match ChosenForm(w, e, i, test)
      case None => CharAtOutOfRange(i + |e.key|)
      case Some(v) =>
        ReplacementAvoidsKey(e.key, v);
        ReplaceAllRemovesKey(w, e.key, v);
        ReplacementKeepsDigraphKeysAbsent(w, e.key, v);
        Ok(ReplaceAll(w, e.key, v))
  }

  /** Every entry of a context table is well formed. */
  predicate ContextTable(table: seq<ContextRule>) {
    forall i :: 0 <= i < |table| ==> IsContextRule(table[i])
  }

  /** The context loops over every key of a table, in order; the first failure ends the word.
      On success none of the table's keys remains, and no Greek digraph absent from the word
      has appeared. */
  function ContextStage(w: string, table: seq<ContextRule>, test: ContextTest): (r: Outcome)
    requires ContextTable(table)
    ensures (forall i :: 0 <= i < |table| ==> !Occurs(w, table[i].key)) ==> r == Ok(w)
    ensures r.Ok? ==> forall i :: 0 <= i < |table| ==> !Occurs(r.word, table[i].key)
    ensures r.Ok? ==> forall k :: IsDigraphKey(k) && !Occurs(w, k) ==> !Occurs(r.word, k)
    ensures test == Corrected ==> r.Ok?
    decreases |table|
  {
    if table == [] then Ok(w)
    else
      var next :- ContextStep(w, table[0], test);
      assert forall i :: 1 <= i < |table| ==> table[1..][i - 1] == table[i];
      var r := ContextStage(next, table[1..], test);
      assert r.Ok? ==> !Occurs(r.word, table[0].key);
      r
  }

  /** One `while ((index = word.indexOf(key)) != -1)` loop, as the code runs it. */
  method ReplaceContextKey(word: string, e: ContextRule) returns (r: Outcome)
    requires IsContextRule(e)
    ensures r == ContextStep(word, e, AsWritten)
  {
    var w := word;
    var index := IndexOf(w, e.key);
    while index.Some?
      invariant index == IndexOf(w, e.key)
      invariant index.Some? ==> w == word
      invariant index.None? ==> ContextStep(word, e, AsWritten) == Ok(w)
      decreases if index.Some? then 1 else 0
    {
      var i := index.value;
      var endOfWord := i == |w| - |e.key| - 1;
      if !endOfWord && i + |e.key| == |w| {
        return CharAtOutOfRange(i + |e.key|);
      }
      var note1 := !endOfWord && CheckNote1(w[i + |e.key|]);
      var form := if note1 then e.voiced else e.voiceless;
      assert ChosenForm(w, e, i, AsWritten) == Some(form);
      assert ContextStep(w, e, AsWritten) == Ok(ReplaceAll(w, e.key, form));
      w := ReplaceAll(w, e.key, form);
      index := IndexOf(w, e.key);
    }
    return Ok(w);
  }

  /** The loop over the keys of `exceptionsWithAccentsNotes_1_2` (lines 238-249) or of
      `exceptionsNotes_1_2` (lines 252-263), with the test as the code writes it. */
  method ReplaceContextDigraphs(word: string, table: seq<ContextRule>) returns (r: Outcome)
    requires ContextTable(table)
    ensures r == ContextStage(word, table, AsWritten)
  {
    var w := word;
    for j := 0 to |table|
      invariant ContextStage(w, table[j..], AsWritten) == ContextStage(word, table, AsWritten)
    {
      assert table[j..][1..] == table[j + 1..];
      var o := ReplaceContextKey(w, table[j]);
      if o.CharAtOutOfRange? {
        return o;
      }
      w := o.word;
    }
    return Ok(w);
  }

  // ---------------------------------------------------------------- the whole word

  /** Lines 284-311: the all-caps spellings when the original word is in capitals, then the
      accented letters when accents are kept, then every remaining letter. */
  function LetterStages(w: string, allCaps: bool, withAccent: bool): string {
    var capped := if allCaps then Translate(w, ExceptionsAllCaps) else w;
    var accented := if withAccent then Translate(capped, MappingWithAccents) else capped;
    Translate(accented, MappingBase)
  }

  /** Lines 237-281 over given tables: the αυ/ευ passes and then the fixed digraphs, the
      accented tables first when accents are kept. */
  function DigraphPasses(w: string, withAccent: bool, test: ContextTest, ctxA: seq<ContextRule>,
                         ctx: seq<ContextRule>, fixA: seq<(string, string)>, fix: seq<(string, string)>): Outcome
    requires ContextTable(ctxA) && ContextTable(ctx) && NonEmptyKeys(fixA) && NonEmptyKeys(fix)
  {
    var w1 :- if withAccent then ContextStage(w, ctxA, test) else Ok(w);
    var w2 :- ContextStage(w1, ctx, test);
    var w3 := if withAccent then ReplaceEach(w2, fixA) else w2;
    Ok(ReplaceEach(w3, fix))
  }

  /** The digraph passes over the tables of the transliterator. */
  function DigraphStages(w: string, withAccent: bool, test: ContextTest): Outcome {
    TablesWellFormed();
    DigraphPasses(w, withAccent, test, ExceptionsWithAccentsNotes12(), ExceptionsNotes12(),
                  ExceptionsWithAccents(), Exceptions())
  }

  /** `toGreeklishWord(greekWord, withAccent)` (lines 229-313) as a function of the word, the
      accent flag and the αυ/ευ test. */
  function TransliterateWord(greekWord: string, withAccent: bool, test: ContextTest): Outcome {
    var w :- DigraphStages(InitialMp(greekWord), withAccent, test);
    Ok(LetterStages(w, InAllCaps(greekWord), withAccent))
  }

  /** The two-character tables meet the preconditions of their passes. */
  lemma TablesWellFormed()
    ensures ContextTable(ExceptionsWithAccentsNotes12()) && ContextTable(ExceptionsNotes12())
    ensures NonEmptyKeys(ExceptionsWithAccents()) && NonEmptyKeys(Exceptions())
  {
    ExceptionsNotes12WellFormed();
    ExceptionsWithAccentsNotes12WellFormed();
    DigraphTableKeys();
  }

  /** The values of the fixed-digraph tables are Latin, so they share no character with a
      key of two Greek letters, and each table's own keys are removed by its pass. */
  lemma FixedTablesAvoidDigraphKeys()
    ensures NonEmptyValues(Exceptions()) && NonEmptyValues(ExceptionsWithAccents())
    ensures forall k :: IsDigraphKey(k) ==> ValuesAvoid(Exceptions(), k) && ValuesAvoid(ExceptionsWithAccents(), k)
    ensures RemovableKeys(Exceptions()) && RemovableKeys(ExceptionsWithAccents())
  {
    DigraphTableKeys();
    DigraphTableValues();
    forall k | IsDigraphKey(k) ensures ValuesAvoid(Exceptions(), k) && ValuesAvoid(ExceptionsWithAccents(), k) {
      forall i | 0 <= i < |Exceptions()| ensures forall c :: c in Exceptions()[i].1 ==> c !in k {
        ReplacementAvoidsKey(k, Exceptions()[i].1);
      }
      forall i | 0 <= i < |ExceptionsWithAccents()|
        ensures forall c :: c in ExceptionsWithAccents()[i].1 ==> c !in k
      {
        ReplacementAvoidsKey(k, ExceptionsWithAccents()[i].1);
      }
    }
  }

  /** What the digraph passes need of their four tables: well-formed context rules, and
      fixed-digraph tables with Greek-pair keys and non-empty Latin values. */
  ghost predicate DigraphTablesReady(ctxA: seq<ContextRule>, ctx: seq<ContextRule>,
                               fixA: seq<(string, string)>, fix: seq<(string, string)>) {
    && ContextTable(ctxA) && ContextTable(ctx) && NonEmptyKeys(fixA) && NonEmptyKeys(fix)
    && NonEmptyValues(fixA) && NonEmptyValues(fix) && RemovableKeys(fixA) && RemovableKeys(fix)
    && (forall k :: IsDigraphKey(k) ==> ValuesAvoid(fixA, k) && ValuesAvoid(fix, k))
    && (forall i :: 0 <= i < |fixA| ==> IsDigraphKey(fixA[i].0))
  }

  /** The tables of the transliterator are ready for the digraph passes. */
  lemma TablesReady()
    ensures DigraphTablesReady(ExceptionsWithAccentsNotes12(), ExceptionsNotes12(), ExceptionsWithAccents(), Exceptions())
  {
    TablesWellFormed();
    FixedTablesAvoidDigraphKeys();
    DigraphTableKeys();
  }

  /** No key of the plain context and fixed-digraph tables occurs in `d`, nor, when accents
      are kept, any key of the accented ones. */
  ghost predicate NoKeysLeft(d: string, withAccent: bool, ctxA: seq<ContextRule>, ctx: seq<ContextRule>,
                             fixA: seq<(string, string)>, fix: seq<(string, string)>) {
    && (forall i :: 0 <= i < |ctx| ==> !Occurs(d, ctx[i].key))
    && (forall i :: 0 <= i < |fix| ==> !Occurs(d, fix[i].0))
    && (withAccent ==> forall i :: 0 <= i < |ctxA| ==> !Occurs(d, ctxA[i].key))
    && (withAccent ==> forall i :: 0 <= i < |fixA| ==> !Occurs(d, fixA[i].0))
  }

  /** The passes over context tables and then over fixed-digraph tables whose values are
      Latin leave none of their keys: each pass removes its own keys and, writing only Latin
      text, brings back no key of two Greek letters. */
  lemma PassesRemoveKeys(w: string, withAccent: bool, test: ContextTest, ctxA: seq<ContextRule>,
                         ctx: seq<ContextRule>, fixA: seq<(string, string)>, fix: seq<(string, string)>)
    requires DigraphTablesReady(ctxA, ctx, fixA, fix)
    ensures DigraphPasses(w, withAccent, test, ctxA, ctx, fixA, fix).Ok? ==>
              NoKeysLeft(DigraphPasses(w, withAccent, test, ctxA, ctx, fixA, fix).word, withAccent, ctxA, ctx, fixA, fix)
  {
    var o1 := if withAccent then ContextStage(w, ctxA, test) else Ok(w);
    if o1.Ok? && ContextStage(o1.word, ctx, test).Ok? {
      var w2 := ContextStage(o1.word, ctx, test).word;
      var w3 := if withAccent then ReplaceEach(w2, fixA) else w2;
      var d := ReplaceEach(w3, fix);
      forall i | 0 <= i < |ctx| ensures !Occurs(d, ctx[i].key) {
        assert IsContextRule(ctx[i]);
      }
      if withAccent {
        forall i | 0 <= i < |ctxA| ensures !Occurs(d, ctxA[i].key) {
          assert IsContextRule(ctxA[i]);
        }
        forall i | 0 <= i < |fixA| ensures !Occurs(d, fixA[i].0) {
          assert IsDigraphKey(fixA[i].0);
        }
      }
    }
  }

  /** After the digraph passes of the transliterator no key of any table they used is left in
      the word. */
  lemma DigraphStagesRemoveKeys(w: string, withAccent: bool, test: ContextTest)
    ensures DigraphStages(w, withAccent, test).Ok? ==>
              NoKeysLeft(DigraphStages(w, withAccent, test).word, withAccent, ExceptionsWithAccentsNotes12(),
                         ExceptionsNotes12(), ExceptionsWithAccents(), Exceptions())
  {
    TablesReady();
    PassesRemoveKeys(w, withAccent, test, ExceptionsWithAccentsNotes12(), ExceptionsNotes12(),
                     ExceptionsWithAccents(), Exceptions());
  }

  /** A value of a one-character table never holds a key of the same table, nor one of the
      tables applied after it. */
  lemma CharTablesValuesAvoidKeys()
    ensures ValuesAvoidKeys(MappingBase)
    ensures ValuesAvoidKeys(MappingWithAccents)
    ensures ValuesAvoidKeys(ExceptionsAllCaps)
  {
    MappingBaseKeys();
    MappingBaseValues();
    MappingWithAccentsEntries();
    ExceptionsAllCapsEntries();
    forall c, d | MappingBase(c).Some? && d in MappingBase(c).value ensures MappingBase(d).None? {
      LatinTextHasNoGreek(MappingBase(c).value);
    }
    forall c, d | MappingWithAccents(c).Some? && d in MappingWithAccents(c).value
      ensures MappingWithAccents(d).None?
    {
      LatinTextHasNoGreek(MappingWithAccents(c).value);
    }
    forall c, d | ExceptionsAllCaps(c).Some? && d in ExceptionsAllCaps(c).value
      ensures ExceptionsAllCaps(d).None?
    {
      LatinTextHasNoGreek(ExceptionsAllCaps(c).value);
    }
  }

  /** Lines 284-311: the three passes over one-character tables. */
  method ReplaceLetters(word: string, isAllCaps: bool, withAccent: bool) returns (r: string)
    ensures r == LetterStages(word, isAllCaps, withAccent)
  {
    r := word;
    CharTablesValuesAvoidKeys();
    if isAllCaps {
      r := ReplaceCharKeys(r, ExceptionsAllCaps);
    }
    if withAccent {
      r := ReplaceCharKeys(r, MappingWithAccents);
    }
    r := ReplaceCharKeys(r, MappingBase);
  }

  /** Lines 237-281: the digraph passes, as the code runs them. */
  method ReplaceDigraphPasses(word: string, withAccent: bool) returns (r: Outcome)
    ensures r == DigraphStages(word, withAccent, AsWritten)
  {
    var greeklishWord := word;
    TablesWellFormed();
    if withAccent {
      var o := ReplaceContextDigraphs(greeklishWord, ExceptionsWithAccentsNotes12());
      if o.CharAtOutOfRange? {
        return o;
      }
      greeklishWord := o.word;
    }
    var o := ReplaceContextDigraphs(greeklishWord, ExceptionsNotes12());
    if o.CharAtOutOfRange? {
      return o;
    }
    greeklishWord := o.word;
    if withAccent {
      greeklishWord := ReplaceDigraphs(greeklishWord, ExceptionsWithAccents());
    }
    greeklishWord := ReplaceDigraphs(greeklishWord, Exceptions());
    return Ok(greeklishWord);
  }

  /** `toGreeklishWord(greekWord, withAccent)`: the μπ rule, the digraph passes and the
      letter passes, in order, over a local copy of the word. */
  method ToGreeklishWord(greekWord: string, withAccent: bool) returns (r: Outcome)
    ensures r == TransliterateWord(greekWord, withAccent, AsWritten)
  {
    var greeklishWord := greekWord;
    if StartsWith(greeklishWord, "ΜΠ") {
      greeklishWord := ReplaceAll(greeklishWord, "ΜΠ", "B");
    } else if StartsWith(greeklishWord, "Μπ") {
      greeklishWord := ReplaceAll(greeklishWord, "Μπ", "B");
    } else if StartsWith(greeklishWord, "μπ") {
      greeklishWord := ReplaceAll(greeklishWord, "μπ", "b");
    }
    var o := ReplaceDigraphPasses(greeklishWord, withAccent);
    if o.CharAtOutOfRange? {
      return o;
    }
    var isAllCaps := IsGreekWordInAllCaps(greekWord);
    greeklishWord := ReplaceLetters(o.word, isAllCaps, withAccent);
    return Ok(greeklishWord);
  }

  // ---------------------------------------------------------------- sentences

  /** The length of the run of characters other than ' ' that starts `s`. */
  function RunLength(s: string): (n: nat)
    ensures n <= |s| && (n < |s| ==> s[n] == ' ')
    ensures forall i :: 0 <= i < n ==> s[i] != ' '
    decreases |s|
  {
    if s == [] || s[0] == ' ' then 0 else 1 + RunLength(s[1..])
  }

  /** The tokens `new StringTokenizer(text, " ")` hands out: the maximal runs of characters
      other than ' ', in order, so never an empty one. */
  function Tokens(s: string): (tokens: seq<string>)
    ensures forall i :: 0 <= i < |tokens| ==> tokens[i] != [] && ' ' !in tokens[i]
    ensures tokens == [] <==> forall i :: 0 <= i < |s| ==> s[i] == ' '
    decreases |s|
  {
    if s == [] then []
    else if s[0] == ' ' then
      assert forall i :: 1 <= i < |s| ==> s[1..][i - 1] == s[i];
      Tokens(s[1..])
    else
      var n := RunLength(s);
      [s[..n]] + Tokens(s[n..])
  }

  /** The run at the start of `a` is not lengthened by what follows a space. */
  lemma {:induction false} RunLengthBeforeSpace(a: string, b: string)
    ensures RunLength(a + [' '] + b) == RunLength(a)
    decreases |a|
  {
    if a != [] && a[0] != ' ' {
      assert (a + [' '] + b)[1..] == a[1..] + [' '] + b;
      RunLengthBeforeSpace(a[1..], b);
    } else if a == [] {
      assert (a + [' '] + b)[0] == ' ';
    }
  }

  /** A leading space starts no token. */
  lemma TokensAfterSpace(s: string)
    requires s != [] && s[0] == ' '
    ensures Tokens(s) == Tokens(s[1..])
  {
  }

  /** A leading run of other characters is the first token. */
  lemma TokensAfterRun(s: string)
    requires s != [] && s[0] != ' '
    ensures Tokens(s) == [s[..RunLength(s)]] + Tokens(s[RunLength(s)..])
  {
  }

  /** Splitting on ' ' distributes over a space: the tokens of `a + " " + b` are those of `a`
      followed by those of `b`. */
  lemma {:induction false} TokensSplitAtSpace(a: string, b: string)
    ensures Tokens(a + [' '] + b) == Tokens(a) + Tokens(b)
    decreases |a|
  {
    var s := a + [' '] + b;
    if a == [] {
      assert s[1..] == b;
      TokensAfterSpace(s);
    } else if a[0] == ' ' {
      assert s[1..] == a[1..] + [' '] + b;
      TokensAfterSpace(s);
      TokensAfterSpace(a);
      TokensSplitAtSpace(a[1..], b);
    } else {
      var n := RunLength(a);
      RunLengthBeforeSpace(a, b);
      assert s[..n] == a[..n];
      assert s[n..] == a[n..] + [' '] + b;
      TokensAfterRun(s);
      TokensAfterRun(a);
      TokensSplitAtSpace(a[n..], b);
    }
  }

  /** A non-empty text without spaces is a single token. */
  lemma OneToken(w: string)
    requires w != [] && ' ' !in w
    ensures Tokens(w) == [w]
  {
    var n := RunLength(w);
    assert forall i :: 0 <= i < |w| ==> w[i] in w;
    assert w[..n] == w;
  }

  /** The transliteration of each word, in order. */
  function WordOutcomes(words: seq<string>, withAccent: bool, test: ContextTest): (outs: seq<Outcome>)
    ensures |outs| == |words|
    ensures forall i {:trigger TransliterateWord(words[i], withAccent, test)} :: 0 <= i < |words| ==>
              outs[i] == TransliterateWord(words[i], withAccent, test)
  {
    seq(|words|, i requires 0 <= i < |words| => TransliterateWord(words[i], withAccent, test))
  }

  /** What the `StringBuilder` holds after the loop: each transliterated word followed by one
      space; the first word that fails ends the whole text. */
  function Join(outs: seq<Outcome>): (r: Outcome)
    ensures r.Ok? <==> forall i :: 0 <= i < |outs| ==> outs[i].Ok?
    decreases |outs|
  {
    if outs == [] then Ok("")
    else
      var first :- outs[0];
      assert forall i :: 1 <= i < |outs| ==> outs[1..][i - 1] == outs[i];
      var rest :- Join(outs[1..]);
      Ok(first + " " + rest)
  }

  /** `toGreeklish(greek, withAccents)` (lines 210-218) as a function of the text, the accent
      flag and the αυ/ευ test. */
  function TransliterateText(greek: string, withAccents: bool, test: ContextTest): (r: Outcome)
    ensures (forall i :: 0 <= i < |greek| ==> greek[i] == ' ') ==> r == Ok("")
  {
    var joined :- Join(WordOutcomes(Tokens(greek), withAccents, test));
    Ok(Trim(joined))
  }

  /** `o` with `prefix` put in front of its word; a failure stays as it is. */
  function Prefixed(prefix: string, o: Outcome): Outcome {
    match o
    case Ok(w) => Ok(prefix + w)
    case CharAtOutOfRange(_) => o
  }

  /** Two prefixes in turn are one longer prefix. */
  lemma PrefixedTwice(a: string, b: string, o: Outcome)
    ensures Prefixed(a, Prefixed(b, o)) == Prefixed(a + b, o)
  {
    if o.Ok? {
      assert a + (b + o.word) == (a + b) + o.word;
    }
  }

  /** The outcome of every token is that of `toGreeklishWord` on it. */
  predicate OutcomesOf(tokens: seq<string>, withAccents: bool, outs: seq<Outcome>) {
    && |outs| == |tokens|
    && forall i {:trigger TransliterateWord(tokens[i], withAccents, AsWritten)} :: 0 <= i < |tokens| ==>
         outs[i] == TransliterateWord(tokens[i], withAccents, AsWritten)
  }

  /** Line 214: `toGreeklishWord` on the token at `i`. */
  method TransliterateToken(tokens: seq<string>, i: nat, withAccents: bool, ghost outs: seq<Outcome>)
    returns (word: Outcome)
    requires i < |tokens| && OutcomesOf(tokens, withAccents, outs)
    ensures word == outs[i]
  {
    word := ToGreeklishWord(tokens[i], withAccents);
  }

  /** The loop of `toGreeklish` (lines 212-216): each token's transliteration and a space are
      appended to the builder; the first failure ends the text. `outs` names the outcome of
      each token. */
  method AppendWords(tokens: seq<string>, withAccents: bool, ghost outs: seq<Outcome>) returns (r: Outcome)
    requires OutcomesOf(tokens, withAccents, outs)
    ensures r == Join(outs)
  {
    var builder := "";
    for i := 0 to |tokens|
      invariant Join(outs) == Prefixed(builder, Join(outs[i..]))
    {
      assert outs[i..][1..] == outs[i + 1..];
      var word := TransliterateToken(tokens, i, withAccents, outs);
      assert outs[i..][0] == word;
      if word.CharAtOutOfRange? {
        return word;
      }
      PrefixedTwice(builder, word.word + " ", Join(outs[i + 1..]));
      assert builder + (word.word + " ") == builder + word.word + " ";
      builder := builder + word.word + " ";
    }
    assert builder + "" == builder;
    return Ok(builder);
  }

  /** `toGreeklish(greek, withAccents)`: transliterates each token, appends it and a space,
      and trims the result. */
  method ToGreeklish(greek: string, withAccents: bool) returns (r: Outcome)
    ensures r == TransliterateText(greek, withAccents, AsWritten)
  {
    var tokens := Tokens(greek);
    var joined := AppendWords(tokens, withAccents, WordOutcomes(tokens, withAccents, AsWritten));
    if joined.CharAtOutOfRange? {
      return joined;
    }
    return Ok(Trim(joined.word));
  }

  /** `toGreeklish(greek)` (lines 197-199): the same without accents. */
  method ToGreeklishDefault(greek: string) returns (r: Outcome)
    ensures r == TransliterateText(greek, false, AsWritten)
  {
    r := ToGreeklish(greek, false);
  }
}
