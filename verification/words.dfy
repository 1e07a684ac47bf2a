/** Whole words through `toGreeklishWord` (lines 229-313 of
    src/main/java/com/aspectsense/greektools/Greeklish.java): words that no digraph rule
    touches, words without Greek letters, and the test words. */
module WordProperties {
  import opened Text
  import opened GreekTables
  import opened Rewriting
  import opened Greeklish
  import opened LetterPasses

  /** A pair of letters that may start a key of a two-character table: αυ, ευ or ου in any
      case and accent form, γ followed by γ, κ, ξ or χ, or ντ, each in any case. */
  predicate IsDigraphPair(a: char, b: char) {
    || (a in {'Α', 'α', 'Ε', 'ε', 'Ο', 'ο'} && b in {'Υ', 'υ', 'Ύ', 'ύ'})
    || (a in {'Γ', 'γ'} && b in {'Γ', 'γ', 'Κ', 'κ', 'Ξ', 'ξ', 'Χ', 'χ'})
    || (a in {'Ν', 'ν'} && b in {'Τ', 'τ'})
  }

  /** No two neighbouring characters of the word form a digraph pair. */
  predicate NoDigraphPair(w: string) {
    forall i :: 0 <= i < |w| - 1 ==> !IsDigraphPair(w[i], w[i + 1])
  }

  /** A key that is a digraph pair does not occur in a word without digraph pairs. */
  lemma PairKeyAbsent(w: string, k: string)
    requires NoDigraphPair(w) && |k| == 2 && IsDigraphPair(k[0], k[1])
    ensures !Occurs(w, k)
  {
    forall i: nat | i <= |w| ensures !OccursAt(w, k, i) {
      if i + 2 <= |w| {
        assert !IsDigraphPair(w[i], w[i + 1]);
        assert w[i..i + 2][0] == w[i] && w[i..i + 2][1] == w[i + 1];
      }
    }
  }

  /** Every key of the plain αυ/ευ table is a digraph pair. */
  lemma Notes12KeysArePairs()
    ensures forall i :: 0 <= i < |ExceptionsNotes12()| ==>
              |ExceptionsNotes12()[i].key| == 2
              && IsDigraphPair(ExceptionsNotes12()[i].key[0], ExceptionsNotes12()[i].key[1])
  {
  }

  /** Every key of the accented αύ/εύ table is a digraph pair. */
  lemma AccentedNotes12KeysArePairs()
    ensures forall i :: 0 <= i < |ExceptionsWithAccentsNotes12()| ==>
              |ExceptionsWithAccentsNotes12()[i].key| == 2
              && IsDigraphPair(ExceptionsWithAccentsNotes12()[i].key[0], ExceptionsWithAccentsNotes12()[i].key[1])
  {
  }

  /** Every key of both fixed-digraph tables is a digraph pair. */
  lemma FixedKeysArePairs()
    ensures forall i :: 0 <= i < |Exceptions()| ==>
              |Exceptions()[i].0| == 2 && IsDigraphPair(Exceptions()[i].0[0], Exceptions()[i].0[1])
    ensures forall i :: 0 <= i < |ExceptionsWithAccents()| ==>
              |ExceptionsWithAccents()[i].0| == 2
              && IsDigraphPair(ExceptionsWithAccents()[i].0[0], ExceptionsWithAccents()[i].0[1])
  {
  }

  /** A context table whose keys are digraph pairs leaves a word without them alone. */
  lemma ContextStageSkips(w: string, table: seq<ContextRule>, test: ContextTest)
    requires ContextTable(table) && NoDigraphPair(w)
    requires forall i :: 0 <= i < |table| ==> |table[i].key| == 2 && IsDigraphPair(table[i].key[0], table[i].key[1])
    ensures ContextStage(w, table, test) == Ok(w)
  {
    forall i | 0 <= i < |table| ensures !Occurs(w, table[i].key) {
      PairKeyAbsent(w, table[i].key);
    }
  }

  /** A fixed-digraph table whose keys are digraph pairs leaves a word without them alone. */
  lemma ReplaceEachSkips(w: string, table: seq<(string, string)>)
    requires NonEmptyKeys(table) && NoDigraphPair(w)
    requires forall i :: 0 <= i < |table| ==> |table[i].0| == 2 && IsDigraphPair(table[i].0[0], table[i].0[1])
    ensures ReplaceEach(w, table) == w
  {
    forall i | 0 <= i < |table| ensures !Occurs(w, table[i].0) {
      PairKeyAbsent(w, table[i].0);
    }
  }

  /** A word without digraph pairs goes through every digraph pass unchanged, and never
      fails. */
  lemma DigraphStagesSkipPlainWord(w: string, withAccent: bool, test: ContextTest)
    requires NoDigraphPair(w)
    ensures DigraphStages(w, withAccent, test) == Ok(w)
  {
    TablesWellFormed();
    Notes12KeysArePairs();
    AccentedNotes12KeysArePairs();
    FixedKeysArePairs();
    ContextStageSkips(w, ExceptionsWithAccentsNotes12(), test);
    ContextStageSkips(w, ExceptionsNotes12(), test);
    ReplaceEachSkips(w, ExceptionsWithAccents());
    ReplaceEachSkips(w, Exceptions());
  }

  /** A word that starts with no spelling of μπ and holds no digraph pair is spelt letter by
      letter, with the all-caps spellings exactly when the word has no small Greek letter. */
  lemma PlainWordByLetters(w: string, withAccent: bool, test: ContextTest)
    requires NoDigraphPair(w)
    requires !StartsWith(w, "ΜΠ") && !StartsWith(w, "Μπ") && !StartsWith(w, "μπ")
    ensures TransliterateWord(w, withAccent, test) == Ok(LetterImages(w, InAllCaps(w), withAccent))
  {
    DigraphStagesSkipPlainWord(w, withAccent, test);
    LetterStagesByCharacter(w, InAllCaps(w), withAccent);
  }

  /** The text with every `;` replaced by `?`. */
  function QuestionMarks(w: string): (r: string) {
    seq(|w|, i requires 0 <= i < |w| => if w[i] == ';' then '?' else w[i])
  }

  /** Outside the Greek letters only `;` has a letter image other than itself. */
  lemma {:induction false} NonGreekImages(w: string, allCaps: bool, withAccent: bool)
    requires forall i :: 0 <= i < |w| ==> !IsGreekLetter(w[i])
    ensures LetterImages(w, allCaps, withAccent) == QuestionMarks(w)
    decreases |w|
  {
    if w != [] {
      MappingBaseKeys();
      MappingWithAccentsEntries();
      ExceptionsAllCapsEntries();
      NonGreekImages(w[1..], allCaps, withAccent);
      assert QuestionMarks(w) == QuestionMarks([w[0]]) + QuestionMarks(w[1..]);
    }
  }

  /** A word without Greek letters holds no digraph pair and does not start with μπ. */
  lemma NonGreekIsPlain(w: string)
    requires forall i :: 0 <= i < |w| ==> !IsGreekLetter(w[i])
    ensures NoDigraphPair(w)
    ensures !StartsWith(w, "ΜΠ") && !StartsWith(w, "Μπ") && !StartsWith(w, "μπ")
  {
    forall i | 0 <= i < |w| - 1 ensures !IsDigraphPair(w[i], w[i + 1]) {
      assert !IsGreekLetter(w[i]) && !IsGreekLetter(w[i + 1]);
    }
    if w != [] {
      assert !IsGreekLetter(w[0]);
    }
  }

  /** A word with no Greek letter comes back with each `;` turned into `?` and nothing else
      changed. */
  lemma NonGreekWord(w: string, withAccent: bool, test: ContextTest)
    requires forall i :: 0 <= i < |w| ==> !IsGreekLetter(w[i])
    ensures TransliterateWord(w, withAccent, test) == Ok(QuestionMarks(w))
  {
    NonGreekIsPlain(w);
    PlainWordByLetters(w, withAccent, test);
    NonGreekImages(w, InAllCaps(w), withAccent);
  }

  /** A word with neither a Greek letter nor `;` comes back as it is. */
  lemma LatinWordUnchanged(w: string, withAccent: bool, test: ContextTest)
    requires forall i :: 0 <= i < |w| ==> !IsGreekLetter(w[i]) && w[i] != ';'
    ensures TransliterateWord(w, withAccent, test) == Ok(w)
  {
    NonGreekWord(w, withAccent, test);
    NoQuestionMarks(w);
  }

  /** Without `;` there is nothing to replace. */
  lemma NoQuestionMarks(w: string)
    requires forall i :: 0 <= i < |w| ==> w[i] != ';'
    ensures QuestionMarks(w) == w
  {
  }
}
