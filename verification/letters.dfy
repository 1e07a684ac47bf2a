/** What the three one-character passes of `toGreeklishWord` (lines 284-311 of
    src/main/java/com/aspectsense/greektools/Greeklish.java) do to a word, stated character by
    character, and what is left of Greek afterwards. */
module LetterPasses {
  import opened Text
  import opened GreekTables
  import opened Rewriting
  import opened Greeklish

  /** The Latin spelling of one character after the letter passes: the all-caps spelling
      when the word is in capitals, else the accented spelling when accents are kept, else
      the plain spelling, else the character itself. */
  function LetterImage(c: char, allCaps: bool, withAccent: bool): string {
    if allCaps && ExceptionsAllCaps(c).Some? then ExceptionsAllCaps(c).value
    else if withAccent && MappingWithAccents(c).Some? then MappingWithAccents(c).value
    else if MappingBase(c).Some? then MappingBase(c).value
    else [c]
  }

  /** The letter images of a word, one after the other. */
  function LetterImages(w: string, allCaps: bool, withAccent: bool): string
    decreases |w|
  {
    if w == [] then [] else LetterImage(w[0], allCaps, withAccent) + LetterImages(w[1..], allCaps, withAccent)
  }

  /** A one-character text translates to the image of its character. */
  lemma TranslateOne(c: char, table: char -> Option<string>)
    ensures Translate([c], table) == if table(c).Some? then table(c).value else [c]
  {
    var keys := KeySet(table);
    assert [c][1..] == [];
    assert TranslateKeys([c], table, keys) == Image(table, keys, c) + TranslateKeys([], table, keys);
  }

  /** Latin text is left alone by every one-character table. */
  lemma LatinTextUntranslated(s: string)
    requires IsLatinText(s)
    ensures Translate(s, ExceptionsAllCaps) == s
    ensures Translate(s, MappingWithAccents) == s
    ensures Translate(s, MappingBase) == s
  {
    LatinTextHasNoGreek(s);
    MappingBaseKeys();
    MappingWithAccentsEntries();
    ExceptionsAllCapsEntries();
    TranslateNoKeys(s, ExceptionsAllCaps, KeySet(ExceptionsAllCaps));
    TranslateNoKeys(s, MappingWithAccents, KeySet(MappingWithAccents));
    TranslateNoKeys(s, MappingBase, KeySet(MappingBase));
  }

  /** The letter passes over a single character give its letter image. */
  lemma LetterStagesOne(c: char, allCaps: bool, withAccent: bool)
    ensures LetterStages([c], allCaps, withAccent) == LetterImage(c, allCaps, withAccent)
  {
    MappingBaseValues();
    MappingWithAccentsEntries();
    ExceptionsAllCapsEntries();
    TranslateOne(c, ExceptionsAllCaps);
    TranslateOne(c, MappingWithAccents);
    TranslateOne(c, MappingBase);
    if allCaps && ExceptionsAllCaps(c).Some? {
      LatinTextUntranslated(ExceptionsAllCaps(c).value);
    } else if withAccent && MappingWithAccents(c).Some? {
      LatinTextUntranslated(MappingWithAccents(c).value);
    }
  }

  /** The letter passes work character by character, so they distribute over concatenation. */
  lemma LetterStagesConcat(a: string, b: string, allCaps: bool, withAccent: bool)
    ensures LetterStages(a + b, allCaps, withAccent)
            == LetterStages(a, allCaps, withAccent) + LetterStages(b, allCaps, withAccent)
  {
    var caps := KeySet(ExceptionsAllCaps);
    var acc := KeySet(MappingWithAccents);
    var base := KeySet(MappingBase);
    TranslateConcat(a, b, ExceptionsAllCaps, caps);
    var ca := if allCaps then Translate(a, ExceptionsAllCaps) else a;
    var cb := if allCaps then Translate(b, ExceptionsAllCaps) else b;
    TranslateConcat(ca, cb, MappingWithAccents, acc);
    var aa := if withAccent then Translate(ca, MappingWithAccents) else ca;
    var ab := if withAccent then Translate(cb, MappingWithAccents) else cb;
    TranslateConcat(aa, ab, MappingBase, base);
  }

  /** Letter images of a concatenation are the images of its parts, one after the other. */
  lemma {:induction false} LetterImagesConcat(a: string, b: string, allCaps: bool, withAccent: bool)
    ensures LetterImages(a + b, allCaps, withAccent)
            == LetterImages(a, allCaps, withAccent) + LetterImages(b, allCaps, withAccent)
    decreases |a|
  {
    if a == [] {
      assert a + b == b;
    } else {
      assert (a + b)[1..] == a[1..] + b;
      LetterImagesConcat(a[1..], b, allCaps, withAccent);
    }
  }

  /** The three letter passes amount to replacing each character by its letter image: the
      order in which the passes run only decides which table wins for a character. */
  lemma {:induction false} LetterStagesByCharacter(w: string, allCaps: bool, withAccent: bool)
    ensures LetterStages(w, allCaps, withAccent) == LetterImages(w, allCaps, withAccent)
    decreases |w|
  {
    if w == [] {
      TranslateNoKeys(w, ExceptionsAllCaps, KeySet(ExceptionsAllCaps));
      TranslateNoKeys(w, MappingWithAccents, KeySet(MappingWithAccents));
      TranslateNoKeys(w, MappingBase, KeySet(MappingBase));
    } else {
      assert w == [w[0]] + w[1..];
      LetterStagesConcat([w[0]], w[1..], allCaps, withAccent);
      LetterStagesOne(w[0], allCaps, withAccent);
      LetterStagesByCharacter(w[1..], allCaps, withAccent);
    }
  }

  /** Θ, Χ and Ψ take a capital second letter exactly when the word is in capitals. */
  lemma CapitalThetaChiPsi(allCaps: bool, withAccent: bool)
    ensures LetterImage('Θ', allCaps, withAccent) == if allCaps then "TH" else "Th"
    ensures LetterImage('Χ', allCaps, withAccent) == if allCaps then "CH" else "Ch"
    ensures LetterImage('Ψ', allCaps, withAccent) == if allCaps then "PS" else "Ps"
  {
  }

  /** θ, χ and ψ are spelt th, ch and ps whatever the case of the word. */
  lemma SmallThetaChiPsi(allCaps: bool, withAccent: bool)
    ensures LetterImage('θ', allCaps, withAccent) == "th"
    ensures LetterImage('χ', allCaps, withAccent) == "ch"
    ensures LetterImage('ψ', allCaps, withAccent) == "ps"
  {
  }

  /** After the plain pass no Greek letter and no `;` remain: each Greek letter and `;` is a
      key of `mappingBase`, and every value is Latin. */
  lemma BaseMappingLeavesNoGreek(s: string)
    ensures forall c :: c in Translate(s, MappingBase) ==> !IsGreekLetter(c) && c != ';'
  {
    MappingBaseKeys();
    MappingBaseValues();
    forall c | c in Translate(s, MappingBase) ensures !IsGreekLetter(c) && c != ';' {
      if k :| k in KeySet(MappingBase) && MappingBase(k).Some? && c in MappingBase(k).value {
        LatinTextHasNoGreek(MappingBase(k).value);
      }
    }
  }

  /** A successful transliteration, with or without accents and under either αυ/ευ test,
      holds no Greek letter and no Greek question mark. */
  lemma OutputHasNoGreek(w: string, withAccent: bool, test: ContextTest)
    ensures TransliterateWord(w, withAccent, test).Ok? ==>
              forall c :: c in TransliterateWord(w, withAccent, test).word ==> !IsGreekLetter(c) && c != ';'
  {
    match DigraphStages(InitialMp(w), withAccent, test)
    case Ok(d) =>
      var capped := if InAllCaps(w) then Translate(d, ExceptionsAllCaps) else d;
      var accented := if withAccent then Translate(capped, MappingWithAccents) else capped;
      BaseMappingLeavesNoGreek(accented);
    case CharAtOutOfRange(_) =>
  }
}
