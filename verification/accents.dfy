/** Accent stripping (src/main/java/com/aspectsense/greektools/Greeklish.java, lines 329-415):
    each character of the text is looked up in a table of accented vowels and replaced by its
    plain form, or kept when it is not a key. */
module Accents {
  import opened Text
  import opened GreekTables

  /** What one character becomes: `cWithoutAccent == null ? c : cWithoutAccent`. */
  function Unaccented(table: char -> Option<char>, c: char): char {
    if table(c).Some? then table(c).value else c
  }

  /** The text with every character replaced by its plain form under `table`. */
  function StripAccents(s: string, table: char -> Option<char>): (r: string)
    ensures |r| == |s|
    ensures forall i :: 0 <= i < |s| ==> r[i] == Unaccented(table, s[i])
    decreases |s|
  {
    if s == [] then []
    else [Unaccented(table, s[0])] + StripAccents(s[1..], table)
  }

  /** No plain form is itself a key of the table. */
  predicate ImagesAreNotKeys(table: char -> Option<char>) {
    forall c :: table(c).Some? ==> table(table(c).value).None?
  }

  /** The accent-stripping loop: one character at a time is appended to the builder. */
  method StripWith(text: string, table: char -> Option<char>) returns (r: string)
    ensures r == StripAccents(text, table)
  {
    r := [];
    for i := 0 to |text|
      invariant r == StripAccents(text[..i], table)
    {
      r := r + [Unaccented(table, text[i])];
      assert r == StripAccents(text[..i + 1], table);
    }
    assert text[..|text|] == text;
  }

  /** `removeAccentsLowercase(text)` (lines 372-379). */
  method RemoveAccentsLowercase(text: string) returns (r: string)
    ensures r == StripAccents(text, AccentsToPlainLowercase)
  {
    r := StripWith(text, AccentsToPlainLowercase);
  }

  /** `removeAccentsUppercase(text)` (lines 390-397). */
  method RemoveAccentsUppercase(text: string) returns (r: string)
    ensures r == StripAccents(text, AccentsToPlainUppercase)
  {
    r := StripWith(text, AccentsToPlainUppercase);
  }

  /** `removeAccents(text)` (lines 408-415). */
  method RemoveAccents(text: string) returns (r: string)
    ensures r == StripAccents(text, AccentsToPlain)
  {
    r := StripWith(text, AccentsToPlain);
  }

  /** The plain vowels are not keys of any of the three tables. */
  lemma AccentTablesImagesAreNotKeys()
    ensures ImagesAreNotKeys(AccentsToPlainLowercase)
    ensures ImagesAreNotKeys(AccentsToPlainUppercase)
    ensures ImagesAreNotKeys(AccentsToPlain)
  {
    forall c | AccentsToPlain(c).Some? ensures AccentsToPlain(AccentsToPlain(c).value).None? {
      var p := AccentsToPlain(c).value;
      LetterFacts(p);
    }
  }

  /** Stripping twice is stripping once, for a table whose plain forms are not keys. */
  lemma StripAccentsIdempotent(s: string, table: char -> Option<char>)
    requires ImagesAreNotKeys(table)
    ensures StripAccents(StripAccents(s, table), table) == StripAccents(s, table)
  {
    var once := StripAccents(s, table);
    var twice := StripAccents(once, table);
    forall i | 0 <= i < |s| ensures twice[i] == once[i] {
      assert once[i] == Unaccented(table, s[i]);
    }
  }

  /** All three strippers are idempotent. */
  lemma RemoveAccentsIdempotent(s: string)
    ensures StripAccents(StripAccents(s, AccentsToPlainLowercase), AccentsToPlainLowercase)
            == StripAccents(s, AccentsToPlainLowercase)
    ensures StripAccents(StripAccents(s, AccentsToPlainUppercase), AccentsToPlainUppercase)
            == StripAccents(s, AccentsToPlainUppercase)
    ensures StripAccents(StripAccents(s, AccentsToPlain), AccentsToPlain)
            == StripAccents(s, AccentsToPlain)
  {
    AccentTablesImagesAreNotKeys();
    StripAccentsIdempotent(s, AccentsToPlainLowercase);
    StripAccentsIdempotent(s, AccentsToPlainUppercase);
    StripAccentsIdempotent(s, AccentsToPlain);
  }

  /** The combined table is the union of two disjoint tables whose plain forms are keys of
      neither, so stripping with it is stripping lower case and then upper case. */
  lemma RemoveAccentsIsBothPasses(s: string)
    ensures StripAccents(s, AccentsToPlain)
            == StripAccents(StripAccents(s, AccentsToPlainLowercase), AccentsToPlainUppercase)
  {
    var lower := StripAccents(s, AccentsToPlainLowercase);
    var both := StripAccents(lower, AccentsToPlainUppercase);
    var all := StripAccents(s, AccentsToPlain);
    forall i | 0 <= i < |s| ensures all[i] == both[i] {
      var c := s[i];
      assert lower[i] == Unaccented(AccentsToPlainLowercase, c);
      if AccentsToPlainLowercase(c).Some? {
        LetterFacts(AccentsToPlainLowercase(c).value);
      }
    }
  }

  /** The lower-case stripper leaves Έ (and every other upper-case letter) as it is. */
  lemma LowercaseStripKeepsCapitals(s: string)
    ensures forall i :: 0 <= i < |s| && IsUppercaseLetter(s[i]) ==>
              StripAccents(s, AccentsToPlainLowercase)[i] == s[i]
    ensures 'Έ' in s ==> 'Έ' in StripAccents(s, AccentsToPlainLowercase)
  {
    var r := StripAccents(s, AccentsToPlainLowercase);
    forall i | 0 <= i < |s| && IsUppercaseLetter(s[i]) ensures r[i] == s[i] {
      LetterFacts(s[i]);
    }
    if 'Έ' in s {
      var i :| 0 <= i < |s| && s[i] == 'Έ';
      assert r[i] == 'Έ';
    }
  }

  /** The upper-case stripper leaves every lower-case letter as it is. */
  lemma UppercaseStripKeepsSmallLetters(s: string)
    ensures forall i :: 0 <= i < |s| && IsLowercaseLetter(s[i]) ==>
              StripAccents(s, AccentsToPlainUppercase)[i] == s[i]
  {
    var r := StripAccents(s, AccentsToPlainUppercase);
    forall i | 0 <= i < |s| && IsLowercaseLetter(s[i]) ensures r[i] == s[i] {
      LetterFacts(s[i]);
    }
  }

  /** From the test sentences: "Έξω από" keeps its capital Έ under the lower-case stripper. */
  lemma LowercaseExample()
    ensures StripAccents("Έξω", AccentsToPlainLowercase) == "Έξω"
    ensures StripAccents("από", AccentsToPlainLowercase) == "απο"
  {
  }

  /** The same words lose every accent under the combined table. */
  lemma CombinedExample()
    ensures StripAccents("Έξω", AccentsToPlain) == "Εξω"
    ensures StripAccents("από", AccentsToPlain) == "απο"
  {
  }
}
