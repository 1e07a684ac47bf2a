/** The constant rule tables and character classes of the transliterator
    (src/main/java/com/aspectsense/greektools/Greeklish.java, lines 20-183).

    A table whose keys are single characters is modelled by its `get` operation: a function
    from a key to `Some(value)`, or `None` for a character that is not a key. A table whose
    keys are two-character strings is modelled as the sequence of its entries, in the order
    of the `put` calls. */
module GreekTables {
  import opened Text

  // ---------------------------------------------------------------- character classes

  /** `ALL_GREEK_UPPERCASE_LETTERS.indexOf(c) != -1` */
  predicate IsUppercaseLetter(c: char) {
    c in {
      'Α', 'Ά', 'Β', 'Γ', 'Δ', 'Ε', 'Έ', 'Ζ', 'Η', 'Ή', 'Θ', 'Ι',
      'Ί', 'Ϊ', 'Κ', 'Λ', 'Μ', 'Ν', 'Ξ', 'Ο', 'Ό', 'Π', 'Ρ', 'Σ',
      'Τ', 'Υ', 'Ύ', 'Ϋ', 'Φ', 'Χ', 'Ψ', 'Ω', 'Ώ'
    }
  }

  /** `ALL_GREEK_LOWERCASE_LETTERS.indexOf(c) != -1` (final sigma included) */
  predicate IsLowercaseLetter(c: char) {
    c in {
      'α', 'ά', 'β', 'γ', 'δ', 'ε', 'έ', 'ζ', 'η', 'ή', 'θ', 'ι',
      'ί', 'ϊ', 'ΐ', 'κ', 'λ', 'μ', 'ν', 'ξ', 'ο', 'ό', 'π', 'ρ',
      'σ', 'ς', 'τ', 'υ', 'ύ', 'ϋ', 'ΰ', 'φ', 'χ', 'ψ', 'ω', 'ώ'
    }
  }

  /** `ALL_GREEK_LETTERS.indexOf(c) != -1`: that string is the upper-case letters followed by
      the lower-case ones. */
  predicate IsGreekLetter(c: char) {
    IsUppercaseLetter(c) || IsLowercaseLetter(c)
  }

  /** `ALL_GREEK_VOWELS.indexOf(c) != -1` */
  predicate IsVowel(c: char) {
    c in {
      'Α', 'α', 'Ά', 'ά', 'Ε', 'ε', 'Έ', 'έ', 'Η', 'η', 'Ή', 'ή',
      'Ι', 'ι', 'Ί', 'ί', 'Ϊ', 'ϊ', 'ΐ', 'Ο', 'ο', 'Ό', 'ό', 'Υ',
      'υ', 'Ύ', 'ύ', 'Ϋ', 'ϋ', 'ΰ', 'Ω', 'ω', 'Ώ', 'ώ'
    }
  }

  /** `NOTE_1_GREEK_CONSONANTS.indexOf(c) != -1`: the voiced consonants of note 1. */
  predicate IsNote1Consonant(c: char) {
    c in {
      'Β', 'β', 'Γ', 'γ', 'Δ', 'δ', 'Ζ', 'ζ', 'Λ', 'λ', 'Μ', 'μ',
      'Ν', 'ν', 'Ρ', 'ρ'
    }
  }

  /** `NOTE_2_GREEK_CONSONANTS.indexOf(c) != -1`: the voiceless consonants of note 2. */
  predicate IsNote2Consonant(c: char) {
    c in {
      'Θ', 'θ', 'Κ', 'κ', 'Ξ', 'ξ', 'Π', 'π', 'Σ', 'σ', 'Τ', 'τ',
      'Φ', 'φ', 'Χ', 'χ', 'Ψ', 'ψ'
    }
  }

  /** Text a replacement may produce: no character of the Greek letter range Ά..ώ and no `;`. */
  predicate IsLatinText(s: string) {
    forall c :: c in s ==> (c < 'Ά' || 'ώ' < c) && c != ';'
  }

  /** A replacement value: non-empty Latin text. */
  predicate IsReplacement(v: string) {
    v != [] && IsLatinText(v)
  }

  /** Every Greek letter lies between Ά (U+0386) and ώ (U+03CE), and no letter is both upper
      and lower case. */
  lemma LetterFacts(c: char)
    ensures IsGreekLetter(c) ==> 'Ά' <= c <= 'ώ'
    ensures !(IsUppercaseLetter(c) && IsLowercaseLetter(c))
  {
  }

  /** Latin text holds no Greek letter and no `;`. */
  lemma LatinTextHasNoGreek(s: string)
    requires IsLatinText(s)
    ensures forall c :: c in s ==> !IsGreekLetter(c) && c != ';'
  {
    forall c | c in s ensures !IsGreekLetter(c) {
      LetterFacts(c);
    }
  }

  // ---------------------------------------------------------------- one-character tables

  /** `mappingBase.get(key)` (lines 29-99): a Latin value for every Greek letter, and `?` for
      the Greek question mark `;`. */
  function MappingBase(key: char): Option<string> {
    match key
      case 'Α' => Some("A")
      case 'Ά' => Some("A")
      case 'α' => Some("a")
      case 'ά' => Some("a")
      case 'Β' => Some("V")
      case 'β' => Some("v")
      case 'Γ' => Some("G")
      case 'γ' => Some("g")
      case 'Δ' => Some("D")
      case 'δ' => Some("d")
      case 'Ε' => Some("E")
      case 'Έ' => Some("E")
      case 'ε' => Some("e")
      case 'έ' => Some("e")
      case 'Ζ' => Some("Z")
      case 'ζ' => Some("z")
      case 'Η' => Some("I")
      case 'Ή' => Some("I")
      case 'η' => Some("i")
      case 'ή' => Some("i")
      case 'Θ' => Some("Th")
      case 'θ' => Some("th")
      case 'Ι' => Some("I")
      case 'Ί' => Some("I")
      case 'Ϊ' => Some("I")
      case 'ι' => Some("i")
      case 'ί' => Some("i")
      case 'ϊ' => Some("i")
      case 'ΐ' => Some("i")
      case 'Κ' => Some("K")
      case 'κ' => Some("k")
      case 'Λ' => Some("L")
      case 'λ' => Some("l")
      case 'Μ' => Some("M")
      case 'μ' => Some("m")
      case 'Ν' => Some("N")
      case 'ν' => Some("n")
      case 'Ξ' => Some("X")
      case 'ξ' => Some("x")
      case 'Ο' => Some("O")
      case 'Ό' => Some("O")
      case 'ο' => Some("o")
      case 'ό' => Some("o")
      case 'Π' => Some("P")
      case 'π' => Some("p")
      case 'Ρ' => Some("R")
      case 'ρ' => Some("r")
      case 'Σ' => Some("S")
      case 'σ' => Some("s")
      case 'ς' => Some("s")
      case 'Τ' => Some("T")
      case 'τ' => Some("t")
      case 'Υ' => Some("Y")
      case 'Ύ' => Some("Y")
      case 'Ϋ' => Some("Y")
      case 'υ' => Some("y")
      case 'ύ' => Some("y")
      case 'ϋ' => Some("y")
      case 'ΰ' => Some("y")
      case 'Φ' => Some("F")
      case 'φ' => Some("f")
      case 'Χ' => Some("Ch")
      case 'χ' => Some("ch")
      case 'Ψ' => Some("Ps")
      case 'ψ' => Some("ps")
      case 'Ω' => Some("O")
      case 'Ώ' => Some("O")
      case 'ω' => Some("o")
      case 'ώ' => Some("o")
      case ';' => Some("?")
      case _ => None
  }

  /** `mappingWithAccents.get(key)` (lines 101-124): accented Latin values for the accented
      letters and for η and ω. */
  function MappingWithAccents(key: char): Option<string> {
    match key
      case 'Ά' => Some("Á")
      case 'ά' => Some("á")
      case 'Έ' => Some("É")
      case 'έ' => Some("é")
      case 'Η' => Some("Ī")
      case 'Ή' => Some("Ī́")
      case 'η' => Some("ī")
      case 'ή' => Some("ī́")
      case 'Ί' => Some("Í")
      case 'Ϊ' => Some("Ï")
      case 'ί' => Some("í")
      case 'ϊ' => Some("ï")
      case 'ΐ' => Some("ḯ")
      case 'Ό' => Some("Ó")
      case 'ό' => Some("ó")
      case 'Ύ' => Some("Ý")
      case 'Ϋ' => Some("Ÿ")
      case 'ύ' => Some("ý")
      case 'ϋ' => Some("ÿ")
      case 'ΰ' => Some("ÿ́")
      case 'Ω' => Some("Ō")
      case 'Ώ' => Some("Ṓ")
      case 'ω' => Some("ō")
      case 'ώ' => Some("ṓ")
      case _ => None
  }

  /** `exceptionsAllCaps.get(key)` (lines 173-175): the two-letter upper-case spellings used
      when the whole word is in capitals. */
  function ExceptionsAllCaps(key: char): Option<string> {
    match key
      case 'Θ' => Some("TH")
      case 'Χ' => Some("CH")
      case 'Ψ' => Some("PS")
      case _ => None
  }

  // ---------------------------------------------------------------- two-character tables

  /** An entry of a context-sensitive table: the key and its `{voiced, voiceless}` values. */
  datatype ContextRule = ContextRule(key: string, voiced: string, voiceless: string)

  /** A key made of two Greek letters. */
  predicate IsDigraphKey(k: string) {
    |k| == 2 && IsGreekLetter(k[0]) && IsGreekLetter(k[1])
  }

  /** A well-formed context entry: the key is αυ or ευ in some case and accent form; both
      values are Latin and agree up to their last letter, which is v/V (voiced) or f/F
      (voiceless). */
  predicate IsContextRule(e: ContextRule) {
    && IsDigraphKey(e.key)
    && e.key[1] in {'Υ', 'Ύ', 'υ', 'ύ'}
    && IsReplacement(e.voiced) && IsReplacement(e.voiceless)
    && |e.voiced| == |e.voiceless| >= 2
    && e.voiced[..|e.voiced| - 1] == e.voiceless[..|e.voiceless| - 1]
    && e.voiced[|e.voiced| - 1] in {'V', 'v'}
    && e.voiceless[|e.voiceless| - 1] in {'F', 'f'}
  }

  /** `exceptionsNotes_1_2` (lines 126-137). */
  function ExceptionsNotes12(): seq<ContextRule> {
    [
        ContextRule("ΑΥ", "AV", "AF"), ContextRule("Αυ", "Av", "Af"), ContextRule("αυ", "av", "af"),
        ContextRule("ΑΎ", "AV", "AF"), ContextRule("Αύ", "Av", "Af"), ContextRule("αύ", "av", "af"),
        ContextRule("ΕΥ", "EV", "EF"), ContextRule("Ευ", "Ev", "Ef"), ContextRule("ευ", "ev", "ef"),
        ContextRule("ΕΎ", "EV", "EF"), ContextRule("Εύ", "Ev", "Ef"), ContextRule("εύ", "ev", "ef")
    ]
  }

  /** `exceptionsWithAccentsNotes_1_2` (lines 162-167): the accented forms of αύ and εύ. */
  function ExceptionsWithAccentsNotes12(): seq<ContextRule> {
    [
        ContextRule("ΑΎ", "ÁV", "ÁF"), ContextRule("Αύ", "Áv", "Áf"), ContextRule("αύ", "áv", "áf"),
        ContextRule("ΕΎ", "ÉV", "ÉF"), ContextRule("Εύ", "Év", "Éf"), ContextRule("εύ", "év", "éf")
    ]
  }

  /** `exceptions` (lines 139-160): ου, γγ, γκ, γξ, γχ and ντ in their case forms. */
  function Exceptions(): seq<(string, string)> {
    [
        ("ΟΥ", "OU"), ("Ου", "Ou"), ("ου", "ou"), ("ΟΎ", "OU"), ("Ού", "Ou"), ("ού", "ou"),
        ("ΓΓ", "NG"), ("Γγ", "Ng"), ("γγ", "ng"), ("ΓΚ", "GK"), ("Γκ", "Gk"), ("γκ", "gk"),
        ("ΓΞ", "NX"), ("Γξ", "Nx"), ("γξ", "nx"), ("ΓΧ", "NCH"), ("Γχ", "Nch"), ("γχ", "nch"),
        ("ΝΤ", "NT"), ("Ντ", "Nt"), ("ντ", "nt")
    ]
  }

  /** `exceptionsWithAccents` (lines 169-171): accented ού. */
  function ExceptionsWithAccents(): seq<(string, string)> {
    [
        ("ΟΎ", "OÚ"), ("Ού", "Oú"), ("ού", "oú")
    ]
  }

  // ---------------------------------------------------------------- what the tables hold

  /** The keys of `mappingBase` are exactly the Greek letters and `;`. */
  lemma MappingBaseKeys()
    ensures forall c :: MappingBase(c).Some? <==> IsGreekLetter(c) || c == ';'
  {
  }

  /** Every value of `mappingBase` is non-empty Latin text. */
  lemma MappingBaseValues()
    ensures forall c :: MappingBase(c).Some? ==> IsReplacement(MappingBase(c).value)
  {
  }

  /** `mappingWithAccents` maps Greek vowels to non-empty Latin text. */
  lemma MappingWithAccentsEntries()
    ensures forall c :: MappingWithAccents(c).Some? ==> IsGreekLetter(c) && IsVowel(c)
    ensures forall c :: MappingWithAccents(c).Some? ==> IsReplacement(MappingWithAccents(c).value)
  {
  }

  /** `exceptionsAllCaps` has the keys Θ, Χ and Ψ, each mapped to two Latin capitals. */
  lemma ExceptionsAllCapsEntries()
    ensures forall c :: ExceptionsAllCaps(c).Some? <==> c == 'Θ' || c == 'Χ' || c == 'Ψ'
    ensures forall c :: ExceptionsAllCaps(c).Some? ==> IsReplacement(ExceptionsAllCaps(c).value)
  {
  }

  /** The plain αυ/ευ table is made of well-formed entries. */
  lemma ExceptionsNotes12WellFormed()
    ensures forall i :: 0 <= i < |ExceptionsNotes12()| ==> IsContextRule(ExceptionsNotes12()[i])
  {
  }

  /** The accented αύ/εύ table is made of well-formed entries. */
  lemma ExceptionsWithAccentsNotes12WellFormed()
    ensures forall i :: 0 <= i < |ExceptionsWithAccentsNotes12()| ==> IsContextRule(ExceptionsWithAccentsNotes12()[i])
  {
  }

  /** The keys of both fixed-digraph tables are pairs of Greek letters. */
  lemma DigraphTableKeys()
    ensures forall i :: 0 <= i < |Exceptions()| ==> IsDigraphKey(Exceptions()[i].0)
    ensures forall i :: 0 <= i < |ExceptionsWithAccents()| ==> IsDigraphKey(ExceptionsWithAccents()[i].0)
  {
  }

  /** The values of both fixed-digraph tables are non-empty Latin text. */
  lemma DigraphTableValues()
    ensures forall i :: 0 <= i < |Exceptions()| ==> IsReplacement(Exceptions()[i].1)
    ensures forall i :: 0 <= i < |ExceptionsWithAccents()| ==> IsReplacement(ExceptionsWithAccents()[i].1)
  {
  }

  // ---------------------------------------------------------------- accent tables

  /** `ACCENTS_TO_PLAIN_GREEK_LOWERCASE.get(c)` (lines 329-341). */
  function AccentsToPlainLowercase(c: char): (plain: Option<char>)
    ensures plain.Some? ==> IsLowercaseLetter(c) && IsVowel(c) && plain.value != c
    ensures plain.Some? ==> plain.value in {'α', 'ε', 'η', 'ι', 'ο', 'υ', 'ω'}
  {
    match c
      case 'ά' => Some('α')
      case 'έ' => Some('ε')
      case 'ή' => Some('η')
      case 'ί' => Some('ι')
      case 'ϊ' => Some('ι')
      case 'ΐ' => Some('ι')
      case 'ό' => Some('ο')
      case 'ύ' => Some('υ')
      case 'ϋ' => Some('υ')
      case 'ΰ' => Some('υ')
      case 'ώ' => Some('ω')
      case _ => None
  }

  /** `ACCENTS_TO_PLAIN_GREEK_UPPERCASE.get(c)` (lines 343-355). */
  function AccentsToPlainUppercase(c: char): (plain: Option<char>)
    ensures plain.Some? ==> IsUppercaseLetter(c) && IsVowel(c) && plain.value != c
    ensures plain.Some? ==> plain.value in {'Α', 'Ε', 'Η', 'Ι', 'Ο', 'Υ', 'Ω'}
  {
    match c
      case 'Ά' => Some('Α')
      case 'Έ' => Some('Ε')
      case 'Ή' => Some('Η')
      case 'Ί' => Some('Ι')
      case 'Ϊ' => Some('Ι')
      case 'Ό' => Some('Ο')
      case 'Ύ' => Some('Υ')
      case 'Ϋ' => Some('Υ')
      case 'Ώ' => Some('Ω')
      case _ => None
  }

  /** `ACCENTS_TO_PLAIN_GREEK.get(c)` (lines 357-361): `putAll` of the lower-case table, then of
      the upper-case one, so an upper-case entry would win; the key sets are disjoint, so the
      union agrees with whichever table holds the key. */
  function AccentsToPlain(c: char): (plain: Option<char>)
    ensures plain.Some? <==> AccentsToPlainLowercase(c).Some? || AccentsToPlainUppercase(c).Some?
    ensures AccentsToPlainLowercase(c).Some? ==> plain == AccentsToPlainLowercase(c)
    ensures AccentsToPlainUppercase(c).Some? ==> plain == AccentsToPlainUppercase(c)
  {
    LetterFacts(c);
    match AccentsToPlainUppercase(c)
    case Some(p) => Some(p)
    case None => AccentsToPlainLowercase(c)
  }
}
