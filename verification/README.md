# Greeklish: Greek to Latin transliteration, modelled in Dafny

This project models the transliteration engine of the GreekTools library
(`src/main/java/com/aspectsense/greektools/Greeklish.java`). It turns Greek text into Latin letters following
ISO 843 / ELOT 743. It also models two small utilities: accent stripping and the detection of
Greek letters.

`toGreeklishWord` rewrites one word through a fixed sequence of literal replace-all passes:

1. the word-initial μπ rule;
2. the context-sensitive αυ/ευ digraphs (notes 1 and 2 of the standard), first the accented
   table and then the plain one;
3. the fixed digraphs ου, γγ, γκ, γξ, γχ and ντ;
4. the all-caps spellings of Θ, Χ and Ψ;
5. the letter-by-letter mapping, first the accented table and then the plain one.

`toGreeklish` splits a text on spaces, transliterates each word, joins the results with single
spaces and trims the ends.

Modules:

- `Text` (text.dfy): the `String` operations the code relies on, over `seq<char>`: `indexOf`,
  `startsWith`, literal `replace`/`replaceAll` and `trim`.
- `GreekTables` (tables.dfy): the constant tables and character classes. A table with
  one-character keys is its `get` function. A table with two-character keys is the sequence of
  its entries.
- `Rewriting` (rewriting.dfy): the two kinds of table pass. Each loop is a method proved
  against a specification function.
- `Greeklish` (greeklish.dfy): `checkNote1`, the αυ/ευ loops, `toGreeklishWord`,
  `isGreekWordInAllCaps`, `containsGreek` and both `toGreeklish` overloads.
  - `checkNote1` is a function.
  - The αυ/ευ loops, the passes of `toGreeklishWord` and the tokenizer loop of `toGreeklish`
    are methods proved against specification functions.
  - `isGreekWordInAllCaps` and `containsGreek` are methods whose loops are proved against a
    quantified statement of what they decide.
  - `toGreeklish(greek)` is a method without a loop that calls the two-argument overload.
- `Accents` (accents.dfy): the three accent strippers.
- `LetterPasses` (letters.dfy) and `WordProperties` (words.dfy): what the passes do to a word,
  character by character.
- `GreeklishExamples` (examples.dfy): test words worked through the model.
- `ContextFindings` (findings.dfy): the αυ/ευ test at the end of a word (see Findings).

A word either transliterates or fails. `Outcome` is `Ok(word)` or `CharAtOutOfRange(index)`.
The failure stands for the `StringIndexOutOfBoundsException` that `charAt` throws; a failing
word ends the whole text, as the exception does.

Every function of the word pipeline takes a `ContextTest`. `AsWritten` is the test at lines
245-246 and 259-260 as the code states it. The methods that mirror the code use `AsWritten`.
`Corrected` is the rule of ISO 843 that the code evidently means.

The code names the end-of-word case in its variable `endOfWord` (lines 245 and 259) and gives it
the voiceless form. That is also what ISO 843 gives at the end of a word. The test that sets
`endOfWord` is off by one, and the model follows the code as written:

- as written, "Αυ" makes `charAt` read past the end of the word;
- under the corrected rule, "Αυ" becomes "Af", the voiceless form.

## Model

| member | source | states |
|---|---|---|
| Text.IndexOf | src/main/java/com/aspectsense/greektools/Greeklish.java:244 | `indexOf`: the result is the first position at which the key occurs, and `None` exactly when the key does not occur |
| Text.ReplaceAll | src/main/java/com/aspectsense/greektools/Greeklish.java:247 | `replaceAll` with a literal key: a word without the key is returned unchanged; a word that starts with the key starts with the value, and any other non-empty word keeps its first character; every character of the result comes from the word or from the value |
| Text.ReplaceAllAtKey | src/main/java/com/aspectsense/greektools/Greeklish.java:247 | an occurrence at the start of the text becomes the value, and the rest of the text is replaced after it |
| Text.ReplaceAllKeepsFirst | src/main/java/com/aspectsense/greektools/Greeklish.java:247 | a first character at which no occurrence starts is kept, and the rest of the text is replaced after it |
| Text.ReplaceAllKeepsPrefix | src/main/java/com/aspectsense/greektools/Greeklish.java:247 | a prefix in which no occurrence of the key starts comes through unchanged: only the text from the first occurrence on is rewritten |
| Text.ReplaceAllKeepsAbsent | src/main/java/com/aspectsense/greektools/Greeklish.java:247 | replacing any key by a non-empty value that shares no character with a key `k` of one or two characters does not create `k`: absent before means absent after |
| Text.ReplaceAllRemovesKey | src/main/java/com/aspectsense/greektools/Greeklish.java:244-247 | after replacing a key of one or two characters by a value that shares no character with it, the key no longer occurs, so each `while (indexOf …)` loop runs its body at most once |
| Text.ReplaceAllConcat | src/main/java/com/aspectsense/greektools/Greeklish.java:308 | for a one-character key, replacement distributes over concatenation, so a one-character pass works character by character |
| Text.Trim | src/main/java/com/aspectsense/greektools/Greeklish.java:217 | `trim`: the result is the slice of the text that starts at its first character above U+0020, only characters at or below U+0020 follow it, and a non-empty result starts and ends above U+0020 |
| GreekTables.LetterFacts | src/main/java/com/aspectsense/greektools/Greeklish.java:178-180 | every Greek letter lies in U+0386..U+03CE and no letter is both upper and lower case |
| GreekTables.MappingBaseKeys | src/main/java/com/aspectsense/greektools/Greeklish.java:29-99 | the keys of `mappingBase` are exactly the Greek letters and `;` |
| GreekTables.MappingBaseValues | src/main/java/com/aspectsense/greektools/Greeklish.java:29-99 | every value of `mappingBase` is non-empty Latin text |
| GreekTables.MappingWithAccentsEntries | src/main/java/com/aspectsense/greektools/Greeklish.java:101-124 | `mappingWithAccents` maps Greek vowels only, each to non-empty Latin text |
| GreekTables.ExceptionsAllCapsEntries | src/main/java/com/aspectsense/greektools/Greeklish.java:173-175 | `exceptionsAllCaps` has exactly the keys Θ, Χ and Ψ, each with a non-empty Latin value |
| GreekTables.ExceptionsNotes12WellFormed | src/main/java/com/aspectsense/greektools/Greeklish.java:126-137 | each entry of `exceptionsNotes_1_2` has a two-letter αυ/ευ key and Latin voiced/voiceless values that differ only in their last letter, v/V against f/F |
| GreekTables.ExceptionsWithAccentsNotes12WellFormed | src/main/java/com/aspectsense/greektools/Greeklish.java:162-167 | the same for the accented table `exceptionsWithAccentsNotes_1_2` |
| GreekTables.DigraphTableKeys | src/main/java/com/aspectsense/greektools/Greeklish.java:139-171 | every key of `exceptions` and `exceptionsWithAccents` is a pair of Greek letters |
| GreekTables.DigraphTableValues | src/main/java/com/aspectsense/greektools/Greeklish.java:139-171 | every value of `exceptions` and `exceptionsWithAccents` is non-empty Latin text |
| GreekTables.AccentsToPlainLowercase | src/main/java/com/aspectsense/greektools/Greeklish.java:329-342 | only accented lower-case vowels are keys, and each maps to a different, plain lower-case vowel |
| GreekTables.AccentsToPlainUppercase | src/main/java/com/aspectsense/greektools/Greeklish.java:344-355 | only accented upper-case vowels are keys, and each maps to a different, plain upper-case vowel |
| GreekTables.AccentsToPlain | src/main/java/com/aspectsense/greektools/Greeklish.java:357-361 | the combined table holds a key exactly when one of the two tables does, and agrees with that table on it |
| Rewriting.TranslateOneMoreKey | src/main/java/com/aspectsense/greektools/Greeklish.java:286-291 | replacing one more key of a one-character table everywhere moves the text from the images under the keys done so far to the images with that key done too, because no value holds a key; hence the `keySet()` order does not matter |
| Rewriting.ReplaceCharKeys | src/main/java/com/aspectsense/greektools/Greeklish.java:304-309 | the loop over the keys of a one-character table, in any order the set hands them out, gives the character-by-character translation of the word |
| Rewriting.ReplaceEach | src/main/java/com/aspectsense/greektools/Greeklish.java:276-281 | a word holding none of the keys of a two-character table is returned unchanged; every character of the result comes from the word or from a value; when every value is non-empty, a key of one or two characters that shares no character with any value and is absent from the word stays absent; when every key of the table is such a key, the result holds none of the table's keys |
| Rewriting.ReplaceEachCons | src/main/java/com/aspectsense/greektools/Greeklish.java:276-281 | a pass over a non-empty table is its first entry's replace-all followed by the pass over the remaining entries |
| Rewriting.ReplaceDigraphs | src/main/java/com/aspectsense/greektools/Greeklish.java:275-282 | the loop over a two-character table gives the entries' replace-alls applied in table order |
| Greeklish.CheckNote1 | src/main/java/com/aspectsense/greektools/Greeklish.java:185-187 | `checkNote1(c)` holds exactly when `c` is a Greek letter that is neither a note-2 consonant nor final sigma |
| Greeklish.IsGreekWordInAllCaps | src/main/java/com/aspectsense/greektools/Greeklish.java:321-327 | true exactly when no character of the word is a lower-case Greek letter (so true for the empty word and for text without Greek) |
| Greeklish.ContainsGreek | src/main/java/com/aspectsense/greektools/Greeklish.java:423-428 | true exactly when some character of the text is a Greek letter (so false for the empty text) |
| Greeklish.InitialMp | src/main/java/com/aspectsense/greektools/Greeklish.java:232-236 | a word that starts with no spelling of μπ is unchanged; otherwise the first matching spelling, checked ΜΠ, Μπ, μπ in that order, is gone from the word and the word starts with B, B or b; when that spelling does not occur again, the result is B, B or b followed by the rest of the word, unchanged |
| Greeklish.AsWrittenChoice | src/main/java/com/aspectsense/greektools/Greeklish.java:245-246 | as written: the voiced form exactly when at least two characters follow the key and the first passes `checkNote1`; the voiceless form when exactly one character follows or the next fails `checkNote1`; a failure exactly when the key ends the word |
| Greeklish.CorrectedChoice | src/main/java/com/aspectsense/greektools/Greeklish.java:245-246 | as intended by ISO 843: never fails; voiced exactly when a character follows the key and passes `checkNote1` |
| Greeklish.ContextStep | src/main/java/com/aspectsense/greektools/Greeklish.java:244-248 | one `while (indexOf …)` loop: a word without the key is unchanged; on success the key is gone, every occurrence was replaced by one of the two forms, and no key of two Greek letters that the word lacked appears; the corrected test never fails |
| Greeklish.ContextStage | src/main/java/com/aspectsense/greektools/Greeklish.java:252-263 | the loop over a context table leaves a word holding none of its keys unchanged; on success the result holds none of the table's keys and no key of two Greek letters that the word lacked; it never fails under the corrected test |
| Greeklish.ReplacementKeepsDigraphKeysAbsent | src/main/java/com/aspectsense/greektools/Greeklish.java:247 | replacing a key by Latin text never creates a key of two Greek letters |
| Greeklish.ReplaceContextKey | src/main/java/com/aspectsense/greektools/Greeklish.java:244-248 | the `while` loop as the code runs it, reading one past the end as a failure, computes the as-written step |
| Greeklish.ReplaceContextDigraphs | src/main/java/com/aspectsense/greektools/Greeklish.java:252-263 | the loop over the keys of a context table computes the as-written stage, stopping at the first failure |
| Greeklish.TablesWellFormed | src/main/java/com/aspectsense/greektools/Greeklish.java:126-171 | the two-character tables meet the preconditions of their passes |
| Greeklish.FixedTablesAvoidDigraphKeys | src/main/java/com/aspectsense/greektools/Greeklish.java:139-171 | the values of `exceptions` and `exceptionsWithAccents` are non-empty and share no character with any key of two Greek letters, so each of their passes removes its own keys |
| Greeklish.TablesReady | src/main/java/com/aspectsense/greektools/Greeklish.java:126-171 | the four two-character tables meet the conditions under which the digraph passes leave none of their keys |
| Greeklish.PassesRemoveKeys | src/main/java/com/aspectsense/greektools/Greeklish.java:237-282 | over any tables meeting those conditions, a successful run of the digraph passes leaves no key of the plain tables and, when accents are kept, none of the accented tables |
| Greeklish.DigraphStagesRemoveKeys | src/main/java/com/aspectsense/greektools/Greeklish.java:237-282 | after a successful run of the transliterator's digraph passes no αυ/ευ key and no fixed-digraph key remains, the accented ones included when accents are kept |
| Greeklish.CharTablesValuesAvoidKeys | src/main/java/com/aspectsense/greektools/Greeklish.java:29-175 | no value of `mappingBase`, `mappingWithAccents` or `exceptionsAllCaps` holds a key of the same table |
| Greeklish.ReplaceLetters | src/main/java/com/aspectsense/greektools/Greeklish.java:284-310 | the three one-character passes, the all-caps one only for a word in capitals and the accented one only with accents, compute the letter stages |
| Greeklish.ReplaceDigraphPasses | src/main/java/com/aspectsense/greektools/Greeklish.java:237-282 | the four digraph passes, the accented ones only with accents, compute the digraph stages as written, failing exactly when a context loop fails |
| Greeklish.ToGreeklishWord | src/main/java/com/aspectsense/greektools/Greeklish.java:229-313 | `toGreeklishWord` computes the μπ rule, then the digraph stages, then the letter stages with the all-caps test on the original word |
| Greeklish.RunLength | src/main/java/com/aspectsense/greektools/Greeklish.java:212-214 | the run at the start of the text holds no space and is followed by a space or the end of the text |
| Greeklish.Tokens | src/main/java/com/aspectsense/greektools/Greeklish.java:212-214 | `StringTokenizer(text, " ")`: no token is empty or holds a space, and there are none exactly when the text is all spaces |
| Greeklish.TokensSplitAtSpace | src/main/java/com/aspectsense/greektools/Greeklish.java:212-214 | the tokens of `a + " " + b` are those of `a` followed by those of `b` |
| Greeklish.OneToken | src/main/java/com/aspectsense/greektools/Greeklish.java:212-214 | a non-empty text without spaces is a single token |
| Greeklish.Join | src/main/java/com/aspectsense/greektools/Greeklish.java:211-216 | the builder's contents succeed exactly when every word succeeds |
| Greeklish.TransliterateText | src/main/java/com/aspectsense/greektools/Greeklish.java:210-218 | an empty or all-space text becomes the empty text |
| Greeklish.TransliterateToken | src/main/java/com/aspectsense/greektools/Greeklish.java:214 | `toGreeklishWord` on the token at the current position gives that token's outcome |
| Greeklish.AppendWords | src/main/java/com/aspectsense/greektools/Greeklish.java:211-216 | the tokenizer loop leaves in the builder each word's transliteration followed by one space, or the first word's failure |
| Greeklish.ToGreeklish | src/main/java/com/aspectsense/greektools/Greeklish.java:210-218 | `toGreeklish(greek, withAccents)` is the trimmed join of the words' transliterations |
| Greeklish.ToGreeklishDefault | src/main/java/com/aspectsense/greektools/Greeklish.java:197-199 | `toGreeklish(greek)` is `toGreeklish(greek, false)` |
| LetterPasses.LatinTextUntranslated | src/main/java/com/aspectsense/greektools/Greeklish.java:286-309 | Latin text is left alone by every one-character table, so a value produced by an earlier pass is never rewritten by a later one |
| LetterPasses.LetterStagesOne | src/main/java/com/aspectsense/greektools/Greeklish.java:284-310 | on one character the letter passes give the all-caps spelling when the word is in capitals, else the accented spelling when accents are kept, else the plain spelling, else the character itself |
| LetterPasses.LetterStagesConcat | src/main/java/com/aspectsense/greektools/Greeklish.java:284-310 | the letter passes distribute over concatenation |
| LetterPasses.LetterImagesConcat | src/main/java/com/aspectsense/greektools/Greeklish.java:284-310 | the character-by-character spelling distributes over concatenation |
| LetterPasses.LetterStagesByCharacter | src/main/java/com/aspectsense/greektools/Greeklish.java:284-310 | the three letter passes amount to spelling each character on its own, whatever order the keys are taken in |
| LetterPasses.CapitalThetaChiPsi | src/main/java/com/aspectsense/greektools/Greeklish.java:284-292 | Θ, Χ and Ψ are spelt TH, CH, PS exactly when the word is in capitals, else Th, Ch, Ps |
| LetterPasses.SmallThetaChiPsi | src/main/java/com/aspectsense/greektools/Greeklish.java:50-93 | θ, χ and ψ are spelt th, ch and ps whatever the case of the word |
| LetterPasses.BaseMappingLeavesNoGreek | src/main/java/com/aspectsense/greektools/Greeklish.java:303-309 | after the `mappingBase` pass no Greek letter and no `;` remains |
| LetterPasses.OutputHasNoGreek | src/main/java/com/aspectsense/greektools/Greeklish.java:229-313 | a successful transliteration, in either mode and under either αυ/ευ test, holds no Greek letter and no `;` |
| WordProperties.PairKeyAbsent | src/main/java/com/aspectsense/greektools/Greeklish.java:244 | a two-character key that is a digraph pair does not occur in a word without digraph pairs |
| WordProperties.Notes12KeysArePairs | src/main/java/com/aspectsense/greektools/Greeklish.java:126-137 | every key of `exceptionsNotes_1_2` is a digraph pair |
| WordProperties.AccentedNotes12KeysArePairs | src/main/java/com/aspectsense/greektools/Greeklish.java:162-167 | every key of `exceptionsWithAccentsNotes_1_2` is a digraph pair |
| WordProperties.FixedKeysArePairs | src/main/java/com/aspectsense/greektools/Greeklish.java:139-171 | every key of `exceptions` and `exceptionsWithAccents` is a digraph pair |
| WordProperties.ContextStageSkips | src/main/java/com/aspectsense/greektools/Greeklish.java:252-263 | a context table whose keys are digraph pairs leaves a word without them unchanged |
| WordProperties.ReplaceEachSkips | src/main/java/com/aspectsense/greektools/Greeklish.java:275-282 | a fixed-digraph table whose keys are digraph pairs leaves a word without them unchanged |
| WordProperties.DigraphStagesSkipPlainWord | src/main/java/com/aspectsense/greektools/Greeklish.java:237-282 | a word without digraph pairs goes through every digraph pass unchanged and never fails |
| WordProperties.PlainWordByLetters | src/main/java/com/aspectsense/greektools/Greeklish.java:229-313 | a word without digraph pairs that does not start with μπ is spelt letter by letter, with the all-caps spellings exactly when it has no lower-case Greek letter |
| WordProperties.NonGreekImages | src/main/java/com/aspectsense/greektools/Greeklish.java:99 | outside the Greek letters only `;` is spelt differently, as `?` |
| WordProperties.NonGreekIsPlain | src/main/java/com/aspectsense/greektools/Greeklish.java:232-236 | a word without Greek letters holds no digraph pair and does not start with μπ |
| WordProperties.NonGreekWord | src/main/java/com/aspectsense/greektools/Greeklish.java:229-313 | a word without Greek letters comes back with each `;` turned into `?` and nothing else changed |
| WordProperties.LatinWordUnchanged | src/main/java/com/aspectsense/greektools/Greeklish.java:229-313 | a word with neither a Greek letter nor `;` comes back unchanged |
| Accents.StripAccents | src/main/java/com/aspectsense/greektools/Greeklish.java:372-379 | the result has the length of the text and holds at each position the plain form of the character there, or the character when it is not a key |
| Accents.StripWith | src/main/java/com/aspectsense/greektools/Greeklish.java:373-378 | the `StringBuilder` loop computes the character-by-character stripping |
| Accents.RemoveAccentsLowercase | src/main/java/com/aspectsense/greektools/Greeklish.java:372-379 | `removeAccentsLowercase` strips with the lower-case table |
| Accents.RemoveAccentsUppercase | src/main/java/com/aspectsense/greektools/Greeklish.java:390-397 | `removeAccentsUppercase` strips with the upper-case table |
| Accents.RemoveAccents | src/main/java/com/aspectsense/greektools/Greeklish.java:408-415 | `removeAccents` strips with the combined table |
| Accents.AccentTablesImagesAreNotKeys | src/main/java/com/aspectsense/greektools/Greeklish.java:329-361 | no plain form is itself a key of any of the three tables |
| Accents.StripAccentsIdempotent | src/main/java/com/aspectsense/greektools/Greeklish.java:372-379 | stripping twice is stripping once, for a table whose plain forms are not keys |
| Accents.RemoveAccentsIdempotent | src/main/java/com/aspectsense/greektools/Greeklish.java:372-415 | all three strippers are idempotent |
| Accents.RemoveAccentsIsBothPasses | src/main/java/com/aspectsense/greektools/Greeklish.java:357-361 | `removeAccents(s)` is `removeAccentsUppercase(removeAccentsLowercase(s))` |
| Accents.LowercaseStripKeepsCapitals | src/main/java/com/aspectsense/greektools/Greeklish.java:329-342 | the lower-case stripper leaves every upper-case letter in place, Έ included |
| Accents.UppercaseStripKeepsSmallLetters | src/main/java/com/aspectsense/greektools/Greeklish.java:344-355 | the upper-case stripper leaves every lower-case letter in place |
| Accents.LowercaseExample | src/test/java/com/aspectsense/greektools/GreeklishTest.java:138 | "Έξω" keeps its Έ and "από" becomes "απο" under the lower-case stripper |
| Accents.CombinedExample | src/test/java/com/aspectsense/greektools/GreeklishTest.java:178 | "Έξω" becomes "Εξω" and "από" becomes "απο" under the combined stripper |
| GreeklishExamples.NearchosLetters | src/main/java/com/aspectsense/greektools/Greeklish.java:64-91 | the letters of Νέαρχος are spelt "Nearchos" in a word with small letters |
| GreeklishExamples.CapitalNearchosLetters | src/main/java/com/aspectsense/greektools/Greeklish.java:173-175 | the letters of ΝΈΑΡΧΟΣ are spelt "NEARCHOS" in a word in capitals |
| GreeklishExamples.Nearchos | src/test/java/com/aspectsense/greektools/GreeklishTest.java:17-47 | "Νέαρχος" becomes "Nearchos", without accents, under either αυ/ευ test |
| GreeklishExamples.CapitalNearchos | src/test/java/com/aspectsense/greektools/GreeklishTest.java:18-48 | "ΝΈΑΡΧΟΣ" becomes "NEARCHOS", without accents, under either αυ/ευ test |
| GreeklishExamples.AvlosStep | src/main/java/com/aspectsense/greektools/Greeklish.java:257-261 | the loop for the Αυ rule of line 127 turns "Αυλός" into "Avλός" under either test: λ is a consonant of note 1 and letters follow it |
| GreeklishExamples.SecondKeyOnly | src/main/java/com/aspectsense/greektools/Greeklish.java:252-263 | when a word holds no key of the first entry and the second entry's loop leaves no digraph pair, the whole pass gives what the second loop gives |
| GreeklishExamples.AvlosLetters | src/main/java/com/aspectsense/greektools/Greeklish.java:294-309 | the letters of "Avλός" are spelt "Avlos": Latin letters stay, λ, ό and ς take their plain spellings |
| GreeklishExamples.Avlos | src/test/java/com/aspectsense/greektools/GreeklishTest.java:27-57 | "Αυλός" becomes "Avlos", without accents, under either αυ/ευ test: αυ before λ is voiced |
| GreeklishExamples.BiftekiaMp | src/main/java/com/aspectsense/greektools/Greeklish.java:232-236 | the μπ rule turns "Μπιφτέκια" into "Bιφτέκια" |
| GreeklishExamples.CapitalBiftekiaMp | src/main/java/com/aspectsense/greektools/Greeklish.java:232-236 | the μπ rule turns "ΜΠΙΦΤΈΚΙΑ" into "BΙΦΤΈΚΙΑ" |
| GreeklishExamples.BiftekiaLetters | src/main/java/com/aspectsense/greektools/Greeklish.java:303-310 | the letters of "Bιφτέκια" are spelt "Biftekia" in a word with small letters |
| GreeklishExamples.CapitalBiftekiaLetters | src/main/java/com/aspectsense/greektools/Greeklish.java:284-310 | the letters of "BΙΦΤΈΚΙΑ" are spelt "BIFTEKIA" in a word in capitals |
| GreeklishExamples.Biftekia | src/test/java/com/aspectsense/greektools/GreeklishTest.java:38-68 | "Μπιφτέκια" becomes "Biftekia", without accents, under either αυ/ευ test |
| GreeklishExamples.CapitalBiftekia | src/test/java/com/aspectsense/greektools/GreeklishTest.java:37-67 | "ΜΠΙΦΤΈΚΙΑ" becomes "BIFTEKIA", without accents, under either αυ/ευ test |
| GreeklishExamples.ReplaceEachOnlyEntry | src/main/java/com/aspectsense/greektools/Greeklish.java:275-282 | when entry `n` is the first of a fixed-digraph table whose key the word holds, and its replacement leaves none of the later keys, the pass gives what that replacement gives |
| GreeklishExamples.OuranosContext | src/main/java/com/aspectsense/greektools/Greeklish.java:252-263 | the αυ/ευ passes leave "Ουρανός" unchanged: its only digraph pair is Ου |
| GreeklishExamples.ReplacedAtStartOnly | src/main/java/com/aspectsense/greektools/Greeklish.java:280 | a key that starts the word and whose first character does not occur in the rest is replaced at the start only |
| GreeklishExamples.OuranosOu | src/main/java/com/aspectsense/greektools/Greeklish.java:280 | the entry for Ου turns "Ουρανός" into "Ouρανός" |
| GreeklishExamples.OuranosFixed | src/main/java/com/aspectsense/greektools/Greeklish.java:275-282 | the fixed-digraph pass turns "Ουρανός" into "Ouρανός": ΟΥ is absent, Ου is replaced, and no later key remains |
| GreeklishExamples.OuranosDigraphs | src/main/java/com/aspectsense/greektools/Greeklish.java:232-282 | the μπ rule and the digraph passes turn "Ουρανός", without accents, into "Ouρανός" |
| GreeklishExamples.OuranosLetters | src/main/java/com/aspectsense/greektools/Greeklish.java:303-310 | the letters of "Ouρανός" are spelt "Ouranos" |
| GreeklishExamples.Ouranos | src/test/java/com/aspectsense/greektools/GreeklishTest.java:19-49 | "Ουρανός" becomes "Ouranos", without accents, under either αυ/ευ test |
| GreeklishExamples.AccentedNearchosLetters | src/main/java/com/aspectsense/greektools/Greeklish.java:294-310 | with accents kept, the letters of Νέαρχος are spelt "Néarchos": έ takes its accented spelling é |
| GreeklishExamples.AccentedNearchos | src/test/java/com/aspectsense/greektools/GreeklishTest.java:17-77 | "Νέαρχος" becomes "Néarchos", with accents, under either αυ/ευ test |
| GreeklishExamples.TrimTrailingSpace | src/main/java/com/aspectsense/greektools/Greeklish.java:217 | trimming a text whose ends are above U+0020, with one space after it, gives the text |
| GreeklishExamples.TwoTokens | src/main/java/com/aspectsense/greektools/Greeklish.java:212-214 | two words without spaces, with one space between them, are two tokens |
| GreeklishExamples.JoinTwo | src/main/java/com/aspectsense/greektools/Greeklish.java:211-216 | two words that transliterate are joined with a space after each |
| GreeklishExamples.TwoWordText | src/main/java/com/aspectsense/greektools/Greeklish.java:210-218 | two words with one space between them become their transliterations with one space between them, when neither fails |
| GreeklishExamples.NearchosAvlos | src/main/java/com/aspectsense/greektools/Greeklish.java:210-218 | the text "Νέαρχος Αυλός" becomes "Nearchos Avlos" under either αυ/ευ test |
| GreeklishExamples.ToGreeklishTwoWords | src/main/java/com/aspectsense/greektools/Greeklish.java:210-218 | `toGreeklish("Νέαρχος Αυλός", false)` gives "Nearchos Avlos" |
| ContextFindings.ContextStageSkipsAbsent | src/main/java/com/aspectsense/greektools/Greeklish.java:254-263 | keys the word does not hold are skipped by the loop over a context table |
| ContextFindings.FirstKeyFound | src/main/java/com/aspectsense/greektools/Greeklish.java:254-263 | at the first key the word holds, the stage is that key's loop followed by the rest of the table, or that loop's failure |
| ContextFindings.OnlyKeyFound | src/main/java/com/aspectsense/greektools/Greeklish.java:254-263 | when one key alone is found and its loop leaves none of the later keys, the stage gives what that loop gives |
| ContextFindings.AuStep | src/main/java/com/aspectsense/greektools/Greeklish.java:258-261 | on "Αυ" the loop for Αυ fails with a read at index 2 as written, and gives "Af" as intended |
| ContextFindings.EuStep | src/main/java/com/aspectsense/greektools/Greeklish.java:258-261 | on "Εύα" the loop for Εύ gives Ef followed by α as written, and Ev followed by α as intended |
| ContextFindings.KeyEndingWordFails | src/main/java/com/aspectsense/greektools/Greeklish.java:259-260 | as written, `toGreeklishWord("Αυ")`, with or without accents, fails reading index 2 |
| ContextFindings.KeyEndingWordCorrected | src/main/java/com/aspectsense/greektools/Greeklish.java:259-260 | as intended, "Αυ" becomes "Af", with or without accents |
| ContextFindings.OneLetterAfterKeyAsWritten | src/main/java/com/aspectsense/greektools/Greeklish.java:259-260 | as written, "Εύα" without accents becomes "Efa" |
| ContextFindings.OneLetterAfterKeyCorrected | src/main/java/com/aspectsense/greektools/Greeklish.java:259-260 | as intended, "Εύα" without accents becomes "Eva" |

## Left out

- The order of `HashMap.keySet()` is fixed for the two-character tables: the entries are taken
  in the order of their `put` calls. For the one-character tables the order is left open:
  `ReplaceCharKeys` is proved for any order the set hands out. The two-character tables are
  order-sensitive on two kinds of input, and no lemma states an output for them:
  - a context key directly followed by another key of the same table, as in ευαυ or αύαυ: the
    first key's form depends on whether the second has already become Latin;
  - two fixed-digraph keys that overlap, as in γγκ, Γγγ or ΓΓΚ.
- `replaceAll` and `replace` are modelled as literal, non-overlapping, left-to-right
  replacement. No key holds a regular-expression metacharacter and no value holds `$` or `\`,
  so the regex machinery is not part of this model.
- A `char` here is a Unicode scalar value, while a Java `String` is a sequence of UTF-16 units.
  Every character of the tables lies in the Basic Multilingual Plane, where the two agree. A
  character outside it is one `char` here and two units in Java. That changes only the index
  carried by `CharAtOutOfRange`, not any transliterated text. There is no Unicode
  normalisation: values such as "Ī́" (line 106) are plain character sequences.
- Static initialisation and thread safety are not modelled: the tables are constants. The
  `assert … != null` lines hold for every key and are not modelled.
- The test sentence "Αυτή είναι μια δοκιμαστική πρόταση. Είναι καλή;" (GreeklishTest.java
  line 43) is not worked through. The words Νέαρχος (with and without accents), ΝΈΑΡΧΟΣ,
  Ουρανός, Αυλός, Μπιφτέκια and ΜΠΙΦΤΈΚΙΑ are, and so is the two-word text "Νέαρχος Αυλός".
  The other test words are not.
- Greeklish.InitialMp: its contract gives the whole result only when the matched spelling
  of μπ does not occur again. For a word with a second occurrence it states that the
  spelling is gone and the word starts with B or b. It does not state that the other two
  spellings are left in place.
- Greeklish.Join, Greeklish.TransliterateText: their own contracts cover only failure and
  the empty text. The full text is stated by `AppendWords` and `ToGreeklish`, which tie the
  code to these functions.

## Findings

| source | as written | input that shows it | evidently intended | confidence | as-written member | corrected member |
|---|---|---|---|---|---|---|
| src/main/java/com/aspectsense/greektools/Greeklish.java:245-246 | `endOfWord` (here and again at lines 259-260) is `index == length - key.length - 1`. That holds when exactly ONE character follows the key, and then the voiceless form is chosen without looking at that character. When the key really ends the word, `endOfWord` is false and `charAt(index + key.length)` reads past the end and throws. | "Αυ" throws `StringIndexOutOfBoundsException` (index 2). "Εύα" becomes "Efa", although α is a vowel and calls for "Eva". | `endOfWord` is `index + key.length == length`: voiceless at the end of the word, otherwise voiced exactly when the next character passes `checkNote1` (ISO 843 notes 1 and 2). | high (not executed) | ContextFindings.KeyEndingWordFails, ContextFindings.OneLetterAfterKeyAsWritten | ContextFindings.KeyEndingWordCorrected, ContextFindings.OneLetterAfterKeyCorrected |

The corrected rule is `ChosenForm` under `Corrected`. `Greeklish.CorrectedChoice` proves it
never fails and states when it gives the voiced form. `Greeklish.ContextStep` and
`Greeklish.ContextStage` prove that under it the loops never fail.
