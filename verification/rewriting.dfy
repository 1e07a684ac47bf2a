/** The two kinds of table pass the transliterator makes over a word: a replace-all per key of
    a one-character table, and a replace-all per entry of a two-character table. */
module Rewriting {
  import opened Text

  // ---------------------------------------------------------------- one-character tables

  /** The key set `table.keySet()` of a one-character table given by its `get`. */
  function KeySet(table: char -> Option<string>): (keys: set<char>)
    ensures forall c :: c in keys <==> table(c).Some?
  {
    set c: char | table(c).Some?
  }

  /** No value of the table contains a key of the table. */
  predicate ValuesAvoidKeys(table: char -> Option<string>) {
    forall c, d :: table(c).Some? && d in table(c).value ==> table(d).None?
  }

  /** What a character of the original text becomes once the keys in `done` have been
      replaced: the value of its key, or the character itself. */
  function Image(table: char -> Option<string>, done: set<char>, c: char): string {
    if c in done && table(c).Some? then table(c).value else [c]
  }

  /** The text after the keys in `done` have each been replaced everywhere, in whatever
      order: every character is replaced by its image. */
  function TranslateKeys(s: string, table: char -> Option<string>, done: set<char>): (r: string)
    ensures forall c :: c in r ==>
              (c in s && (c !in done || table(c).None?))
              || exists k :: k in done && table(k).Some? && c in table(k).value
    ensures done == {} ==> r == s
    decreases |s|
  {
    if s == [] then []
    else
      assert forall c :: c in s[1..] ==> c in s;
      Image(table, done, s[0]) + TranslateKeys(s[1..], table, done)
  }

  /** The text after every key of the table has been replaced. */
  function Translate(s: string, table: char -> Option<string>): string {
    TranslateKeys(s, table, KeySet(table))
  }

  /** Translation works character by character, so it distributes over concatenation. */
  lemma {:induction false} TranslateConcat(a: string, b: string, table: char -> Option<string>, done: set<char>)
    ensures TranslateKeys(a + b, table, done) == TranslateKeys(a, table, done) + TranslateKeys(b, table, done)
    decreases |a|
  {
    if a == [] {
      assert a + b == b;
    } else {
      assert (a + b)[1..] == a[1..] + b;
      TranslateConcat(a[1..], b, table, done);
    }
  }

  /** Text holding no key of the table is left as it is. */
  lemma {:induction false} TranslateNoKeys(s: string, table: char -> Option<string>, done: set<char>)
    requires forall c :: c in s ==> table(c).None?
    ensures TranslateKeys(s, table, done) == s
    decreases |s|
  {
    if s != [] {
      assert forall c :: c in s[1..] ==> c in s;
      TranslateNoKeys(s[1..], table, done);
    }
  }

  /** Replacing key `k` in the image of one character gives its image once `k` is done too. */
  lemma ImageOneMoreKey(table: char -> Option<string>, done: set<char>, k: char, c: char)
    requires ValuesAvoidKeys(table) && table(k).Some? && k !in done
    ensures ReplaceAll(Image(table, done, c), [k], table(k).value) == Image(table, done + {k}, c)
  {
    var v := table(k).value;
    var img := Image(table, done, c);
    if c in done && table(c).Some? {
      assert !Occurs(img, [k]) by {
        forall i: nat | i <= |img| ensures !OccursAt(img, [k], i) {
          if i < |img| {
            assert img[i] in img;
          }
        }
      }
    } else if c == k {
      assert img == [k] && img[1..] == [];
      ReplaceAllAtKey(img, [k], v);
    } else {
      assert img == [c] && img[..1][0] == c && img[1..] == [];
      ReplaceAllKeepsFirst(img, [k], v);
    }
  }

  /** Replacing one more key everywhere takes the text from the images under `done` to the
      images under `done + {k}`, because no value already produced contains `k`. This is why
      the order in which a `HashMap` hands out its keys does not matter. */
  lemma {:induction false} TranslateOneMoreKey(s: string, table: char -> Option<string>, done: set<char>, k: char)
    requires ValuesAvoidKeys(table) && table(k).Some? && k !in done
    ensures ReplaceAll(TranslateKeys(s, table, done), [k], table(k).value)
            == TranslateKeys(s, table, done + {k})
    decreases |s|
  {
    if s != [] {
      TranslateOneMoreKey(s[1..], table, done, k);
      ImageOneMoreKey(table, done, k, s[0]);
      ReplaceAllConcat(Image(table, done, s[0]), TranslateKeys(s[1..], table, done), k, table(k).value);
    }
  }

  /** One turn of the loop below: replacing a key not yet done moves it to the done keys. */
  lemma NextKeyDone(word: string, table: char -> Option<string>, keys: set<char>, remaining: set<char>, key: char)
    requires ValuesAvoidKeys(table) && keys == KeySet(table) && remaining <= keys && key in remaining
    ensures ReplaceAll(TranslateKeys(word, table, keys - remaining), [key], table(key).value)
            == TranslateKeys(word, table, keys - (remaining - {key}))
  {
    TranslateOneMoreKey(word, table, keys - remaining, key);
    assert keys - remaining + {key} == keys - (remaining - {key});
  }

  /** `for (key : table.keySet()) word = word.replaceAll(key, table.get(key));` The keys are
      taken in an unspecified order; the result is the character-by-character translation
      whatever that order is. */
  method ReplaceCharKeys(word: string, table: char -> Option<string>) returns (r: string)
    requires ValuesAvoidKeys(table)
    ensures r == Translate(word, table)
  {
    var keys := KeySet(table);
    var remaining := keys;
    r := word;
    while remaining != {}
      invariant remaining <= keys
      invariant r == TranslateKeys(word, table, keys - remaining)
      decreases |remaining|
    {
      var key :| key in remaining;
      NextKeyDone(word, table, keys, remaining, key);
      r := ReplaceAll(r, [key], table(key).value);
      remaining := remaining - {key};
    }
    assert keys - remaining == keys;
  }

  // ---------------------------------------------------------------- two-character tables

  /** Every key of a two-character table is non-empty. */
  predicate NonEmptyKeys(table: seq<(string, string)>) {
    forall i :: 0 <= i < |table| ==> table[i].0 != []
  }

  /** No value of the table shares a character with `k`. */
  predicate ValuesAvoid(table: seq<(string, string)>, k: string) {
    forall i, c :: 0 <= i < |table| && c in table[i].1 ==> c !in k
  }

  /** Every value of the table is non-empty. */
  predicate NonEmptyValues(table: seq<(string, string)>) {
    forall i :: 0 <= i < |table| ==> table[i].1 != []
  }

  /** Every key has one or two characters, and no value shares a character with any key. */
  predicate RemovableKeys(table: seq<(string, string)>) {
    && NonEmptyValues(table)
    && forall i :: 0 <= i < |table| ==> |table[i].0| <= 2 && ValuesAvoid(table, table[i].0)
  }

  /** The word after `word = word.replaceAll(key, value)` for each entry of `table`, in order.
      When no value shares a character with a key, a key absent from the word stays absent,
      and every key of the table is gone from the result. */
  function ReplaceEach(word: string, table: seq<(string, string)>): (r: string)
    requires NonEmptyKeys(table)
    ensures (forall i :: 0 <= i < |table| ==> !Occurs(word, table[i].0)) ==> r == word
    ensures forall c :: c in r ==> c in word || exists i :: 0 <= i < |table| && c in table[i].1
    ensures NonEmptyValues(table) ==>
              forall k :: 1 <= |k| <= 2 && ValuesAvoid(table, k) && !Occurs(word, k) ==> !Occurs(r, k)
    ensures RemovableKeys(table) ==> forall i :: 0 <= i < |table| ==> !Occurs(r, table[i].0)
    decreases |table|
  {
    if table == [] then word
    else
      var next := ReplaceAll(word, table[0].0, table[0].1);
      var r := ReplaceEach(next, table[1..]);
      assert forall i :: 1 <= i < |table| ==> table[1..][i - 1] == table[i];
      assert forall c :: c in r ==> c in next || exists i :: 1 <= i < |table| && c in table[i].1;
      ReplaceEachStep(word, table, next, r);
      r
  }

  /** The absence facts of one entry followed by the rest of the table. */
  lemma ReplaceEachStep(word: string, table: seq<(string, string)>, next: string, r: string)
    requires NonEmptyKeys(table) && table != []
    requires next == ReplaceAll(word, table[0].0, table[0].1)
    requires NonEmptyValues(table[1..]) ==>
               forall k :: 1 <= |k| <= 2 && ValuesAvoid(table[1..], k) && !Occurs(next, k) ==> !Occurs(r, k)
    requires RemovableKeys(table[1..]) ==> forall i :: 0 <= i < |table[1..]| ==> !Occurs(r, table[1..][i].0)
    ensures NonEmptyValues(table) ==>
              forall k :: 1 <= |k| <= 2 && ValuesAvoid(table, k) && !Occurs(word, k) ==> !Occurs(r, k)
    ensures RemovableKeys(table) ==> forall i :: 0 <= i < |table| ==> !Occurs(r, table[i].0)
  {
    assert forall i :: 1 <= i < |table| ==> table[1..][i - 1] == table[i];
    if NonEmptyValues(table) {
      assert NonEmptyValues(table[1..]);
      forall k | 1 <= |k| <= 2 && ValuesAvoid(table, k) && !Occurs(word, k) ensures !Occurs(r, k) {
        assert ValuesAvoid(table[1..], k);
        ReplaceAllKeepsAbsent(word, table[0].0, table[0].1, k);
      }
    }
    if RemovableKeys(table) {
      assert RemovableKeys(table[1..]);
      ReplaceAllRemovesKey(word, table[0].0, table[0].1);
      forall i | 0 <= i < |table| ensures !Occurs(r, table[i].0) {
        if i > 0 {
          assert table[1..][i - 1] == table[i];
        }
      }
    }
  }

  /** A pass over a non-empty table is its first entry's replacement followed by the pass
      over the rest. */
  lemma ReplaceEachCons(word: string, table: seq<(string, string)>)
    requires NonEmptyKeys(table) && table != []
    ensures NonEmptyKeys(table[1..])
    ensures ReplaceEach(word, table) == ReplaceEach(ReplaceAll(word, table[0].0, table[0].1), table[1..])
  {
    assert forall i :: 0 <= i < |table[1..]| ==> table[1..][i] == table[i + 1];
  }

  /** The loop over the entries of a two-character table. */
  method ReplaceDigraphs(word: string, table: seq<(string, string)>) returns (r: string)
    requires NonEmptyKeys(table)
    ensures r == ReplaceEach(word, table)
  {
    r := word;
    assert table[0..] == table;
    for j := 0 to |table|
      invariant NonEmptyKeys(table[j..])
      invariant ReplaceEach(r, table[j..]) == ReplaceEach(word, table)
    {
      ReplaceEachCons(r, table[j..]);
      assert table[j..][1..] == table[j + 1..];
      r := ReplaceAll(r, table[j].0, table[j].1);
    }
    assert table[|table|..] == [];
  }
}
