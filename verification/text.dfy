/** Literal string operations: the parts of java.lang.String that the transliterator relies on
    (indexOf, startsWith, replace/replaceAll with a literal pattern, trim), over `seq<char>`. */
module Text {

  datatype Option<T> = None | Some(value: T)

  /** The key `k` occurs in `s` starting at position `i`. */
  predicate OccursAt(s: string, k: string, i: nat) {
    i + |k| <= |s| && s[i..i + |k|] == k
  }

  /** `k` occurs somewhere in `s`. */
  predicate Occurs(s: string, k: string) {
    exists i: nat :: i <= |s| && OccursAt(s, k, i)
  }

  /** `s.startsWith(k)` */
  predicate StartsWith(s: string, k: string) {
    OccursAt(s, k, 0)
  }

  /** `s.indexOf(k, from)`: the first occurrence of `k` at or after `from`, if any. */
  function IndexOfFrom(s: string, k: string, from: nat): (r: Option<nat>)
    decreases |s| - from
    ensures r.Some? ==> from <= r.value && OccursAt(s, k, r.value)
    ensures r.Some? ==> forall j: nat :: from <= j < r.value ==> !OccursAt(s, k, j)
    ensures r.None? ==> forall j: nat :: from <= j ==> !OccursAt(s, k, j)
  {
    if from + |k| > |s| then None
    else if s[from..from + |k|] == k then Some(from)
    else IndexOfFrom(s, k, from + 1)
  }

  /** `s.indexOf(k)`: the first occurrence of `k` in `s`, if any. */
  function IndexOf(s: string, k: string): (r: Option<nat>)
    ensures r.Some? ==> OccursAt(s, k, r.value) && forall j: nat :: j < r.value ==> !OccursAt(s, k, j)
    ensures r.None? <==> !Occurs(s, k)
  {
    IndexOfFrom(s, k, 0)
  }

  /** `s.replace(k, v)`: every non-overlapping occurrence of `k`, scanned left to right,
      is replaced by `v`. */
  function ReplaceAll(s: string, k: string, v: string): (r: string)
    requires k != []
    decreases |s|
    ensures !Occurs(s, k) ==> r == s
    ensures StartsWith(s, k) ==> StartsWith(r, v)
    ensures s != [] && !StartsWith(s, k) ==> r != [] && r[0] == s[0]
    ensures forall c :: c in r ==> c in s || c in v
  {
    if |s| < |k| then s
    else if s[..|k|] == k then
      assert OccursAt(s, k, 0);
      v + ReplaceAll(s[|k|..], k, v)
    else
      assert forall i: nat :: OccursAt(s[1..], k, i) ==> OccursAt(s, k, i + 1);
      [s[0]] + ReplaceAll(s[1..], k, v)
  }

  /** The first character of a replacement: either the replacement's first character,
      when `s` starts with the key, or the first character of `s`. */
  lemma ReplaceAllHead(s: string, k: string, v: string)
    requires k != [] && v != [] && s != []
    ensures ReplaceAll(s, k, v) != []
    ensures ReplaceAll(s, k, v)[0] == if StartsWith(s, k) then v[0] else s[0]
  {
  }

  /** An occurrence at the start of the text becomes the value, and the rest of the text is
      replaced after it. */
  lemma ReplaceAllAtKey(s: string, k: string, v: string)
    requires k != [] && StartsWith(s, k)
    ensures ReplaceAll(s, k, v) == v + ReplaceAll(s[|k|..], k, v)
  {
  }

  /** A first character at which no occurrence starts is kept. */
  lemma ReplaceAllKeepsFirst(s: string, k: string, v: string)
    requires k != [] && s != [] && !StartsWith(s, k)
    ensures ReplaceAll(s, k, v) == [s[0]] + ReplaceAll(s[1..], k, v)
  {
    if |s| < |k| {
      assert [s[0]] + s[1..] == s;
    }
  }

  /** A prefix in which no occurrence of the key starts is kept as it is: only the text from
      the first occurrence on is rewritten. */
  lemma {:induction false} ReplaceAllKeepsPrefix(x: string, y: string, k: string, v: string)
    requires k != []
    requires forall i: nat :: i < |x| ==> !OccursAt(x + y, k, i)
    ensures ReplaceAll(x + y, k, v) == x + ReplaceAll(y, k, v)
    decreases |x|
  {
    if x == [] {
      assert x + y == y;
    } else {
      var t := x[1..] + y;
      assert x + y == [x[0]] + t;
      forall i: nat | i < |x[1..]| ensures !OccursAt(t, k, i) {
        OccursInSuffix([x[0]], t, k, i + 1);
      }
      ReplaceAllKeepsPrefix(x[1..], y, k, v);
      ReplaceAllKeepsFirst(x + y, k, v);
      assert (x + y)[1..] == t;
      var r := ReplaceAll(y, k, v);
      assert [x[0]] + x[1..] == x;
      SeqAssoc([x[0]], x[1..], r);
    }
  }

  lemma SeqAssoc(a: string, b: string, c: string)
    ensures a + (b + c) == (a + b) + c
  {
  }

  /** A key absent from a text is absent from every suffix of it. */
  lemma AbsentFromSuffix(s: string, n: nat, k: string)
    requires n <= |s| && !Occurs(s, k)
    ensures !Occurs(s[n..], k)
  {
    forall i: nat | i <= |s[n..]| ensures !OccursAt(s[n..], k, i) {
      assert !OccursAt(s, k, n + i);
      if i + |k| <= |s[n..]| {
        assert s[n..][i..i + |k|] == s[n + i..n + i + |k|];
      }
    }
  }

  /** Occurrences that lie wholly in the right operand of a concatenation. */
  lemma OccursInSuffix(x: string, y: string, k: string, i: nat)
    requires |x| <= i
    ensures OccursAt(x + y, k, i) <==> OccursAt(y, k, i - |x|)
  {
    if i + |k| <= |x + y| {
      assert (x + y)[i..i + |k|] == y[i - |x|..i - |x| + |k|];
    }
  }

  /** Replacing a key of at most two characters by a value that shares no character with
      the key leaves no occurrence of the key behind. This is why each `while (indexOf …)`
      loop of the transliterator runs its body at most once. */
  lemma {:induction false} ReplaceAllRemovesKey(s: string, k: string, v: string)
    requires 1 <= |k| <= 2 && v != []
    requires forall c :: c in v ==> c !in k
    ensures !Occurs(ReplaceAll(s, k, v), k)
    decreases |s|
  {
    if |s| < |k| {
    } else if s[..|k|] == k {
      ReplaceAllRemovesKey(s[|k|..], k, v);
      RemovesKeyAfterValue(v, ReplaceAll(s[|k|..], k, v), k);
    } else {
      ReplaceAllRemovesKey(s[1..], k, v);
      assert s[..|k|] == s[0..|k|];
      RemovesKeyAfterKept(s, k, v, k);
    }
  }

  /** Replacing any key by a value that shares no character with a key `k` of at most two
      characters does not create an occurrence of `k`: a key absent before is absent after. */
  lemma {:induction false} ReplaceAllKeepsAbsent(s: string, key: string, v: string, k: string)
    requires key != [] && 1 <= |k| <= 2 && v != []
    requires forall c :: c in v ==> c !in k
    requires !Occurs(s, k)
    ensures !Occurs(ReplaceAll(s, key, v), k)
    decreases |s|
  {
    if |s| < |key| {
    } else if s[..|key|] == key {
      AbsentFromSuffix(s, |key|, k);
      ReplaceAllKeepsAbsent(s[|key|..], key, v, k);
      RemovesKeyAfterValue(v, ReplaceAll(s[|key|..], key, v), k);
    } else {
      AbsentFromSuffix(s, 1, k);
      ReplaceAllKeepsAbsent(s[1..], key, v, k);
      assert !OccursAt(s, k, 0);
      RemovesKeyAfterKept(s, key, v, k);
    }
  }

  lemma RemovesKeyAfterValue(v: string, rest: string, k: string)
    requires k != [] && !Occurs(rest, k)
    requires forall c :: c in v ==> c !in k
    ensures !Occurs(v + rest, k)
  {
    forall i: nat ensures !OccursAt(v + rest, k, i) {
      if i < |v| {
        assert v[i] in v && k[0] in k;
        assert (v + rest)[i] == v[i] != k[0];
      } else {
        OccursInSuffix(v, rest, k, i);
        assert OccursAt(rest, k, i - |v|) ==> i - |v| <= |rest|;
      }
    }
  }

  lemma RemovesKeyAfterKept(s: string, key: string, v: string, k: string)
    requires key != [] && 1 <= |k| <= 2 && v != [] && s != [] && !OccursAt(s, k, 0)
    requires forall c :: c in v ==> c !in k
    requires !Occurs(ReplaceAll(s[1..], key, v), k)
    ensures !Occurs([s[0]] + ReplaceAll(s[1..], key, v), k)
  {
    var rest := ReplaceAll(s[1..], key, v);
    forall i: nat ensures !OccursAt([s[0]] + rest, k, i) {
      if i == 0 {
        if |k| == 1 {
          assert ([s[0]] + rest)[..1] == [s[0]] == s[..1];
        } else if s[1..] != [] {
          ReplaceAllHead(s[1..], key, v);
          if StartsWith(s[1..], key) {
            assert v[0] in v && k[1] in k;
            assert ([s[0]] + rest)[..2] == [s[0], v[0]] != k;
          } else {
            assert ([s[0]] + rest)[..2] == [s[0], s[1]] == s[..2];
          }
        }
      } else {
        OccursInSuffix([s[0]], rest, k, i);
        assert OccursAt(rest, k, i - 1) ==> i - 1 <= |rest|;
      }
    }
  }

  /** For a one-character key, replacement distributes over concatenation. */
  lemma {:induction false} ReplaceAllConcat(a: string, b: string, c: char, v: string)
    ensures ReplaceAll(a + b, [c], v) == ReplaceAll(a, [c], v) + ReplaceAll(b, [c], v)
    decreases |a|
  {
    if a == [] {
      assert a + b == b;
    } else {
      assert (a + b)[1..] == a[1..] + b;
      assert (a + b)[..1] == a[..1];
      ReplaceAllConcat(a[1..], b, c, v);
    }
  }

  /** A one-character key is gone after its replacement, unless the value itself holds it. */
  lemma {:induction false} ReplaceAllOneChar(s: string, c: char, v: string)
    ensures forall x :: x in ReplaceAll(s, [c], v) ==> (x in s && x != c) || x in v
    decreases |s|
  {
    if s != [] {
      ReplaceAllOneChar(s[1..], c, v);
      assert s[..1] == [s[0]];
      assert forall x :: x in s[1..] ==> x in s;
    }
  }

  /** Index of the first character above U+0020, or `|s|` when there is none. */
  function TrimStartIndex(s: string): (i: nat)
    decreases |s|
    ensures i <= |s| && (i < |s| ==> s[i] > ' ')
    ensures forall p :: 0 <= p < i ==> s[p] <= ' '
  {
    if s != [] && s[0] <= ' ' then 1 + TrimStartIndex(s[1..]) else 0
  }

  /** One past the last character above U+0020 in `s[from..]`, or `from` when there is none. */
  function TrimEndIndex(s: string, from: nat): (j: nat)
    requires from <= |s|
    decreases |s|
    ensures from <= j <= |s| && (from < j ==> s[j - 1] > ' ')
    ensures forall p :: j <= p < |s| ==> s[p] <= ' '
  {
    if from < |s| && s[|s| - 1] <= ' ' then TrimEndIndex(s[..|s| - 1], from) else |s|
  }

  /** `s.trim()`: drops every character at or below U+0020 from both ends. */
  function Trim(s: string): (r: string)
    ensures var i := TrimStartIndex(s);
            && i + |r| <= |s| && r == s[i..i + |r|]
            && (forall p :: i + |r| <= p < |s| ==> s[p] <= ' ')
    ensures r != [] ==> r[0] > ' ' && r[|r| - 1] > ' '
  {
    var i := TrimStartIndex(s);
    s[i..TrimEndIndex(s, i)]
  }
}
