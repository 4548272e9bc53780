/**
 * The order the newer walk handler lists a directory in: sort.SliceStable
 * over the entries, comparing strings.ToUpper of their names with Go's
 * string <. Go compares strings byte by byte; for UTF-8 that is the order of
 * code points, which is how `char`s compare here.
 */
module GoSort {

  /** strings.ToUpper on one character, for ASCII letters. */
  function UpperChar(c: char): char
  {
    if 'a' <= c <= 'z' then (c as int - 32) as char else c
  }

  /** strings.ToUpper, for ASCII letters; every other character is kept. */
  function ToUpper(s: string): string
  {
    if s == [] then [] else [UpperChar(s[0])] + ToUpper(s[1..])
  }

  /** Go's a < b on strings: lexicographic, a proper prefix coming first. */
  predicate Less(a: string, b: string)
  {
    if a == [] then b != []
    else if b == [] then false
    else if a[0] != b[0] then a[0] < b[0]
    else Less(a[1..], b[1..])
  }

  lemma {:induction false} LessIrreflexive(a: string)
    ensures !Less(a, a)
  {
    if a != [] {
      LessIrreflexive(a[1..]);
    }
  }

  lemma {:induction false} LessAsymmetric(a: string, b: string)
    requires Less(a, b)
    ensures !Less(b, a)
  {
    if a != [] && b != [] && a[0] == b[0] {
      LessAsymmetric(a[1..], b[1..]);
    }
  }

  lemma {:induction false} LessTransitive(a: string, b: string, c: string)
    requires Less(a, b) && Less(b, c)
    ensures Less(a, c)
  {
    if a != [] && a[0] == b[0] && b[0] == c[0] {
      LessTransitive(a[1..], b[1..], c[1..]);
    }
  }

  /** Any two different strings are ordered one way or the other. */
  lemma {:induction false} LessTotal(a: string, b: string)
    requires a != b
    ensures Less(a, b) || Less(b, a)
  {
    if a != [] && b != [] && a[0] == b[0] {
      assert a == [a[0]] + a[1..] && b == [b[0]] + b[1..];
      LessTotal(a[1..], b[1..]);
    }
  }

  /** Not-greater is transitive: the order is total, so !Less(b, a) means a <= b. */
  lemma NotLessTransitive(a: string, b: string, c: string)
    requires !Less(b, a) && !Less(c, b)
    ensures !Less(c, a)
  {
    if Less(c, a) {
      if a == b {
      } else if b == c {
      } else {
        LessTotal(a, b);
        LessTotal(b, c);
        LessTransitive(a, b, c);
        LessAsymmetric(a, c);
      }
    }
  }

  /** No element's key is less than the key of an element before it. */
  predicate Sorted<T>(s: seq<T>, key: T -> string)
  {
    forall i, j :: 0 <= i < j < |s| ==> !Less(key(s[j]), key(s[i]))
  }

  /** The elements of s whose key is k, in their order in s. */
  function KeyFilter<T>(s: seq<T>, key: T -> string, k: string): seq<T>
  {
    if s == [] then []
    else KeyFilter(s[..|s| - 1], key, k) + (if key(s[|s| - 1]) == k then [s[|s| - 1]] else [])
  }

  /** Places x after every element at the end of s whose key is not greater than x's. */
  function Insert<T>(s: seq<T>, x: T, key: T -> string): seq<T>
  {
    if s == [] || !Less(key(x), key(s[|s| - 1])) then s + [x]
    else Insert(s[..|s| - 1], x, key) + [s[|s| - 1]]
  }

  /** What sort.SliceStable leaves: every element inserted in turn, in input order. */
  function SortStable<T>(s: seq<T>, key: T -> string): seq<T>
  {
    if s == [] then [] else Insert(SortStable(s[..|s| - 1], key), s[|s| - 1], key)
  }

  lemma {:induction false} InsertMultiset<T>(s: seq<T>, x: T, key: T -> string)
    ensures multiset(Insert(s, x, key)) == multiset(s) + multiset{x}
  {
    if s != [] && Less(key(x), key(s[|s| - 1])) {
      InsertMultiset(s[..|s| - 1], x, key);
      assert s == s[..|s| - 1] + [s[|s| - 1]];
    }
  }

  lemma {:induction false} InsertSorted<T>(s: seq<T>, x: T, key: T -> string)
    requires Sorted(s, key)
    ensures Sorted(Insert(s, x, key), key)
  {
    if s == [] {
    } else if !Less(key(x), key(s[|s| - 1])) {
      var r := s + [x];
      forall i, j | 0 <= i < j < |r|
        ensures !Less(key(r[j]), key(r[i]))
      {
        if j == |s| && i < |s| - 1 {
          NotLessTransitive(key(s[i]), key(s[|s| - 1]), key(x));
        }
      }
    } else {
      var init := s[..|s| - 1];
      var last := s[|s| - 1];
      InsertSorted(init, x, key);
      var ins := Insert(init, x, key);
      InsertMultiset(init, x, key);
      var r := ins + [last];
      forall i, j | 0 <= i < j < |r|
        ensures !Less(key(r[j]), key(r[i]))
      {
        if j == |ins| {
          assert r[i] in multiset(ins);
          if r[i] == x {
            LessAsymmetric(key(x), key(last));
          } else {
            assert r[i] in multiset(init);
            var k :| 0 <= k < |init| && init[k] == r[i];
            assert s[k] == r[i];
          }
        }
      }
    }
  }

  lemma {:induction false} InsertKeyFilter<T>(s: seq<T>, x: T, key: T -> string, k: string)
    ensures KeyFilter(Insert(s, x, key), key, k) == KeyFilter(s, key, k) + (if key(x) == k then [x] else [])
  {
    if s == [] {
      assert KeyFilter(s + [x], key, k) == KeyFilter(s, key, k) + (if key(x) == k then [x] else []) by {
        assert (s + [x])[..|s + [x]| - 1] == s;
      }
    } else if !Less(key(x), key(s[|s| - 1])) {
      assert (s + [x])[..|s + [x]| - 1] == s;
    } else {
      var init := s[..|s| - 1];
      var last := s[|s| - 1];
      InsertKeyFilter(init, x, key, k);
      var ins := Insert(init, x, key);
      assert (ins + [last])[..|ins + [last]| - 1] == ins;
      if key(last) == k {
        LessIrreflexive(k);
      }
    }
  }

  /**
   * The stable sort is a stable sort: its result is ordered by key, holds
   * the same elements, and keeps the input order among elements with equal keys.
   */
  lemma {:induction false} SortStableCorrect<T>(s: seq<T>, key: T -> string)
    ensures Sorted(SortStable(s, key), key)
    ensures multiset(SortStable(s, key)) == multiset(s)
    ensures forall k :: KeyFilter(SortStable(s, key), key, k) == KeyFilter(s, key, k)
  {
    if s != [] {
      var init := s[..|s| - 1];
      var last := s[|s| - 1];
      SortStableCorrect(init, key);
      InsertSorted(SortStable(init, key), last, key);
      InsertMultiset(SortStable(init, key), last, key);
      assert s == init + [last];
      forall k
        ensures KeyFilter(SortStable(s, key), key, k) == KeyFilter(s, key, k)
      {
        InsertKeyFilter(SortStable(init, key), last, key, k);
      }
    }
  }

  /**
   * sort.SliceStable(a, less) with less(i, j) = Less(key(a[i]), key(a[j])),
   * by the insertion sort Go uses on short slices: each element in turn is
   * swapped down while it is less than the one before it.
   */
  method SliceStable<T>(a: array<T>, key: T -> string)
    modifies a
    ensures a[..] == SortStable(old(a[..]), key)
  {
    var i := 0;
    while i < a.Length
      invariant 0 <= i <= a.Length
      invariant a[..i] == SortStable(old(a[..])[..i], key)
      invariant a[i..] == old(a[..])[i..]
    {
      SwapDown(a, i, key);
      assert old(a[..])[..i + 1][..i] == old(a[..])[..i];
      i := i + 1;
    }
    assert old(a[..])[..a.Length] == old(a[..]);
  }

  /** One pass of the insertion sort: a[i] is swapped down into the prefix a[..i]. */
  method SwapDown<T>(a: array<T>, i: int, key: T -> string)
    requires 0 <= i < a.Length
    modifies a
    ensures a[..i + 1] == Insert(old(a[..i]), old(a[i]), key)
    ensures a[i + 1..] == old(a[i + 1..])
  {
    ghost var sorted := a[..i];
    ghost var x := a[i];
    var j := Sink(a, i, key);
    assert a[..i + 1] == sorted[..j] + [x] + sorted[j..];
  }

  /**
   * The swaps of one pass: a[i] moves down to position j while it is less
   * than the element before it, and the elements it passes move up by one.
   */
  method Sink<T>(a: array<T>, i: int, key: T -> string) returns (j: int)
    requires 0 <= i < a.Length
    modifies a
    ensures 0 <= j <= i && a[j] == old(a[i])
    ensures forall k :: 0 <= k < j ==> a[k] == old(a[k])
    ensures forall k :: j < k <= i ==> a[k] == old(a[k - 1])
    ensures forall k :: i < k < a.Length ==> a[k] == old(a[k])
    ensures Insert(old(a[..i]), old(a[i]), key) == old(a[..i])[..j] + [old(a[i])] + old(a[..i])[j..]
  {
    ghost var sorted := a[..i];
    ghost var x := a[i];
    j := i;
    assert sorted[..j] == sorted && sorted[j..] == [];
    while j > 0 && Less(key(a[j]), key(a[j - 1]))
      invariant 0 <= j <= i
      invariant a[j] == x
      invariant forall k :: 0 <= k < j ==> a[k] == sorted[k]
      invariant forall k :: j < k <= i ==> a[k] == sorted[k - 1]
      invariant forall k :: i < k < a.Length ==> a[k] == old(a[k])
      invariant Insert(sorted, x, key) == Insert(sorted[..j], x, key) + sorted[j..]
    {
      InsertPast(sorted, x, key, j);
      a[j - 1], a[j] := a[j], a[j - 1];
      j := j - 1;
    }
    InsertStops(sorted, x, key, j);
  }

  /** While x is less than the element before position j, inserting it there moves that element after it. */
  lemma InsertPast<T>(sorted: seq<T>, x: T, key: T -> string, j: int)
    requires 0 < j <= |sorted| && Less(key(x), key(sorted[j - 1]))
    ensures Insert(sorted[..j], x, key) + sorted[j..] == Insert(sorted[..j - 1], x, key) + sorted[j - 1..]
  {
    assert sorted[..j][..j - 1] == sorted[..j - 1];
    assert sorted[j - 1..] == [sorted[j - 1]] + sorted[j..];
  }

  /** Once x is not less than the element before position j (or j is 0), it is inserted right there. */
  lemma InsertStops<T>(sorted: seq<T>, x: T, key: T -> string, j: int)
    requires 0 <= j <= |sorted|
    requires j == 0 || !Less(key(x), key(sorted[j - 1]))
    ensures Insert(sorted[..j], x, key) == sorted[..j] + [x]
  {
  }
}
