/**
 * The java.util.stream operations the listing code chains together: filter, map,
 * sorted (natural String order) and distinct (first occurrence wins).
 */
module Streams {

  /** String.compareTo(a, b) <= 0: lexicographic order on characters, a prefix first. */
  predicate LexLe(a: string, b: string) {
    if a == [] then true
    else if b == [] then false
    else if a[0] != b[0] then a[0] < b[0]
    else LexLe(a[1..], b[1..])
  }

  lemma {:induction false} LexLeReflexive(a: string)
    ensures LexLe(a, a)
  {
    if a != [] { LexLeReflexive(a[1..]); }
  }

  lemma {:induction false} LexLeTotal(a: string, b: string)
    ensures LexLe(a, b) || LexLe(b, a)
  {
    if a != [] && b != [] && a[0] == b[0] { LexLeTotal(a[1..], b[1..]); }
  }

  lemma {:induction false} LexLeAntisymmetric(a: string, b: string)
    requires LexLe(a, b) && LexLe(b, a)
    ensures a == b
  {
    if a != [] && b != [] {
      LexLeAntisymmetric(a[1..], b[1..]);
      assert a == [a[0]] + a[1..] && b == [b[0]] + b[1..];
    }
  }

  lemma {:induction false} LexLeTransitive(a: string, b: string, c: string)
    requires LexLe(a, b) && LexLe(b, c)
    ensures LexLe(a, c)
  {
    if a != [] && b != [] && c != [] && a[0] == b[0] && b[0] == c[0] {
      LexLeTransitive(a[1..], b[1..], c[1..]);
    }
  }

  predicate Sorted(s: seq<string>) {
    forall i, j :: 0 <= i < j < |s| ==> LexLe(s[i], s[j])
  }

  /** Places x before the first element it is strictly below. */
  function Insert(x: string, s: seq<string>): (r: seq<string>)
    ensures multiset(r) == multiset(s) + multiset{x}
    ensures |r| == |s| + 1
  {
    if s == [] then [x]
    else if LexLe(x, s[0]) then [x] + s
    else
      assert s == [s[0]] + s[1..];
      [s[0]] + Insert(x, s[1..])
  }

  lemma {:induction false} InsertSorted(x: string, s: seq<string>)
    requires Sorted(s)
    ensures Sorted(Insert(x, s))
    ensures forall y :: y in Insert(x, s) <==> y == x || y in s
  {
    assert multiset(Insert(x, s)) == multiset(s) + multiset{x};
    forall y ensures y in Insert(x, s) <==> y == x || y in s {
      assert y in Insert(x, s) <==> y in multiset(Insert(x, s));
      assert y in s <==> y in multiset(s);
    }
    if s != [] && !LexLe(x, s[0]) {
      InsertSorted(x, s[1..]);
      LexLeTotal(x, s[0]);
      var r := Insert(x, s);
      forall i, j | 0 <= i < j < |r| ensures LexLe(r[i], r[j]) {
        if i == 0 {
          assert r[j] in Insert(x, s[1..]);
          if r[j] == x {
          } else {
            var k :| 0 <= k < |s[1..]| && s[1..][k] == r[j];
            assert LexLe(s[0], s[k + 1]);
          }
        }
      }
    } else if s != [] {
      var r := Insert(x, s);
      forall i, j | 0 <= i < j < |r| ensures LexLe(r[i], r[j]) {
        if i == 0 {
          LexLeReflexive(s[0]);
          assert LexLe(s[0], s[j - 1]);
          LexLeTransitive(x, s[0], s[j - 1]);
        }
      }
    }
  }

  /** Stream.sorted() on strings. */
  function Sort(s: seq<string>): (r: seq<string>)
    ensures multiset(r) == multiset(s)
  {
    if s == [] then []
    else
      assert s == s[..|s| - 1] + [s[|s| - 1]];
      Insert(s[|s| - 1], Sort(s[..|s| - 1]))
  }

  /** sorted() yields an ascending arrangement of the same elements, duplicates kept. */
  lemma {:induction false} SortSorted(s: seq<string>)
    ensures Sorted(Sort(s))
    ensures |Sort(s)| == |s|
  {
    if s != [] {
      SortSorted(s[..|s| - 1]);
      InsertSorted(s[|s| - 1], Sort(s[..|s| - 1]));
    }
  }

  /** The head of an ascending sequence is below every element. */
  lemma SortedHeadLeast(a: seq<string>, x: string)
    requires Sorted(a) && x in a
    ensures LexLe(a[0], x)
  {
    var i :| 0 <= i < |a| && a[i] == x;
    if i == 0 { LexLeReflexive(x); }
  }

  /** There is only one ascending arrangement of a multiset of strings. */
  lemma {:induction false} SortedUnique(a: seq<string>, b: seq<string>)
    requires Sorted(a) && Sorted(b) && multiset(a) == multiset(b)
    ensures a == b
    decreases |a|
  {
    if a != [] {
      assert |b| == |a| by { assert |multiset(b)| == |multiset(a)|; }
      assert a[0] in multiset(b) && b[0] in multiset(a);
      SortedHeadLeast(b, a[0]);
      SortedHeadLeast(a, b[0]);
      LexLeAntisymmetric(a[0], b[0]);
      TailMultiset(a);
      TailMultiset(b);
      SortedUnique(a[1..], b[1..]);
      assert a == [a[0]] + a[1..] && b == [b[0]] + b[1..];
    }
  }

  lemma TailMultiset(a: seq<string>)
    requires a != []
    ensures multiset(a[1..]) == multiset(a) - multiset{a[0]}
  {
    assert a == [a[0]] + a[1..];
  }

  /** Sorting twice is sorting once; the order of the input does not matter. */
  lemma SortIdempotent(s: seq<string>)
    ensures Sort(Sort(s)) == Sort(s)
  {
    SortSorted(s);
    SortSorted(Sort(s));
    SortedUnique(Sort(Sort(s)), Sort(s));
  }

  lemma SortPermutationInvariant(s: seq<string>, t: seq<string>)
    requires multiset(s) == multiset(t)
    ensures Sort(s) == Sort(t)
  {
    SortSorted(s);
    SortSorted(t);
    SortedUnique(Sort(s), Sort(t));
  }

  /** Stream.filter(p). */
  function Filter<T(!new)>(s: seq<T>, p: T -> bool): (r: seq<T>)
    ensures |r| <= |s|
    ensures forall x :: x in r <==> x in s && p(x)
  {
    if s == [] then []
    else (if p(s[0]) then [s[0]] else []) + Filter(s[1..], p)
  }

  /** A filter every element passes keeps the whole sequence. */
  lemma {:induction false} FilterAll<T(!new)>(s: seq<T>, p: T -> bool)
    requires forall x :: x in s ==> p(x)
    ensures Filter(s, p) == s
  {
    if s != [] {
      FilterAll(s[1..], p);
    }
  }

  /** Stream.map(f). */
  function Map<T, U>(s: seq<T>, f: T -> U): (r: seq<U>)
    ensures |r| == |s|
    ensures forall i :: 0 <= i < |s| ==> r[i] == f(s[i])
  {
    if s == [] then [] else [f(s[0])] + Map(s[1..], f)
  }

  ghost predicate NoDuplicates<T>(s: seq<T>) {
    forall i, j :: 0 <= i < j < |s| ==> s[i] != s[j]
  }

  /** The position of the first occurrence of x in s. */
  function FirstIndex<T(==)>(s: seq<T>, x: T): (i: nat)
    requires x in s
    ensures i < |s| && s[i] == x && x !in s[..i]
  {
    if s[0] == x then 0
    else
      var j := FirstIndex(s[1..], x);
      assert s[..j + 1] == [s[0]] + s[1..][..j];
      j + 1
  }

  /** Stream.distinct(): the first occurrence of each element, in encounter order. */
  function Distinct<T(==,!new)>(s: seq<T>): (r: seq<T>)
    ensures NoDuplicates(r)
    ensures forall x :: x in r <==> x in s
    ensures |r| <= |s|
  {
    if s == [] then []
    else
      var init := Distinct(s[..|s| - 1]);
      var last := s[|s| - 1];
      assert forall x :: x in s <==> x in s[..|s| - 1] || x == last by {
        assert s == s[..|s| - 1] + [last];
      }
      if last in init then init else init + [last]
  }

  /** distinct() keeps encounter order: x comes before y exactly when x is first met before y. */
  lemma {:induction false} DistinctOrder<T(!new)>(s: seq<T>, i: nat, j: nat)
    requires i < j < |Distinct(s)|
    ensures FirstIndex(s, Distinct(s)[i]) < FirstIndex(s, Distinct(s)[j])
  {
    var init := Distinct(s[..|s| - 1]);
    var last := s[|s| - 1];
    var d := Distinct(s);
    var p := s[..|s| - 1];
    assert s == p + [last];
    FirstIndexPrefix(s, p, d[i]);
    if j < |init| {
      DistinctOrder(p, i, j);
      FirstIndexPrefix(s, p, d[j]);
    } else {
      assert d[j] == last && last !in p;
      assert FirstIndex(s, last) == |p|;
    }
  }

  /** The first occurrence of x in a prefix that contains x is its first occurrence overall. */
  lemma FirstIndexPrefix<T>(s: seq<T>, p: seq<T>, x: T)
    requires |p| <= |s| && p == s[..|p|] && x in p
    ensures FirstIndex(s, x) == FirstIndex(p, x)
  {
  }

  /** An element met again adds nothing. */
  lemma DistinctRepeat<T(!new)>(s: seq<T>, x: T)
    requires NoDuplicates(s) && x in s
    ensures Distinct(s + [x]) == s
  {
    DistinctOfNoDuplicates(s);
    assert (s + [x])[..|s + [x]| - 1] == s;
  }

  /** On a sequence without duplicates distinct() changes nothing. */
  lemma {:induction false} DistinctOfNoDuplicates<T(!new)>(s: seq<T>)
    requires NoDuplicates(s)
    ensures Distinct(s) == s
  {
    if s != [] {
      var p := s[..|s| - 1];
      DistinctOfNoDuplicates(p);
      assert s[|s| - 1] !in p;
      assert s == p + [s[|s| - 1]];
    }
  }
}
