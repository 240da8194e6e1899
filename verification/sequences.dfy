/** Order-preserving duplicate removal and the sorting that Go's `sort.Strings`
    promises, with the facts that make their results unique. */
module Sequences {

  ghost predicate NoDup<T>(xs: seq<T>) {
    forall i, j :: 0 <= i < j < |xs| ==> xs[i] != xs[j]
  }

  function Elems<T>(xs: seq<T>): set<T> {
    set x | x in xs
  }

  /** Keeps the first occurrence of every element, in order. */
  function Dedupe<T(==)>(xs: seq<T>): (r: seq<T>) {
    if xs == [] then []
    else
      var n := |xs| - 1;
      var d := Dedupe(xs[..n]);
      if xs[n] in d then d else d + [xs[n]]
  }

  /** Position of the first occurrence of `x`. */
  ghost function FirstIndex<T>(xs: seq<T>, x: T): (i: nat)
    requires x in xs
    ensures i < |xs| && xs[i] == x && x !in xs[..i]
  {
    if xs[0] == x then 0
    else
      var i := FirstIndex(xs[1..], x) + 1;
      assert xs[..i] == [xs[0]] + xs[1..][..i - 1];
      i
  }

  /** `xs` lists elements of `ys` in the order in which `ys` first has them. */
  ghost predicate InOrderOf<T>(xs: seq<T>, ys: seq<T>) {
    (forall k :: 0 <= k < |xs| ==> xs[k] in ys) &&
    forall i, j :: 0 <= i < j < |xs| ==> FirstIndex(ys, xs[i]) < FirstIndex(ys, xs[j])
  }

  /** The result holds each element once, and in the order of first occurrences. */
  lemma {:induction false} DedupeIsFirstSeen<T>(xs: seq<T>)
    ensures Elems(Dedupe(xs)) == Elems(xs)
    ensures NoDup(Dedupe(xs))
    ensures InOrderOf(Dedupe(xs), xs)
  {
    if xs != [] {
      var n := |xs| - 1;
      DedupeIsFirstSeen(xs[..n]);
      var d := Dedupe(xs[..n]);
      assert xs == xs[..n] + [xs[n]];
      forall x | x in xs[..n] ensures x in xs && FirstIndex(xs, x) == FirstIndex(xs[..n], x) {
        FirstIndexPrefix(xs[..n], [xs[n]], x);
      }
      forall x ensures x in d <==> x in xs[..n] { assert x in Elems(d) <==> x in Elems(xs[..n]); }
      assert Elems(xs) == Elems(xs[..n]) + {xs[n]};
      if xs[n] !in d {
        assert Elems(Dedupe(xs)) == Elems(d) + {xs[n]};
        assert FirstIndex(xs, xs[n]) == n;
      }
    }
  }

  lemma DedupeSnoc<T>(xs: seq<T>, x: T)
    ensures Dedupe(xs + [x]) == if x in xs then Dedupe(xs) else Dedupe(xs) + [x]
    ensures x in xs <==> x in Dedupe(xs)
  {
    assert (xs + [x])[..|xs|] == xs;
    DedupeIsFirstSeen(xs);
    assert x in Elems(Dedupe(xs)) <==> x in Elems(xs);
  }

  lemma FirstIndexPrefix<T>(a: seq<T>, b: seq<T>, x: T)
    requires x in a
    ensures FirstIndex(a + b, x) == FirstIndex(a, x)
  {
    if a[0] != x {
      assert (a + b)[1..] == a[1..] + b;
      FirstIndexPrefix(a[1..], b, x);
    }
  }

  // Lexicographic order and sorting.

  predicate StrLe(a: string, b: string) {
    a == [] || (b != [] && (a[0] < b[0] || (a[0] == b[0] && StrLe(a[1..], b[1..]))))
  }

  /** `a` has the smaller character where the two first differ. */
  ghost predicate SmallerAt(a: string, b: string, i: nat) {
    i < |a| && i < |b| && a[..i] == b[..i] && a[i] < b[i]
  }

  /** The lexicographic order of strings. */
  lemma {:induction false} StrLeExact(a: string, b: string)
    ensures StrLe(a, b) <==> a <= b || exists i: nat :: SmallerAt(a, b, i)
  {
    if a != [] && b != [] {
      if a[0] == b[0] {
        StrLeExact(a[1..], b[1..]);
        assert a == [a[0]] + a[1..] && b == [b[0]] + b[1..];
        if i: nat :| SmallerAt(a[1..], b[1..], i) {
          assert a[..i + 1] == [a[0]] + a[1..][..i] && b[..i + 1] == [b[0]] + b[1..][..i];
          assert SmallerAt(a, b, i + 1);
        }
        if i: nat :| SmallerAt(a, b, i) {
          assert a[1..][..i - 1] == a[..i][1..] && b[1..][..i - 1] == b[..i][1..];
          assert SmallerAt(a[1..], b[1..], i - 1);
        }
      } else {
        if a[0] < b[0] {
          assert SmallerAt(a, b, 0);
        }
        if i: nat :| SmallerAt(a, b, i) {
          assert i > 0 ==> a[..i][0] == b[..i][0];
        }
      }
    }
  }

  lemma StrLeTotal(a: string, b: string)
    ensures StrLe(a, b) || StrLe(b, a)
  {
  }

  lemma StrLeAntisymmetric(a: string, b: string)
    requires StrLe(a, b) && StrLe(b, a)
    ensures a == b
  {
    if a != [] {
      StrLeAntisymmetric(a[1..], b[1..]);
      assert a == [a[0]] + a[1..];
      assert b == [b[0]] + b[1..];
    }
  }

  lemma StrLeTransitive(a: string, b: string, c: string)
    requires StrLe(a, b) && StrLe(b, c)
    ensures StrLe(a, c)
  {
    if a != [] && a[0] == b[0] == c[0] {
      StrLeTransitive(a[1..], b[1..], c[1..]);
    }
  }

  ghost predicate Sorted(xs: seq<string>) {
    forall i, j :: 0 <= i < j < |xs| ==> StrLe(xs[i], xs[j])
  }

  function Insert(x: string, xs: seq<string>): seq<string> {
    if xs == [] || StrLe(x, xs[0]) then [x] + xs else [xs[0]] + Insert(x, xs[1..])
  }

  /** `sort.Strings`. */
  function SortStrings(xs: seq<string>): seq<string> {
    if xs == [] then [] else Insert(xs[0], SortStrings(xs[1..]))
  }

  lemma {:induction false} InsertAdds(x: string, xs: seq<string>)
    ensures multiset(Insert(x, xs)) == multiset(xs) + multiset{x}
  {
    hide StrLe;
    if xs != [] && !StrLe(x, xs[0]) {
      InsertAdds(x, xs[1..]);
      assert xs == [xs[0]] + xs[1..];
    }
  }

  lemma InsertMembers(x: string, xs: seq<string>)
    ensures forall y :: y in Insert(x, xs) <==> y == x || y in xs
  {
    hide Insert;
    InsertAdds(x, xs);
    forall y ensures y in Insert(x, xs) <==> y == x || y in xs {
      assert y in multiset(Insert(x, xs)) <==> y in multiset(xs) + multiset{x};
    }
  }

  lemma {:induction false} InsertSorted(x: string, xs: seq<string>)
    requires Sorted(xs)
    ensures Sorted(Insert(x, xs))
  {
    if xs == [] {
    } else if StrLe(x, xs[0]) {
      forall j | 0 <= j < |xs| ensures StrLe(x, xs[j]) {
        if j > 0 { StrLeTransitive(x, xs[0], xs[j]); }
      }
    } else {
      StrLeTotal(x, xs[0]);
      assert Insert(x, xs) == [xs[0]] + Insert(x, xs[1..]);
      hide StrLe, Insert;
      InsertSorted(x, xs[1..]);
      InsertMembers(x, xs[1..]);
      forall y | y in Insert(x, xs[1..]) ensures StrLe(xs[0], y) {
        if y != x { var k :| 0 < k < |xs| && xs[k] == y; }
      }
      SortedCons(xs[0], Insert(x, xs[1..]));
    }
  }

  lemma SortedCons(h: string, t: seq<string>)
    requires Sorted(t) && forall y :: y in t ==> StrLe(h, y)
    ensures Sorted([h] + t)
  {
    hide StrLe;
  }

  lemma {:induction false} SortStringsSorts(xs: seq<string>)
    ensures Sorted(SortStrings(xs)) && multiset(SortStrings(xs)) == multiset(xs)
  {
    if xs != [] {
      SortStringsSorts(xs[1..]);
      InsertSorted(xs[0], SortStrings(xs[1..]));
      InsertAdds(xs[0], SortStrings(xs[1..]));
      assert xs == [xs[0]] + xs[1..];
    }
  }

  lemma SmallestFirst(xs: seq<string>, ys: seq<string>)
    requires Sorted(xs) && multiset(xs) == multiset(ys) && xs != []
    ensures ys != [] && StrLe(xs[0], ys[0])
  {
    hide StrLe;
    StrLeTotal(xs[0], xs[0]);
    assert |multiset(xs)| == |multiset(ys)|;
    assert ys[0] in multiset(xs);
  }

  /** A sorted arrangement of given elements is unique. */
  lemma {:induction false} SortedUnique(xs: seq<string>, ys: seq<string>)
    requires Sorted(xs) && Sorted(ys) && multiset(xs) == multiset(ys)
    ensures xs == ys
  {
    if xs == [] {
      assert |multiset(ys)| == 0;
    } else {
      SmallestFirst(xs, ys);
      SmallestFirst(ys, xs);
      hide StrLe;
      StrLeAntisymmetric(xs[0], ys[0]);
      assert xs == [xs[0]] + xs[1..] && ys == [ys[0]] + ys[1..];
      assert multiset(xs[1..]) == multiset(xs) - multiset{xs[0]};
      assert multiset(ys[1..]) == multiset(ys) - multiset{ys[0]};
      SortedUnique(xs[1..], ys[1..]);
    }
  }

  /** Duplicate-free sequences over the same elements are permutations of each other. */
  lemma {:induction false} NoDupSameElems<T>(xs: seq<T>, ys: seq<T>)
    requires NoDup(xs) && NoDup(ys) && Elems(xs) == Elems(ys)
    ensures multiset(xs) == multiset(ys)
  {
    NoDupMultiset(xs);
    NoDupMultiset(ys);
    forall x ensures multiset(xs)[x] == multiset(ys)[x] {
      assert x in Elems(xs) <==> x in Elems(ys);
    }
  }

  lemma {:induction false} NoDupMultiset<T>(xs: seq<T>)
    requires NoDup(xs)
    ensures multiset(xs) == multiset(Elems(xs))
    ensures |xs| == |Elems(xs)|
  {
    if xs == [] {
    } else {
      var n := |xs| - 1;
      NoDupMultiset(xs[..n]);
      assert xs == xs[..n] + [xs[n]];
      assert Elems(xs) == Elems(xs[..n]) + {xs[n]};
      assert xs[n] !in Elems(xs[..n]);
    }
  }

  lemma SameMultisetFacts<T>(xs: seq<T>, ys: seq<T>)
    requires multiset(xs) == multiset(ys) && NoDup(xs)
    ensures NoDup(ys) && Elems(xs) == Elems(ys)
  {
    NoDupMultiset(xs);
    forall x ensures x in xs <==> x in ys {
      assert x in multiset(xs) <==> x in multiset(ys);
    }
    forall i, j | 0 <= i < j < |ys| ensures ys[i] != ys[j] {
      assert multiset(ys)[ys[i]] <= 1;
      if ys[i] == ys[j] {
        TwoOccurrences(ys, i, j);
      }
    }
  }

  lemma TwoOccurrences<T>(ys: seq<T>, i: nat, j: nat)
    requires i < j < |ys| && ys[i] == ys[j]
    ensures multiset(ys)[ys[i]] >= 2
  {
    assert ys == ys[..j] + [ys[j]] + ys[j + 1..];
    assert ys[i] in ys[..j];
  }
}
