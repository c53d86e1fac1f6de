/**
  * PHP's `usort` (PHP 8 and later): a stable sort driven by a comparison
  * callback that returns a negative number, zero or a positive number.
  * Stability makes the outcome unique, so it is specified by insertion sort;
  * the in-place method is the straight insertion sort that realises it.
  */
module Usort {
  import opened Seqs

  /**
    * `cmp` is a consistent comparison callback: swapping the arguments flips
    * the sign, and "not greater than" is transitive.
    */
  ghost predicate ValidComparator<T(!new)>(cmp: (T, T) -> int) {
    && (forall a, b :: cmp(a, b) < 0 <==> cmp(b, a) > 0)
    && (forall a, b, c {:trigger NotAbove(cmp, a, b), NotAbove(cmp, b, c)} ::
          NotAbove(cmp, a, b) && NotAbove(cmp, b, c) ==> cmp(a, c) <= 0)
  }

  /** `a` does not compare greater than `b`. */
  ghost predicate NotAbove<T>(cmp: (T, T) -> int, a: T, b: T) {
    cmp(a, b) <= 0
  }

  /** "Not greater than" chains. */
  lemma ChainNotAbove<T(!new)>(cmp: (T, T) -> int, a: T, b: T, c: T)
    requires ValidComparator(cmp) && cmp(a, b) <= 0 && cmp(b, c) <= 0
    ensures cmp(a, c) <= 0
  {
    assert NotAbove(cmp, a, b) && NotAbove(cmp, b, c);
  }

  /** An element greater than `x` is not tied with anything tied with `x`. */
  lemma AboveNotTied<T(!new)>(cmp: (T, T) -> int, y: T, z: T, x: T)
    requires ValidComparator(cmp) && cmp(z, x) == 0 && cmp(y, x) > 0
    ensures cmp(z, y) != 0
  {
    assert NotAbove(cmp, z, x);
    assert NotAbove(cmp, y, z) ==> cmp(y, x) <= 0;
  }

  /** No element compares greater than a later one. */
  predicate Sorted<T>(cmp: (T, T) -> int, s: seq<T>) {
    forall i, j | 0 <= i < j < |s| :: cmp(s[i], s[j]) <= 0
  }

  /** The elements that compare equal to `x`. */
  function Tied<T>(cmp: (T, T) -> int, x: T): T -> bool {
    y => cmp(x, y) == 0
  }

  /** Where `x` goes: after the last element of `s` that does not compare greater than it. */
  function InsertPos<T>(cmp: (T, T) -> int, s: seq<T>, x: T): (p: nat)
    ensures p <= |s|
    ensures forall k | p <= k < |s| :: cmp(s[k], x) > 0
    ensures p == 0 || cmp(s[p - 1], x) <= 0
  {
    if s == [] || cmp(s[|s| - 1], x) <= 0 then |s| else InsertPos(cmp, s[..|s| - 1], x)
  }

  /** One insertion step: `x` placed into `s` behind every element not greater than it. */
  function Insert<T>(cmp: (T, T) -> int, s: seq<T>, x: T): seq<T> {
    if s == [] || cmp(s[|s| - 1], x) <= 0 then s + [x]
    else Insert(cmp, s[..|s| - 1], x) + [s[|s| - 1]]
  }

  /** The result of `usort`: the elements inserted one by one in input order. */
  function InsertionSort<T>(cmp: (T, T) -> int, s: seq<T>): seq<T> {
    if s == [] then [] else Insert(cmp, InsertionSort(cmp, s[..|s| - 1]), s[|s| - 1])
  }

  /** Insertion splits `s` at `InsertPos` and puts `x` in between. */
  lemma {:induction false} InsertSplits<T>(cmp: (T, T) -> int, s: seq<T>, x: T)
    ensures var p := InsertPos(cmp, s, x); Insert(cmp, s, x) == s[..p] + [x] + s[p..]
  {
    if s != [] && cmp(s[|s| - 1], x) > 0 {
      var init := s[..|s| - 1];
      InsertSplits(cmp, init, x);
      var p := InsertPos(cmp, s, x);
      assert init[..p] == s[..p];
      assert init[p..] + [s[|s| - 1]] == s[p..];
    }
  }

  /** The insertion point is the one index with nothing greater than `x` before it and only greater elements after. */
  lemma {:induction false} InsertPosAt<T>(cmp: (T, T) -> int, s: seq<T>, x: T, j: nat)
    requires j <= |s| && (j == 0 || cmp(s[j - 1], x) <= 0)
    requires forall k | j <= k < |s| :: cmp(s[k], x) > 0
    ensures InsertPos(cmp, s, x) == j
  {
    if j < |s| {
      InsertPosAt(cmp, s[..|s| - 1], x, j);
    }
  }

  /** Inserting adds exactly one copy of `x`. */
  lemma {:induction false} InsertPermutes<T>(cmp: (T, T) -> int, s: seq<T>, x: T)
    ensures multiset(Insert(cmp, s, x)) == multiset(s) + multiset{x}
  {
    var p := InsertPos(cmp, s, x);
    InsertSplits(cmp, s, x);
    assert s == s[..p] + s[p..];
  }

  /** `usort` only reorders: the result is a permutation of the input. */
  lemma {:induction false} InsertionSortPermutes<T>(cmp: (T, T) -> int, s: seq<T>)
    ensures multiset(InsertionSort(cmp, s)) == multiset(s)
  {
    if s != [] {
      var init := s[..|s| - 1];
      InsertionSortPermutes(cmp, init);
      InsertPermutes(cmp, InsertionSort(cmp, init), s[|s| - 1]);
      assert s == init + [s[|s| - 1]];
    }
  }

  /** Placing `x` behind everything not above it and before everything above it keeps a sorted sequence sorted. */
  lemma SortedSplice<T(!new)>(cmp: (T, T) -> int, s: seq<T>, x: T, p: nat)
    requires ValidComparator(cmp) && Sorted(cmp, s)
    requires p <= |s| && (p == 0 || cmp(s[p - 1], x) <= 0)
    requires forall k | p <= k < |s| :: cmp(s[k], x) > 0
    ensures Sorted(cmp, s[..p] + [x] + s[p..])
  {
    var r := s[..p] + [x] + s[p..];
    assert forall k | 0 <= k < p :: r[k] == s[k];
    assert forall k | p < k < |r| :: r[k] == s[k - 1];
    forall i, j | 0 <= i < j < |r| ensures cmp(r[i], r[j]) <= 0 {
      if j < p {
        assert cmp(s[i], s[j]) <= 0;
      } else if j == p {
        // s[i] is not above s[p - 1], which is not above x
        if i < p - 1 {
          assert cmp(s[i], s[p - 1]) <= 0;
          ChainNotAbove(cmp, s[i], s[p - 1], x);
        }
      } else if i < p {
        assert cmp(s[i], s[j - 1]) <= 0;
      } else if i == p {
        // s[j - 1] is above x
        assert cmp(s[j - 1], x) > 0;
      } else {
        assert cmp(s[i - 1], s[j - 1]) <= 0;
      }
    }
  }

  /** Inserting into a sorted sequence keeps it sorted. */
  lemma InsertSorted<T(!new)>(cmp: (T, T) -> int, s: seq<T>, x: T)
    requires ValidComparator(cmp) && Sorted(cmp, s)
    ensures Sorted(cmp, Insert(cmp, s, x))
  {
    InsertSplits(cmp, s, x);
    SortedSplice(cmp, s, x, InsertPos(cmp, s, x));
  }

  /** Given a consistent callback, `usort` leaves the elements in order. */
  lemma {:induction false} InsertionSortSorted<T(!new)>(cmp: (T, T) -> int, s: seq<T>)
    requires ValidComparator(cmp)
    ensures Sorted(cmp, InsertionSort(cmp, s))
  {
    if s != [] {
      InsertionSortSorted(cmp, s[..|s| - 1]);
      InsertSorted(cmp, InsertionSort(cmp, s[..|s| - 1]), s[|s| - 1]);
    }
  }

  /** Inserting `x` keeps the order of the elements tied with any `z`, with `x` last among them. */
  lemma {:induction false} InsertStable<T(!new)>(cmp: (T, T) -> int, s: seq<T>, x: T, z: T)
    requires ValidComparator(cmp)
    ensures Filter(Tied(cmp, z), Insert(cmp, s, x)) == Filter(Tied(cmp, z), s + [x])
  {
    var p := InsertPos(cmp, s, x);
    InsertSplits(cmp, s, x);
    var keep := Tied(cmp, z);
    var front, back := s[..p], s[p..];
    assert s == front + back;
    if keep(x) {
      // every element behind the insertion point compares greater than x, so none is tied with z
      forall k | 0 <= k < |back| ensures !keep(back[k]) {
        AboveNotTied(cmp, back[k], z, x);
      }
      FilterNone(keep, back);
    }
    FilterMoveLast(keep, front, x, back);
  }

  /**
    * `usort` is stable: for every `z`, the elements that compare equal to `z`
    * come out in the order they went in.
    */
  lemma {:induction false} InsertionSortStable<T(!new)>(cmp: (T, T) -> int, s: seq<T>, z: T)
    requires ValidComparator(cmp)
    ensures Filter(Tied(cmp, z), InsertionSort(cmp, s)) == Filter(Tied(cmp, z), s)
  {
    if s != [] {
      var init, last := s[..|s| - 1], s[|s| - 1];
      var sorted := InsertionSort(cmp, init);
      InsertionSortStable(cmp, init, z);
      InsertStable(cmp, sorted, last, z);
      FilterSnoc(Tied(cmp, z), sorted, init, last);
      assert s == init + [last];
    }
  }

  /** The sequence an insertion pass leaves behind: `x` at the insertion point, the greater elements shifted right. */
  lemma InsertShifted<T>(cmp: (T, T) -> int, s: seq<T>, x: T, j: nat, r: seq<T>)
    requires j <= |s| && |r| == |s| + 1
    requires j == 0 || cmp(s[j - 1], x) <= 0
    requires forall k | j <= k < |s| :: cmp(s[k], x) > 0
    requires forall k | 0 <= k < j :: r[k] == s[k]
    requires r[j] == x
    requires forall k | j < k < |r| :: r[k] == s[k - 1]
    ensures r == Insert(cmp, s, x)
  {
    var shifted := s[..j] + [x] + s[j..];
    forall k | 0 <= k < |r| ensures r[k] == shifted[k] {
      if k < j {
        assert shifted[k] == s[k];
      } else if j < k {
        assert shifted[k] == s[k - 1];
      }
    }
    assert r == shifted;
    InsertPosAt(cmp, s, x, j);
    InsertSplits(cmp, s, x);
  }

  /** Sorting one more element of `s` is one more insertion. */
  lemma InsertionSortPrefix<T>(cmp: (T, T) -> int, s: seq<T>, i: nat)
    requires i < |s|
    ensures InsertionSort(cmp, s[..i + 1]) == Insert(cmp, InsertionSort(cmp, s[..i]), s[i])
  {
    assert s[..i + 1][..i] == s[..i];
  }

  /** One pass of insertion sort: moves `a[i]` left past every greater element of the sorted prefix. */
  method InsertAt<T>(a: array<T>, i: int, cmp: (T, T) -> int)
    requires 0 <= i < a.Length
    modifies a
    ensures a[..i + 1] == Insert(cmp, old(a[..i]), old(a[i]))
    ensures a[i + 1..] == old(a[i + 1..])
  {
    ghost var sorted := a[..i];
    var x := a[i];
    var j := i;
    while j > 0 && cmp(a[j - 1], x) > 0
      invariant 0 <= j <= i
      invariant forall k | 0 <= k < j :: a[k] == sorted[k]
      invariant forall k | j < k <= i :: a[k] == sorted[k - 1]
      invariant forall k | i < k < a.Length :: a[k] == old(a[k])
      invariant forall k | j <= k < i :: cmp(sorted[k], x) > 0
    {
      a[j] := a[j - 1];
      j := j - 1;
    }
    a[j] := x;
    InsertShifted(cmp, sorted, x, j, a[..i + 1]);
  }

  /** `usort($a, $cmp)`: sorts `a` in place by straight insertion. */
  method Sort<T>(a: array<T>, cmp: (T, T) -> int)
    modifies a
    ensures a[..] == InsertionSort(cmp, old(a[..]))
  {
    ghost var s := a[..];
    var i := 0;
    while i < a.Length
      invariant 0 <= i <= a.Length
      invariant a[..i] == InsertionSort(cmp, s[..i])
      invariant a[i..] == s[i..]
    {
      ghost var prefix, rest := a[..i], a[i + 1..];
      assert a[i] == s[i] && rest == s[i + 1..] by {
        assert a[i..][0] == a[i] && a[i..][1..] == rest;
      }
      InsertAt(a, i, cmp);
      InsertionSortPrefix(cmp, s, i);
      i := i + 1;
    }
    assert a[..] == a[..a.Length];
    assert s[..a.Length] == s;
  }
}
