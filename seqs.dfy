/** Order-preserving filtering of sequences and the subsequence relation. */
module Seqs {

  /** `a` is obtained from `b` by deleting zero or more elements. */
  predicate Subsequence<T(==)>(a: seq<T>, b: seq<T>)
    decreases |b|
  {
    a == [] || (b != [] && ((a[0] == b[0] && Subsequence(a[1..], b[1..])) || Subsequence(a, b[1..])))
  }

  /** The elements of `s` that satisfy `keep`, in their original order. */
  function Filter<T(==)>(keep: T -> bool, s: seq<T>): (r: seq<T>)
    ensures forall x | x in r :: x in s && keep(x)
  {
    if s == [] then []
    else
      assert s == [s[0]] + s[1..];
      var rest := Filter(keep, s[1..]);
      if keep(s[0]) then
        [s[0]] + rest
      else
        rest
  }

  /** Every kept element occurs in the result exactly as often as in `s`. */
  lemma {:induction false} FilterCounts<T>(keep: T -> bool, s: seq<T>, x: T)
    requires keep(x)
    ensures multiset(Filter(keep, s))[x] == multiset(s)[x]
  {
    if s != [] {
      FilterCounts(keep, s[1..], x);
      assert s == [s[0]] + s[1..];
    }
  }

  lemma {:induction false} FilterIsSubsequence<T>(keep: T -> bool, s: seq<T>)
    ensures Subsequence(Filter(keep, s), s)
  {
    if s != [] {
      FilterIsSubsequence(keep, s[1..]);
      var rest := Filter(keep, s[1..]);
      if keep(s[0]) {
        assert ([s[0]] + rest)[1..] == rest;
      }
    }
  }

  lemma {:induction false} FilterNone<T>(keep: T -> bool, s: seq<T>)
    requires forall i | 0 <= i < |s| :: !keep(s[i])
    ensures Filter(keep, s) == []
  {
    if s != [] {
      FilterNone(keep, s[1..]);
    }
  }

  lemma {:induction false} FilterConcat<T>(keep: T -> bool, a: seq<T>, b: seq<T>)
    ensures Filter(keep, a + b) == Filter(keep, a) + Filter(keep, b)
  {
    if a == [] {
      assert a + b == b;
    } else {
      var x := [a[0]];
      var head := if keep(a[0]) then x else [];
      assert a + b == x + (a[1..] + b);
      assert (a + b)[1..] == a[1..] + b;
      calc {
        Filter(keep, a + b);
        head + Filter(keep, a[1..] + b);
        { FilterConcat(keep, a[1..], b); }
        head + (Filter(keep, a[1..]) + Filter(keep, b));
        (head + Filter(keep, a[1..])) + Filter(keep, b);
        Filter(keep, a) + Filter(keep, b);
      }
    }
  }

  /** Filtering looks only at the elements present: predicates that agree on them select the same. */
  lemma {:induction false} FilterAgree<T>(p: T -> bool, q: T -> bool, s: seq<T>)
    requires forall i | 0 <= i < |s| :: p(s[i]) == q(s[i])
    ensures Filter(p, s) == Filter(q, s)
  {
    if s != [] {
      FilterAgree(p, q, s[1..]);
    }
  }

  lemma FilterSingleton<T>(keep: T -> bool, x: T)
    ensures Filter(keep, [x]) == if keep(x) then [x] else []
  {
    assert [x][1..] == [];
  }

  /**
    * Moving `x` from the middle to the end does not change what is kept when no
    * kept element follows a kept `x`.
    */
  lemma FilterMoveLast<T>(keep: T -> bool, front: seq<T>, x: T, back: seq<T>)
    requires keep(x) ==> Filter(keep, back) == []
    ensures Filter(keep, front + [x] + back) == Filter(keep, front + back + [x])
  {
    var ff, fx, fb := Filter(keep, front), Filter(keep, [x]), Filter(keep, back);
    FilterSingleton(keep, x);
    FilterConcat(keep, front, [x]);
    FilterConcat(keep, front + [x], back);
    FilterConcat(keep, front, back);
    FilterConcat(keep, front + back, [x]);
    assert Filter(keep, front + [x] + back) == ff + fx + fb;
    assert Filter(keep, front + back + [x]) == ff + fb + fx;
    if keep(x) {
      assert fb == [];
    } else {
      assert fx == [];
    }
  }

  /** Sequences that filter alike still do after appending the same element. */
  lemma FilterSnoc<T>(keep: T -> bool, a: seq<T>, b: seq<T>, x: T)
    requires Filter(keep, a) == Filter(keep, b)
    ensures Filter(keep, a + [x]) == Filter(keep, b + [x])
  {
    FilterConcat(keep, a, [x]);
    FilterConcat(keep, b, [x]);
  }

  /** Filtering from the back: the last element is kept or dropped on its own. */
  lemma FilterLast<T>(keep: T -> bool, s: seq<T>)
    requires s != []
    ensures Filter(keep, s) == Filter(keep, s[..|s| - 1]) + (if keep(s[|s| - 1]) then [s[|s| - 1]] else [])
  {
    FilterSingleton(keep, s[|s| - 1]);
    FilterConcat(keep, s[..|s| - 1], [s[|s| - 1]]);
    assert s == s[..|s| - 1] + [s[|s| - 1]];
  }
}
