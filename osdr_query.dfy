/**
  * The query half of the OSDR page controller: the optional column filter
  * (`array_filter` with `isset` and `stripos`) and the comparison callback
  * handed to `usort` (sort column, ascending or descending).
  */
module OsdrQuery {
  import opened Wrappers
  import opened Text
  import opened Seqs
  import opened Php
  import Usort

  // ---------------------------------------------------------------- filter

  /** A query parameter in a PHP condition: absent, "" and "0" are false. */
  predicate QueryTruthy(q: Option<string>) {
    q.Some? && q.value != "" && q.value != "0"
  }

  /** The filter callback: the column is set and its text contains `val`, ignoring ASCII case. */
  predicate Matches(col: string, val: string, row: Entries) {
    var k := ArrayKey(col);
    Isset(row, k) && ContainsIgnoringCase(ToText(Lookup(row, k)), val)
  }

  function MatchesOn(col: string, val: string): Entries -> bool {
    row => Matches(col, val, row)
  }

  /** `array_filter($items, ...)`: the matching rows, in their original order. */
  function FilterRows(rows: seq<Entries>, col: string, val: string): seq<Entries> {
    Filter(MatchesOn(col, val), rows)
  }

  /** The filter step: applied only when both the column and the value are truthy. */
  function ApplyFilter(rows: seq<Entries>, col: Option<string>, val: Option<string>): seq<Entries> {
    if QueryTruthy(col) && QueryTruthy(val) then FilterRows(rows, col.value, val.value) else rows
  }

  /**
    * With both parameters given, the filter keeps every matching row as often as
    * it occurs, drops every other row, and keeps the survivors' order; without
    * them the rows pass through unchanged.
    */
  lemma FilterStep(rows: seq<Entries>, col: Option<string>, val: Option<string>)
    ensures var r := ApplyFilter(rows, col, val);
      && Subsequence(r, rows)
      && (QueryTruthy(col) && QueryTruthy(val) ==>
            && (forall row | row in r :: Matches(col.value, val.value, row))
            && (forall row | row in rows && Matches(col.value, val.value, row) :: multiset(r)[row] == multiset(rows)[row]))
      && (!(QueryTruthy(col) && QueryTruthy(val)) ==> r == rows)
  {
    if QueryTruthy(col) && QueryTruthy(val) {
      var keep := MatchesOn(col.value, val.value);
      FilterIsSubsequence(keep, rows);
      forall row | row in rows && Matches(col.value, val.value, row)
        ensures multiset(FilterRows(rows, col.value, val.value))[row] == multiset(rows)[row]
      {
        FilterCounts(keep, rows, row);
      }
    } else {
      SubsequenceOfItself(rows);
    }
  }

  lemma {:induction false} SubsequenceOfItself(s: seq<Entries>)
    ensures Subsequence(s, s)
  {
    if s != [] {
      SubsequenceOfItself(s[1..]);
    }
  }

  /** `stripos` folds case on both sides: the filter value's case does not matter. */
  lemma MatchesIgnoresCase(col: string, val: string, row: Entries)
    ensures Matches(col, val, row) == Matches(col, AsciiLower(val), row)
  {
    AsciiLowerIdempotent(val);
  }

  // ------------------------------------------------------------------ sort

  /** `$row[$sort] ?? ''`, taken by its string form. */
  function SortKey(sort: string, row: Entries): string {
    var k := ArrayKey(sort);
    if Isset(row, k) then ToText(Lookup(row, k)) else ""
  }

  predicate StrLe(a: string, b: string) {
    a == b || StrLt(a, b)
  }

  /**
    * The `usort` callback: 0 for equal keys, otherwise -1 when `a`'s key is
    * smaller and 1 when it is larger, negated when `dir` is exactly "desc".
    */
  function Compare(sort: string, dir: string, a: Entries, b: Entries): (c: int)
    ensures c == 0 <==> SortKey(sort, a) == SortKey(sort, b)
    ensures dir != "desc" ==> (c < 0 <==> StrLt(SortKey(sort, a), SortKey(sort, b)))
    ensures dir == "desc" ==> (c < 0 <==> StrLt(SortKey(sort, b), SortKey(sort, a)))
  {
    var ka, kb := SortKey(sort, a), SortKey(sort, b);
    StrLtTrichotomy(ka, kb);
    StrLtIrreflexive(ka);
    if ka == kb then 0
    else
      var res := if StrLt(ka, kb) then -1 else 1;
      if dir == "desc" then -res else res
  }

  function Comparator(sort: string, dir: string): (Entries, Entries) -> int {
    (a, b) => Compare(sort, dir, a, b)
  }

  /** The page's callback is a consistent comparison, so `usort`'s guarantees apply to it. */
  lemma ComparatorValid(sort: string, dir: string)
    ensures Usort.ValidComparator(Comparator(sort, dir))
  {
    var cmp := Comparator(sort, dir);
    forall a, b ensures cmp(a, b) < 0 <==> cmp(b, a) > 0 {
      StrLtTrichotomy(SortKey(sort, a), SortKey(sort, b));
    }
    forall a, b, c | Usort.NotAbove(cmp, a, b) && Usort.NotAbove(cmp, b, c)
      ensures cmp(a, c) <= 0
    {
      var ka, kb, kc := SortKey(sort, a), SortKey(sort, b), SortKey(sort, c);
      StrLtTrichotomy(ka, kc);
      if ka != kb && kb != kc {
        if dir == "desc" {
          StrLtTransitive(kc, kb, ka);
        } else {
          StrLtTransitive(ka, kb, kc);
        }
      }
    }
  }

  /** The rows that have the sort key `key`. */
  function WithKey(sort: string, key: string): Entries -> bool {
    row => SortKey(sort, row) == key
  }

  /**
    * After `usort` the keys ascend, or descend when `dir` is "desc"; the rows are
    * a permutation of the input; rows sharing a key keep their input order, in
    * both directions.
    */
  lemma SortStep(sort: string, dir: string, rows: seq<Entries>)
    ensures var r := Usort.InsertionSort(Comparator(sort, dir), rows);
      && multiset(r) == multiset(rows)
      && (forall i, j | 0 <= i < j < |r| ::
            if dir == "desc" then StrLe(SortKey(sort, r[j]), SortKey(sort, r[i]))
            else StrLe(SortKey(sort, r[i]), SortKey(sort, r[j])))
      && (forall key :: Filter(WithKey(sort, key), r) == Filter(WithKey(sort, key), rows))
  {
    var cmp := Comparator(sort, dir);
    var r := Usort.InsertionSort(cmp, rows);
    ComparatorValid(sort, dir);
    Usort.InsertionSortPermutes(cmp, rows);
    Usort.InsertionSortSorted(cmp, rows);
    forall i, j | 0 <= i < j < |r|
      ensures if dir == "desc" then StrLe(SortKey(sort, r[j]), SortKey(sort, r[i]))
              else StrLe(SortKey(sort, r[i]), SortKey(sort, r[j]))
    {
      assert cmp(r[i], r[j]) <= 0;
    }
    forall key ensures Filter(WithKey(sort, key), r) == Filter(WithKey(sort, key), rows) {
      SortKeepsTies(sort, dir, rows, key);
    }
  }

  /** Rows with the same sort key come out of `usort` in the order they went in. */
  lemma SortKeepsTies(sort: string, dir: string, rows: seq<Entries>, key: string)
    ensures var r := Usort.InsertionSort(Comparator(sort, dir), rows);
      Filter(WithKey(sort, key), r) == Filter(WithKey(sort, key), rows)
  {
    var cmp := Comparator(sort, dir);
    var r := Usort.InsertionSort(cmp, rows);
    var same := WithKey(sort, key);
    Usort.InsertionSortPermutes(cmp, rows);
    if i :| 0 <= i < |rows| && SortKey(sort, rows[i]) == key {
      var z := rows[i];
      ComparatorValid(sort, dir);
      Usort.InsertionSortStable(cmp, rows, z);
      FilterAgree(Usort.Tied(cmp, z), same, r);
      FilterAgree(Usort.Tied(cmp, z), same, rows);
    } else {
      FilterNone(same, rows);
      forall j | 0 <= j < |r| ensures !same(r[j]) {
        assert r[j] in multiset(rows);
      }
      FilterNone(same, r);
    }
  }
}
