/**
  * The normalisation half of the OSDR page controller: deciding whether an
  * upstream record's `raw` payload is a dictionary of datasets, and expanding
  * the upstream items into uniform rows (`looksOsdrDict` and `flattenOsdr`).
  */
module OsdrFlatten {
  import opened Wrappers
  import opened Text
  import opened Seqs
  import opened Php

  /** An error PHP raises that aborts the request. */
  datatype Fault =
    | ItemsNotArray   // `flattenOsdr(array $items)` given a non-array: TypeError
    | ScalarRow       // `$row['rest_url'] = ...` on true, a number or a string: Error

  const RestKeys: seq<Key> := [StrKey("REST_URL"), StrKey("rest_url"), StrKey("rest")]
  const PlainRestKeys: seq<Key> := [StrKey("REST_URL"), StrKey("rest_url")]
  const TitleKeys: seq<Key> := [StrKey("title"), StrKey("name")]

  // ------------------------------------------------------------ classifier

  /** One entry that marks a dictionary: an "OSD-" key, or an array value with REST_URL or rest_url set. */
  predicate MarksDictionary(entry: (Key, Value)) {
    || (entry.0.StrKey? && "OSD-" <= entry.0.s)
    || (entry.1.Arr? && (Isset(entry.1.entries, StrKey("REST_URL")) || Isset(entry.1.entries, StrKey("rest_url"))))
  }

  /** `looksOsdrDict`: the entries are scanned in order and the first marker answers true. */
  predicate LooksOsdrDict(raw: Entries) {
    raw != [] && (MarksDictionary(raw[0]) || LooksOsdrDict(raw[1..]))
  }

  /** The classifier holds exactly when some entry is a marker; an empty payload is not a dictionary. */
  lemma {:induction false} LooksOsdrDictIff(raw: Entries)
    ensures LooksOsdrDict(raw) <==> exists i | 0 <= i < |raw| :: MarksDictionary(raw[i])
  {
    if raw != [] {
      LooksOsdrDictIff(raw[1..]);
      if LooksOsdrDict(raw[1..]) {
        var i :| 0 <= i < |raw[1..]| && MarksDictionary(raw[1..][i]);
        assert MarksDictionary(raw[i + 1]);
      }
      if exists i | 0 <= i < |raw| :: MarksDictionary(raw[i]) {
        var i :| 0 <= i < |raw| && MarksDictionary(raw[i]);
        if i > 0 {
          assert MarksDictionary(raw[1..][i - 1]);
        }
      }
    }
  }

  /** The verdict does not depend on the order of the entries. */
  lemma LooksOsdrDictOrderFree(a: Entries, b: Entries)
    requires multiset(a) == multiset(b)
    ensures LooksOsdrDict(a) == LooksOsdrDict(b)
  {
    LooksOsdrDictIff(a);
    LooksOsdrDictIff(b);
    forall i | 0 <= i < |a| ensures a[i] in b {
      assert a[i] in multiset(a);
    }
    forall i | 0 <= i < |b| ensures b[i] in a {
      assert b[i] in multiset(b);
    }
  }

  // ------------------------------------------------------------- one item

  /** `$row['raw'] ?? []`. */
  function RawOf(row: Value): (r: Value)
    ensures r != Null
    ensures !row.Arr? ==> r == Arr([])
  {
    if row.Arr? && Isset(row.entries, StrKey("raw")) then Lookup(row.entries, StrKey("raw")) else Arr([])
  }

  /** The item takes the dictionary branch of `flattenOsdr`. */
  predicate IsDictItem(row: Value) {
    RawOf(row).Arr? && LooksOsdrDict(RawOf(row).entries)
  }

  /** The value the loop variable `$k` holds for key `k`. */
  function KeyValue(k: Key): Value {
    match k
    case IntKey(i) => Int(i)
    case StrKey(s) => Str(s)
  }

  /** The title of an expanded row: title, else name, else the last segment of a string rest URL. */
  function ExpandedTitle(v: Entries): Value {
    var rest := Coalesce(v, RestKeys);
    var title := Coalesce(v, TitleKeys);
    if !Truthy(title) && rest.Str? then Str(Basename(RTrimSlashes(rest.s))) else title
  }

  /**
    * The title chain: a truthy title wins; a missing title defers to name; when the
    * chosen value is falsy and the rest URL is a string, its last path segment is used.
    */
  lemma ExpandedTitleChain(v: Entries)
    ensures Truthy(Lookup(v, StrKey("title"))) ==> ExpandedTitle(v) == Lookup(v, StrKey("title"))
    ensures !Isset(v, StrKey("title")) && Truthy(Lookup(v, StrKey("name"))) ==>
      ExpandedTitle(v) == Lookup(v, StrKey("name"))
    ensures var chosen := if Isset(v, StrKey("title")) then Lookup(v, StrKey("title")) else Lookup(v, StrKey("name"));
      var rest := Coalesce(v, RestKeys);
      && (!Truthy(chosen) && rest.Str? ==> ExpandedTitle(v) == Str(Basename(RTrimSlashes(rest.s))))
      && (!Truthy(chosen) && !rest.Str? ==> ExpandedTitle(v) == chosen)
  {
    CoalesceTwo(v, StrKey("title"), StrKey("name"));
  }

  /** The array literal of an expanded row, field by field. */
  function RowLiteral(id: Value, datasetId: Value, title: Value, status: Value,
                      updatedAt: Value, insertedAt: Value, restUrl: Value, raw: Value): (row: Entries)
    ensures Lookup(row, StrKey("id")) == id
    ensures Lookup(row, StrKey("dataset_id")) == datasetId
    ensures Lookup(row, StrKey("title")) == title
    ensures Lookup(row, StrKey("status")) == status
    ensures Lookup(row, StrKey("updated_at")) == updatedAt
    ensures Lookup(row, StrKey("inserted_at")) == insertedAt
    ensures Lookup(row, StrKey("rest_url")) == restUrl
    ensures Lookup(row, StrKey("raw")) == raw
  {
    var row := [
      (StrKey("id"), id),
      (StrKey("dataset_id"), datasetId),
      (StrKey("title"), title),
      (StrKey("status"), status),
      (StrKey("updated_at"), updatedAt),
      (StrKey("inserted_at"), insertedAt),
      (StrKey("rest_url"), restUrl),
      (StrKey("raw"), raw) ];
    FindAt(row, 0); FindAt(row, 1); FindAt(row, 2); FindAt(row, 3);
    FindAt(row, 4); FindAt(row, 5); FindAt(row, 6); FindAt(row, 7);
    row
  }

  /** One row of a dictionary item: the parent's id and timestamps, the entry's key, URL, title and payload. */
  function ExpandEntry(parent: Entries, k: Key, v: Entries): (row: Entries)
    ensures Lookup(row, StrKey("id")) == Lookup(parent, StrKey("id"))
    ensures Lookup(row, StrKey("dataset_id")) == KeyValue(k)
    ensures Lookup(row, StrKey("status")) == Lookup(parent, StrKey("status"))
    ensures Lookup(row, StrKey("updated_at")) == Lookup(parent, StrKey("updated_at"))
    ensures Lookup(row, StrKey("inserted_at")) == Lookup(parent, StrKey("inserted_at"))
    ensures Lookup(row, StrKey("raw")) == Arr(v)
    ensures Lookup(row, StrKey("rest_url")) == Coalesce(v, RestKeys)
    ensures Lookup(row, StrKey("title")) == ExpandedTitle(v)
  {
    RowLiteral(
      Lookup(parent, StrKey("id")),            // $row['id']
      KeyValue(k),
      ExpandedTitle(v),
      Lookup(parent, StrKey("status")),        // $row['status'] ?? null
      Lookup(parent, StrKey("updated_at")),
      Lookup(parent, StrKey("inserted_at")),
      Coalesce(v, RestKeys),
      Arr(v))
  }

  predicate IsArrayEntry(entry: (Key, Value)) {
    entry.1.Arr?
  }

  /** The rows of a dictionary payload: one per array-valued entry, in key order. */
  function ExpandDict(parent: Entries, raw: Entries): seq<Entries> {
    if raw == [] then []
    else
      var last := raw[|raw| - 1];
      ExpandDict(parent, raw[..|raw| - 1]) + (if last.1.Arr? then [ExpandEntry(parent, last.0, last.1.entries)] else [])
  }

  /** Expansion is the expanded entry of each array-valued entry, in order. */
  lemma {:induction false} ExpandDictEntries(parent: Entries, raw: Entries)
    ensures |ExpandDict(parent, raw)| == |Filter(IsArrayEntry, raw)|
    ensures forall j | 0 <= j < |ExpandDict(parent, raw)| ::
      var e := Filter(IsArrayEntry, raw)[j];
      e.1.Arr? && ExpandDict(parent, raw)[j] == ExpandEntry(parent, e.0, e.1.entries)
  {
    if raw != [] {
      var init, last := raw[..|raw| - 1], raw[|raw| - 1];
      assert raw == init + [last];
      ExpandDictEntries(parent, init);
      FilterConcat(IsArrayEntry, init, [last]);
      var F: Entries, tail: Entries := Filter(IsArrayEntry, init), Filter(IsArrayEntry, [last]);
      assert tail == if last.1.Arr? then [last] else [] by {
        assert [last][1..] == [];
      }
      var E: seq<Entries> := ExpandDict(parent, init);
      var X: seq<Entries> := if last.1.Arr? then [ExpandEntry(parent, last.0, last.1.entries)] else [];
      assert ExpandDict(parent, raw) == E + X;
      assert Filter(IsArrayEntry, raw) == F + tail;
      forall j | 0 <= j < |E + X|
        ensures var e: (Key, Value) := (F + tail)[j]; e.1.Arr? && (E + X)[j] == ExpandEntry(parent, e.0, e.1.entries)
      {
        if j < |E| {
          assert (F + tail)[j] == F[j];
        }
      }
    }
  }

  /** `$row['rest_url']` of a non-dictionary item: REST_URL, else rest_url, of an array payload. */
  function PlainRestUrl(row: Value): Value {
    if RawOf(row).Arr? then Coalesce(RawOf(row).entries, PlainRestKeys) else Null
  }

  /** The one row of a non-dictionary item: the item itself with `rest_url` assigned. */
  function PlainRow(row: Value): (r: Result<Entries, Fault>)
    ensures r.Ok? <==> Flattenable(row)
    ensures r.Ok? ==> Lookup(r.value, StrKey("rest_url")) == PlainRestUrl(row)
    ensures r.Err? ==> r.error == ScalarRow
  {
    if row.Arr? then Ok(Set(row.entries, StrKey("rest_url"), PlainRestUrl(row)))
    // null and false turn into a fresh array on assignment
    else if row == Null || row == Bool(false) then Ok(Set([], StrKey("rest_url"), PlainRestUrl(row)))
    else Err(ScalarRow)
  }

  /** The rows one upstream item contributes. */
  function ItemRows(row: Value): (r: Result<seq<Entries>, Fault>)
    ensures IsDictItem(row) ==> r.Ok? && |r.value| == |Filter(IsArrayEntry, RawOf(row).entries)|
    ensures !IsDictItem(row) ==> (r.Ok? <==> Flattenable(row)) && (r.Ok? ==> |r.value| == 1)
  {
    if IsDictItem(row) then
      ExpandDictEntries(row.entries, RawOf(row).entries);
      Ok(ExpandDict(row.entries, RawOf(row).entries))
    else match PlainRow(row)
      case Ok(r) => Ok([r])
      case Err(e) => Err(e)
  }

  /** A non-dictionary item keeps every field and only gains or overwrites `rest_url`. */
  lemma PlainRowKeepsFields(row: Value)
    requires row.Arr? && !IsDictItem(row)
    ensures ItemRows(row).Ok? && |ItemRows(row).value| == 1
    ensures var r := ItemRows(row).value[0];
      && Lookup(r, StrKey("rest_url")) == PlainRestUrl(row)
      && (forall k: Key | k != StrKey("rest_url") :: Find(r, k) == Find(row.entries, k))
      && (forall i | 0 <= i < |row.entries| :: r[i].0 == row.entries[i].0)
  {
  }

  /** A plain item's URL is REST_URL if set, else rest_url if set, else null; `rest` is not consulted. */
  lemma PlainRestUrlChain(row: Value)
    ensures var raw := RawOf(row);
      PlainRestUrl(row) ==
        if raw.Arr? && Isset(raw.entries, StrKey("REST_URL")) then Lookup(raw.entries, StrKey("REST_URL"))
        else if raw.Arr? then Lookup(raw.entries, StrKey("rest_url"))
        else Null
  {
    var raw := RawOf(row);
    if raw.Arr? {
      CoalesceTwo(raw.entries, StrKey("REST_URL"), StrKey("rest_url"));
    }
  }

  /** Items PHP can flatten: arrays, and null or false, which become arrays on assignment. */
  predicate Flattenable(row: Value) {
    row.Arr? || row == Null || row == Bool(false)
  }

  /** An item yields rows exactly when it is flattenable. */
  lemma ItemRowsOkIff(row: Value)
    ensures ItemRows(row).Ok? <==> Flattenable(row)
  {
  }

  /** A dictionary whose entries hold no arrays contributes no rows at all. */
  lemma DictWithoutArraysVanishes(row: Value)
    requires IsDictItem(row)
    requires forall i | 0 <= i < |RawOf(row).entries| :: !RawOf(row).entries[i].1.Arr?
    ensures ItemRows(row) == Ok([])
  {
    ExpandDictEntries(row.entries, RawOf(row).entries);
    FilterNone(IsArrayEntry, RawOf(row).entries);
  }

  // ------------------------------------------------------------- all items

  /** The rows of each item in turn, concatenated; the first item that fails aborts with its fault. */
  function Gather(rowsOf: Value -> Result<seq<Entries>, Fault>, items: seq<Value>): Result<seq<Entries>, Fault> {
    if items == [] then Ok([])
    else
      match Gather(rowsOf, items[..|items| - 1])
      case Err(e) => Err(e)
      case Ok(rows) =>
        match rowsOf(items[|items| - 1])
        case Err(e) => Err(e)
        case Ok(more) => Ok(rows + more)
  }

  /** One more item appends its rows, unless the list or the item has already failed. */
  lemma GatherSnoc(rowsOf: Value -> Result<seq<Entries>, Fault>, items: seq<Value>, x: Value)
    ensures Gather(rowsOf, items + [x]) ==
      if Gather(rowsOf, items).Err? then Gather(rowsOf, items)
      else if rowsOf(x).Err? then Err(rowsOf(x).error)
      else Ok(Gather(rowsOf, items).value + rowsOf(x).value)
  {
    assert (items + [x])[..|items|] == items;
  }

  /** Gathering succeeds exactly when every item yields rows. */
  lemma {:induction false} GatherSucceedsIff(rowsOf: Value -> Result<seq<Entries>, Fault>, items: seq<Value>)
    ensures Gather(rowsOf, items).Ok? <==> forall i | 0 <= i < |items| :: rowsOf(items[i]).Ok?
  {
    if items != [] {
      var init := items[..|items| - 1];
      GatherSucceedsIff(rowsOf, init);
      assert forall i | 0 <= i < |init| :: init[i] == items[i];
    }
  }

  /** The rows of a concatenation are the concatenated rows. */
  lemma {:induction false} GatherConcat(rowsOf: Value -> Result<seq<Entries>, Fault>, a: seq<Value>, b: seq<Value>)
    requires Gather(rowsOf, a).Ok? && Gather(rowsOf, b).Ok?
    ensures Gather(rowsOf, a + b) == Ok(Gather(rowsOf, a).value + Gather(rowsOf, b).value)
  {
    if b == [] {
      assert a + b == a;
      assert Gather(rowsOf, a).value + [] == Gather(rowsOf, a).value;
    } else {
      var init, last := b[..|b| - 1], b[|b| - 1];
      assert b == init + [last];
      assert a + b == (a + init) + [last];
      GatherSnoc(rowsOf, init, last);
      GatherConcat(rowsOf, a, init);
      GatherSnoc(rowsOf, a + init, last);
      var A, I, L := Gather(rowsOf, a).value, Gather(rowsOf, init).value, rowsOf(last).value;
      assert (A + I) + L == A + (I + L);
    }
  }

  /** Once some prefix fails, the whole list fails with that prefix's fault. */
  lemma {:induction false} GatherFailureSticks(rowsOf: Value -> Result<seq<Entries>, Fault>, items: seq<Value>, n: nat)
    requires n <= |items| && Gather(rowsOf, items[..n]).Err?
    ensures Gather(rowsOf, items) == Gather(rowsOf, items[..n])
    decreases |items| - n
  {
    if n < |items| {
      assert items[..n + 1] == items[..n] + [items[n]];
      GatherSnoc(rowsOf, items[..n], items[n]);
      GatherFailureSticks(rowsOf, items, n + 1);
    } else {
      assert items[..n] == items;
    }
  }

  /** `flattenOsdr($items)` as a function: the rows of every item, in item order. */
  function FlattenSpec(items: seq<Value>): Result<seq<Entries>, Fault> {
    Gather(ItemRows, items)
  }

  /** Flattening succeeds exactly when every item is flattenable. */
  lemma FlattenSucceedsIff(items: seq<Value>)
    ensures FlattenSpec(items).Ok? <==> forall i | 0 <= i < |items| :: Flattenable(items[i])
  {
    GatherSucceedsIff(ItemRows, items);
    forall i | 0 <= i < |items| ensures ItemRows(items[i]).Ok? <==> Flattenable(items[i]) {
      ItemRowsOkIff(items[i]);
    }
  }

  /** Rows come out in item order: the rows of a concatenation are the concatenated rows. */
  lemma FlattenConcat(a: seq<Value>, b: seq<Value>)
    requires FlattenSpec(a).Ok? && FlattenSpec(b).Ok?
    ensures FlattenSpec(a + b) == Ok(FlattenSpec(a).value + FlattenSpec(b).value)
  {
    GatherConcat(ItemRows, a, b);
  }

  /** The number of rows an item yields, counted independently of the row construction. */
  function ExpectedRows(row: Value): nat {
    if IsDictItem(row) then |Filter(IsArrayEntry, RawOf(row).entries)| else 1
  }

  function TotalExpectedRows(items: seq<Value>): nat {
    if items == [] then 0 else TotalExpectedRows(items[..|items| - 1]) + ExpectedRows(items[|items| - 1])
  }

  /** Total expansion: one row per plain item plus one per array-valued entry of each dictionary. */
  lemma {:induction false} FlattenCount(items: seq<Value>)
    requires FlattenSpec(items).Ok?
    ensures |FlattenSpec(items).value| == TotalExpectedRows(items)
  {
    if items != [] {
      var init, last := items[..|items| - 1], items[|items| - 1];
      assert items == init + [last];
      GatherSnoc(ItemRows, init, last);
      FlattenCount(init);
      if IsDictItem(last) {
        ExpandDictEntries(last.entries, RawOf(last).entries);
      }
    }
  }

  /** The inner `foreach` of `flattenOsdr`: one row per array-valued entry of a dictionary payload. */
  method AppendDictRows(out: seq<Entries>, parent: Entries, raw: Entries) returns (res: seq<Entries>)
    ensures res == out + ExpandDict(parent, raw)
  {
    res := out;
    var m := 0;
    while m < |raw|
      invariant 0 <= m <= |raw|
      invariant res == out + ExpandDict(parent, raw[..m])
    {
      assert raw[..m + 1][..m] == raw[..m];
      var (k, v) := raw[m];
      if v.Arr? {
        res := res + [ExpandEntry(parent, k, v.entries)];
      }
      m := m + 1;
    }
    assert raw[..m] == raw;
  }

  /**
    * `flattenOsdr`: appends the rows of each item to `out` in turn; a dictionary
    * item contributes its expanded entries, any other item itself with `rest_url`.
    */
  method FlattenOsdr(items: seq<Value>) returns (r: Result<seq<Entries>, Fault>)
    ensures r == FlattenSpec(items)
  {
    var out: seq<Entries> := [];
    var n := 0;
    while n < |items|
      invariant 0 <= n <= |items|
      invariant FlattenSpec(items[..n]) == Ok(out)
    {
      var row := items[n];
      assert items[..n + 1] == items[..n] + [row];
      GatherSnoc(ItemRows, items[..n], row);
      var raw := RawOf(row);
      if raw.Arr? && LooksOsdrDict(raw.entries) {
        out := AppendDictRows(out, row.entries, raw.entries);
      } else {
        var rest := if raw.Arr? then Coalesce(raw.entries, PlainRestKeys) else Null;
        if row.Arr? {
          out := out + [Set(row.entries, StrKey("rest_url"), rest)];
        } else if row == Null || row == Bool(false) {
          out := out + [Set([], StrKey("rest_url"), rest)];
        } else {
          GatherFailureSticks(ItemRows, items, n + 1);
          return Err(ScalarRow);
        }
      }
      n := n + 1;
    }
    assert items[..n] == items;
    return Ok(out);
  }
}
