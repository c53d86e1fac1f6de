/**
  * The OSDR page action: read the query parameters, fetch the dataset list
  * from the Rust service, flatten it, filter it, sort it and hand it to the
  * view together with the source URL and the sort settings.
  */
module OsdrPage {
  import opened Wrappers
  import opened Text
  import opened Php
  import J = Json
  import opened OsdrFlatten
  import opened OsdrQuery
  import Usort
  import Seqs

  /** The query-string parameters the action reads; an absent parameter is None. */
  datatype Query = Query(
    limit: Option<string>,
    sort: Option<string>,
    dir: Option<string>,
    filterCol: Option<string>,
    filterVal: Option<string>)

  /**
    * What `@file_get_contents` gave back: false, or the body text together with
    * what `json_decode` makes of it (None when the text is not JSON).
    */
  datatype Upstream =
    | Unreachable
    | Body(text: string, json: Option<J.Json>)

  /** The data handed to the view. */
  datatype Page = Page(items: seq<Entries>, src: string, sort: string, dir: string)

  const DefaultBase: string := "http://rust_iss:3000"

  function Limit(q: Query): string { q.limit.GetOr("50") }
  function SortColumn(q: Query): string { q.sort.GetOr("inserted_at") }
  function Direction(q: Query): string { q.dir.GetOr("desc") }

  /** `getenv('RUST_BASE') ?: default`: an unset, empty or "0" variable falls back to the default. */
  function BaseUrl(env: Option<string>): (base: string)
    ensures env.Some? && env.value != "" && env.value != "0" ==> base == env.value
    ensures env.None? || env.value == "" || env.value == "0" ==> base == DefaultBase
  {
    if env.Some? && env.value != "" && env.value != "0" then env.value else DefaultBase
  }

  /** The list URL, which is both fetched and shown as the page's source. */
  function SourceUrl(q: Query, env: Option<string>): string {
    BaseUrl(env) + "/osdr/list?limit=" + Limit(q)
  }

  const EmptyList: Value := Arr([(StrKey("items"), Arr([]))])

  /** `$json ? json_decode($json, true) : ['items' => []]`: a false, empty or "0" body counts as no data. */
  function Document(reply: Upstream): Value {
    match reply
    case Unreachable => EmptyList
    case Body(text, json) =>
      if text == "" || text == "0" then EmptyList
      else if json.None? then Null
      else Decode(json.value)
  }

  /** `$data['items'] ?? []`: also `[]` when the document is not an array at all. */
  function ItemsOf(data: Value): Value {
    if data.Arr? && Isset(data.entries, StrKey("items")) then Lookup(data.entries, StrKey("items")) else Arr([])
  }

  /**
    * Apart from the two faults, a bad upstream yields no items: an unreachable
    * service, an empty or "0" body, a body that is not JSON, a JSON scalar or
    * list, and an object without an `items` field all leave `$items` empty.
    */
  lemma UpstreamFallback(reply: Upstream)
    ensures reply.Unreachable? ==> ItemsOf(Document(reply)) == Arr([])
    ensures reply.Body? && (reply.text == "" || reply.text == "0") ==> ItemsOf(Document(reply)) == Arr([])
    ensures reply.Body? && reply.json.None? ==> ItemsOf(Document(reply)) == Arr([])
    ensures reply.Body? && reply.json.Some? && !reply.json.value.Obj? ==> ItemsOf(Document(reply)) == Arr([])
    ensures reply.Body? && reply.json.Some? && reply.json.value.Obj? ==>
      (forall i | 0 <= i < |reply.json.value.fields| :: reply.json.value.fields[i].0 != "items") ==>
        ItemsOf(Document(reply)) == Arr([])
  {
    if reply.Body? && reply.json.Some? {
      var j := reply.json.value;
      DecodeShape(j);
      assert Magnitude("items") == "items" && "items"[0] in "items" && !IsDigit("items"[0]);
      assert ArrayKey("items") == StrKey("items");
      if j.Arr? {
        FindSpec(Decode(j).entries, StrKey("items"));
      }
    }
  }

  /** The values `foreach` visits, in order. */
  function Values(es: Entries): (vs: seq<Value>)
    ensures |vs| == |es| && forall i | 0 <= i < |es| :: vs[i] == es[i].1
  {
    seq(|es|, i requires 0 <= i < |es| => es[i].1)
  }

  /**
    * `OsdrController::index`. The fetch is a parameter: `fetch(url)` is what the
    * network returned for `url`. A non-array `items` and a scalar non-dictionary
    * item abort the request; otherwise the page lists the flattened rows that
    * pass the filter, sorted by the `usort` callback.
    */
  method Index(q: Query, env: Option<string>, fetch: string -> Upstream) returns (r: Result<Page, Fault>)
    ensures var items := ItemsOf(Document(fetch(SourceUrl(q, env))));
      && (!items.Arr? ==> r == Err(ItemsNotArray))
      && (items.Arr? && FlattenSpec(Values(items.entries)).Err? ==> r == Err(FlattenSpec(Values(items.entries)).error))
      && (items.Arr? && FlattenSpec(Values(items.entries)).Ok? ==>
            && r.Ok?
            && r.value.src == SourceUrl(q, env)
            && r.value.sort == SortColumn(q) && r.value.dir == Direction(q)
            && r.value.items == Usort.InsertionSort(Comparator(SortColumn(q), Direction(q)),
                                  ApplyFilter(FlattenSpec(Values(items.entries)).value, q.filterCol, q.filterVal)))
    ensures ItemsOf(Document(fetch(SourceUrl(q, env)))) == Arr([]) ==>
      r == Ok(Page([], SourceUrl(q, env), SortColumn(q), Direction(q)))
  {
    var limit := q.limit.GetOr("50");
    var sort := q.sort.GetOr("inserted_at");
    var dir := q.dir.GetOr("desc");
    var base := BaseUrl(env);
    var src := base + "/osdr/list?limit=" + limit;
    var data := Document(fetch(src));
    var items := ItemsOf(data);
    if !items.Arr? {
      return Err(ItemsNotArray);
    }
    var flat := FlattenOsdr(Values(items.entries));
    if flat.Err? {
      return Err(flat.error);
    }
    var rows := ApplyFilter(flat.value, q.filterCol, q.filterVal);
    var a := new Entries[|rows|](i requires 0 <= i < |rows| => rows[i]);
    assert a[..] == rows;
    Usort.Sort(a, Comparator(sort, dir));
    return Ok(Page(a[..], src, sort, dir));
  }

  /**
    * The rows on the page are the filtered rows, reordered: with a filter every
    * matching row is shown exactly as often as it was flattened and no other row
    * is shown; without one every flattened row is shown. The rows ascend by the
    * sort column (descend for "desc"), and rows sharing a key keep their order.
    */
  lemma PageRows(q: Query, rows: seq<Entries>)
    ensures var filtered := ApplyFilter(rows, q.filterCol, q.filterVal);
      var shown := Usort.InsertionSort(Comparator(SortColumn(q), Direction(q)), filtered);
      && multiset(shown) == multiset(filtered)
      && multiset(shown) <= multiset(rows)
      && (QueryTruthy(q.filterCol) && QueryTruthy(q.filterVal) ==>
            && (forall row | row in shown :: Matches(q.filterCol.value, q.filterVal.value, row))
            && (forall row | row in rows && Matches(q.filterCol.value, q.filterVal.value, row) ::
                  multiset(shown)[row] == multiset(rows)[row]))
      && (!(QueryTruthy(q.filterCol) && QueryTruthy(q.filterVal)) ==> multiset(shown) == multiset(rows))
      && (forall i, j | 0 <= i < j < |shown| ::
            if Direction(q) == "desc" then StrLe(SortKey(SortColumn(q), shown[j]), SortKey(SortColumn(q), shown[i]))
            else StrLe(SortKey(SortColumn(q), shown[i]), SortKey(SortColumn(q), shown[j])))
      && (forall key :: Seqs.Filter(WithKey(SortColumn(q), key), shown) == Seqs.Filter(WithKey(SortColumn(q), key), filtered))
  {
    var filtered := ApplyFilter(rows, q.filterCol, q.filterVal);
    FilterStep(rows, q.filterCol, q.filterVal);
    SortStep(SortColumn(q), Direction(q), filtered);
    SubsequenceMultiset(filtered, rows);
    var shown := Usort.InsertionSort(Comparator(SortColumn(q), Direction(q)), filtered);
    forall row | row in shown ensures row in filtered {
      assert row in multiset(shown);
    }
  }

  /** A subsequence holds each element at most as often as the whole. */
  lemma {:induction false} SubsequenceMultiset(a: seq<Entries>, b: seq<Entries>)
    requires Seqs.Subsequence(a, b)
    ensures multiset(a) <= multiset(b)
    decreases |b|
  {
    if a != [] {
      if a[0] == b[0] && Seqs.Subsequence(a[1..], b[1..]) {
        SubsequenceMultiset(a[1..], b[1..]);
        assert a == [a[0]] + a[1..] && b == [b[0]] + b[1..];
      } else {
        SubsequenceMultiset(a, b[1..]);
        assert b == [b[0]] + b[1..];
      }
    }
  }
}
