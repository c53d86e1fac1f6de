/**
  * The OSDR synchronisation of the Rust service: which JSON values count as
  * the dataset list, how the id, title and status are picked out of an item,
  * and the loop that upserts every item and counts what it wrote.
  */
module IssService {
  import opened Wrappers
  import opened Text
  import opened Json

  // ---------------------------------------------------------------- s_pick

  /** A field that `s_pick` accepts: a non-empty string or a number. */
  predicate Usable(x: Option<Json>) {
    x.Some? && ((x.value.Str? && x.value.s != "") || x.value.Num?)
  }

  /** The text `s_pick` returns for a usable field: the string itself, or the number's decimal text. */
  function UsableText(x: Option<Json>): (t: string)
    requires Usable(x)
    ensures t != ""
  {
    if x.value.Str? then x.value.s else IntToDecimal(x.value.n)
  }

  /** `s_pick(v, keys)`: the text of the first key, in list order, whose field is usable. */
  function SPick(v: Json, keys: seq<string>): (r: Option<string>)
    ensures r.None? <==> forall i | 0 <= i < |keys| :: !Usable(Get(v, keys[i]))
    ensures r.Some? ==> r.value != ""
    ensures !v.Obj? ==> r.None?
  {
    if keys == [] then None
    else
      var x := Get(v, keys[0]);
      if Usable(x) then Some(UsableText(x))
      else
        var r := SPick(v, keys[1..]);
        assert forall i | 1 <= i < |keys| :: keys[i] == keys[1..][i - 1];
        r
  }

  /** The answer is the text of the first usable key: every earlier key is absent, empty or of another type. */
  lemma {:induction false} SPickFirst(v: Json, keys: seq<string>, i: nat)
    requires i < |keys| && Usable(Get(v, keys[i]))
    requires forall j | 0 <= j < i :: !Usable(Get(v, keys[j]))
    ensures SPick(v, keys) == Some(UsableText(Get(v, keys[i])))
  {
    if i > 0 {
      SPickFirst(v, keys[1..], i - 1);
    }
  }

  /** Picking from a longer list that starts with the same keys can only be answered earlier, never differently. */
  lemma {:induction false} SPickPrefix(v: Json, keys: seq<string>, more: seq<string>)
    requires SPick(v, keys).Some?
    ensures SPick(v, keys + more) == SPick(v, keys)
  {
    assert (keys + more)[0] == keys[0];
    if !Usable(Get(v, keys[0])) {
      assert (keys + more)[1..] == keys[1..] + more;
      SPickPrefix(v, keys[1..], more);
    }
  }

  const IdKeys: seq<string> := ["dataset_id", "id", "uuid", "studyId", "accession", "osdr_id"]
  const TitleKeys: seq<string> := ["title", "name", "label"]
  const StatusKeys: seq<string> := ["status", "state", "lifecycle"]

  // --------------------------------------------------------- item selection

  /** The `as_array` of a field: its elements when it holds an array. */
  function ArrayField(doc: Json, key: string): Option<seq<Json>> {
    var f := Get(doc, key);
    if f.Some? && f.value.Arr? then Some(f.value.elems) else None
  }

  /** The items of an OSDR reply: the document if it is an array, else its `items` array, else its `results` array, else the document alone. */
  function SelectItems(doc: Json): seq<Json> {
    if doc.Arr? then doc.elems
    else if ArrayField(doc, "items").Some? then ArrayField(doc, "items").value
    else if ArrayField(doc, "results").Some? then ArrayField(doc, "results").value
    else [doc]
  }

  /**
    * The selection never comes up empty unless the array it chose is empty; a
    * document with no list anywhere is stored whole as the single item.
    */
  lemma SelectItemsShape(doc: Json)
    ensures SelectItems(doc) == [] ==>
      doc == Arr([]) || ArrayField(doc, "items") == Some([]) || ArrayField(doc, "results") == Some([])
    ensures !doc.Arr? && ArrayField(doc, "items").None? && ArrayField(doc, "results").None? ==>
      SelectItems(doc) == [doc]
    ensures doc.Arr? ==> SelectItems(doc) == doc.elems
    ensures !doc.Obj? && !doc.Arr? ==> SelectItems(doc) == [doc]
  {
  }

  /** A list wrapped in an object is found whether it is under `items` or `results`, `items` first. */
  lemma SelectItemsPrefersItems(doc: Json)
    requires doc.Obj? && ArrayField(doc, "items").Some?
    ensures SelectItems(doc) == ArrayField(doc, "items").value
  {
  }

  // ------------------------------------------------------------- the loop

  /** The values handed to `upsert_osdr_item` for one item (the `updated` timestamp is not modelled). */
  datatype OsdrRecord = OsdrRecord(id: Option<string>, title: Option<string>, status: Option<string>, item: Json)

  function RecordOf(item: Json): (rec: OsdrRecord)
    ensures rec.item == item
  {
    OsdrRecord(SPick(item, IdKeys), SPick(item, TitleKeys), SPick(item, StatusKeys), item)
  }

  function Records(items: seq<Json>): (recs: seq<OsdrRecord>)
    ensures |recs| == |items| && forall i | 0 <= i < |items| :: recs[i] == RecordOf(items[i])
  {
    seq(|items|, i requires 0 <= i < |items| => RecordOf(items[i]))
  }

  /** What the HTTP client reported: no response, or a status and the body parsed as JSON (None when it is not JSON). */
  datatype HttpReply =
    | NoResponse
    | Response(status: nat, body: Option<Json>)

  predicate IsSuccess(status: nat) {
    200 <= status <= 299
  }

  datatype SyncError =
    | RequestFailed
    | BadStatus(status: nat)
    | BadBody
    | UpsertFailed(index: nat)

  /**
    * The loop of `fetch_and_store_osdr`: every item is upserted in order and
    * counted; the first failed upsert ends the sync with an error.
    */
  method UpsertAll(items: seq<Json>, accepts: OsdrRecord -> bool)
    returns (r: Result<nat, SyncError>, attempted: seq<OsdrRecord>)
    ensures var recs := Records(items);
      && (r.Ok? <==> forall i | 0 <= i < |recs| :: accepts(recs[i]))
      && (r.Ok? ==> r.value == |recs| && attempted == recs)
      && (r.Err? ==>
            && r.error.UpsertFailed? && r.error.index < |recs|
            && attempted == recs[..r.error.index + 1]
            && !accepts(recs[r.error.index])
            && forall j | 0 <= j < r.error.index :: accepts(recs[j]))
  {
    ghost var recs := Records(items);
    attempted := [];
    var written := 0;
    while written < |items|
      invariant 0 <= written <= |items|
      invariant attempted == recs[..written]
      invariant forall j | 0 <= j < written :: accepts(recs[j])
    {
      var item := items[written];
      var rec := RecordOf(item);
      assert recs[..written + 1] == recs[..written] + [rec];
      attempted := attempted + [rec];
      if !accepts(rec) {
        return Err(UpsertFailed(written)), attempted;
      }
      written := written + 1;
    }
    assert recs[..written] == recs;
    return Ok(written), attempted;
  }

  /**
    * `fetch_and_store_osdr`. The database is the parameter `accepts`: whether
    * the upsert of a record succeeds. `attempted` lists the records sent to the
    * database, in order.
    */
  method FetchAndStoreOsdr(reply: HttpReply, accepts: OsdrRecord -> bool)
    returns (r: Result<nat, SyncError>, attempted: seq<OsdrRecord>)
    ensures reply.NoResponse? ==> r == Err(RequestFailed) && attempted == []
    ensures reply.Response? && !IsSuccess(reply.status) ==> r == Err(BadStatus(reply.status)) && attempted == []
    ensures reply.Response? && IsSuccess(reply.status) && reply.body.None? ==> r == Err(BadBody) && attempted == []
    ensures reply.Response? && IsSuccess(reply.status) && reply.body.Some? ==>
      var recs := Records(SelectItems(reply.body.value));
      && (r.Ok? <==> forall i | 0 <= i < |recs| :: accepts(recs[i]))
      && (r.Ok? ==> r.value == |recs| && attempted == recs)
      && (r.Err? ==>
            && r.error.UpsertFailed? && r.error.index < |recs|
            && attempted == recs[..r.error.index + 1]
            && !accepts(recs[r.error.index])
            && forall j | 0 <= j < r.error.index :: accepts(recs[j]))
  {
    if reply.NoResponse? {
      return Err(RequestFailed), [];
    }
    if !IsSuccess(reply.status) {
      return Err(BadStatus(reply.status)), [];
    }
    if reply.body.None? {
      return Err(BadBody), [];
    }
    r, attempted := UpsertAll(SelectItems(reply.body.value), accepts);
  }
}
