/**
  * JSON documents as the Rust service sees them (serde_json::Value), without
  * floating-point numbers. Object fields are listed in document order.
  */
module Json {
  import opened Wrappers

  datatype Json =
    | Null
    | Bool(b: bool)
    | Num(n: int)
    | Str(s: string)
    | Arr(elems: seq<Json>)
    | Obj(fields: seq<(string, Json)>)

  /**
    * The value of the field named `key`. When the text repeated the key, the
    * parser stored each occurrence over the previous one, so the last one counts
    * (see `FieldLast`).
    */
  function Field(fields: seq<(string, Json)>, key: string): (r: Option<Json>)
    ensures r.None? <==> forall i | 0 <= i < |fields| :: fields[i].0 != key
    ensures r.Some? ==> (key, r.value) in fields
  {
    if fields == [] then None
    else if fields[|fields| - 1].0 == key then Some(fields[|fields| - 1].1)
    else
      var r := Field(fields[..|fields| - 1], key);
      assert forall i | 0 <= i < |fields| - 1 :: fields[..|fields| - 1][i] == fields[i];
      r
  }

  /** Of several fields named `key`, the last one is the value. */
  lemma {:induction false} FieldLast(fields: seq<(string, Json)>, key: string, i: nat)
    requires i < |fields| && fields[i].0 == key
    requires forall j | i < j < |fields| :: fields[j].0 != key
    ensures Field(fields, key) == Some(fields[i].1)
  {
    if i < |fields| - 1 {
      FieldLast(fields[..|fields| - 1], key, i);
    }
  }

  /** serde_json's `Value::get` with a string index: a field of an object, nothing for any other value. */
  function Get(v: Json, key: string): (r: Option<Json>)
    ensures !v.Obj? ==> r.None?
  {
    if v.Obj? then Field(v.fields, key) else None
  }
}
