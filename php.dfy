/**
  * PHP values as `json_decode($body, true)` produces them: every JSON array
  * and object becomes an ordered PHP array whose keys are integers or strings.
  * Floating-point numbers are not part of the model.
  */
module Php {
  import opened Wrappers
  import opened Text
  import J = Json

  datatype Key = IntKey(i: int) | StrKey(s: string)

  datatype Value =
    | Null
    | Bool(b: bool)
    | Int(i: int)
    | Str(s: string)
    | Arr(entries: seq<(Key, Value)>)

  /** The entries of a PHP array, in insertion order. */
  type Entries = seq<(Key, Value)>

  /** PHP's array-key cast of a string: a canonical decimal integer becomes an integer key. */
  function ArrayKey(s: string): (k: Key)
    ensures k.IntKey? <==> IsCanonicalInt(s)
    ensures k.StrKey? ==> k.s == s
  {
    if IsCanonicalInt(s) then IntKey(CanonicalIntValue(s)) else StrKey(s)
  }

  /** The text of an integer addresses that integer's key. */
  lemma ArrayKeyOfIntText(n: int)
    ensures ArrayKey(IntToDecimal(n)) == IntKey(n)
  {
    IntToDecimalRoundTrip(n);
  }

  /** The value stored under key `k`: that of the first entry with that key. */
  function Find(es: Entries, k: Key): (r: Option<Value>)
  {
    if es == [] then None
    else if es[0].0 == k then Some(es[0].1)
    else Find(es[1..], k)
  }

  /** A key is missing exactly when no entry has it; a found value is stored under that key. */
  lemma {:induction false} FindSpec(es: Entries, k: Key)
    ensures Find(es, k).None? <==> forall i | 0 <= i < |es| :: es[i].0 != k
    ensures Find(es, k).Some? ==> (k, Find(es, k).value) in es
  {
    if es != [] && es[0].0 != k {
      FindSpec(es[1..], k);
      assert forall i | 1 <= i < |es| :: es[i] == es[1..][i - 1];
    }
  }

  /** The entry at index `i` is found when no earlier entry has its key. */
  lemma {:induction false} FindAt(es: Entries, i: nat)
    requires i < |es| && forall j | 0 <= j < i :: es[j].0 != es[i].0
    ensures Find(es, es[i].0) == Some(es[i].1)
  {
    if i > 0 {
      FindAt(es[1..], i - 1);
    }
  }

  /** `isset($a[k])`: the key is present and its value is not null. */
  predicate Isset(es: Entries, k: Key) {
    Find(es, k).Some? && Find(es, k).value != Null
  }

  /** `$a[k] ?? null`: the stored value, or null when the key is absent. */
  function Lookup(es: Entries, k: Key): (v: Value)
    ensures v != Null <==> Isset(es, k)
  {
    if Find(es, k).Some? then Find(es, k).value else Null
  }

  /** `$a[k1] ?? $a[k2] ?? ... ?? null`. */
  function Coalesce(es: Entries, keys: seq<Key>): (v: Value)
    ensures v == Null <==> forall i | 0 <= i < |keys| :: !Isset(es, keys[i])
    ensures v != Null ==> exists i | 0 <= i < |keys| ::
      && Isset(es, keys[i]) && v == Lookup(es, keys[i])
      && forall j | 0 <= j < i :: !Isset(es, keys[j])
  {
    if keys == [] then Null
    else if Isset(es, keys[0]) then Lookup(es, keys[0])
    else
      var v := Coalesce(es, keys[1..]);
      assert forall i | 1 <= i < |keys| :: keys[i] == keys[1..][i - 1];
      v
  }

  /** `$a[a] ?? $a[b] ?? null` takes the first key when it is set and the second otherwise. */
  lemma CoalesceTwo(es: Entries, a: Key, b: Key)
    ensures Coalesce(es, [a, b]) == if Isset(es, a) then Lookup(es, a) else Lookup(es, b)
  {
    assert [a, b][1..] == [b];
    assert [b][1..] == [];
  }

  /** `$a[k] = $v`: an existing key keeps its position and gets the new value; a new key is appended. */
  function Set(es: Entries, k: Key, v: Value): (r: Entries)
    ensures Find(r, k) == Some(v)
    ensures forall k': Key | k' != k :: Find(r, k') == Find(es, k')
    ensures |r| == if Find(es, k).Some? then |es| else |es| + 1
    ensures forall i | 0 <= i < |es| :: r[i].0 == es[i].0
  {
    if es == [] then [(k, v)]
    else if es[0].0 == k then [(k, v)] + es[1..]
    else [es[0]] + Set(es[1..], k, v)
  }

  /** A real PHP array: no key occurs twice. */
  predicate UniqueKeys(es: Entries) {
    forall i, j | 0 <= i < j < |es| :: es[i].0 != es[j].0
  }

  /** Assignment keeps the keys of an array unique. */
  lemma {:induction false} SetKeepsUnique(es: Entries, k: Key, v: Value)
    requires UniqueKeys(es)
    ensures UniqueKeys(Set(es, k, v))
  {
    if es != [] && es[0].0 != k {
      SetKeepsUnique(es[1..], k, v);
      var tail := Set(es[1..], k, v);
      assert Set(es, k, v) == [es[0]] + tail;
      FindSpec(es[1..], es[0].0);
      FindSpec(tail, es[0].0);
    }
  }

  /** Assigning pairs in turn leaves key `k` missing exactly when it was missing and no pair has it. */
  lemma {:induction false} AssignAllFind(es: Entries, pairs: seq<(Key, Value)>, k: Key)
    ensures Find(AssignAll(es, pairs), k).None? <==>
      Find(es, k).None? && forall i | 0 <= i < |pairs| :: pairs[i].0 != k
    decreases |pairs|
  {
    if pairs != [] {
      AssignAllFind(Set(es, pairs[0].0, pairs[0].1), pairs[1..], k);
      assert forall i | 1 <= i < |pairs| :: pairs[i] == pairs[1..][i - 1];
    }
  }

  /** Assigning pairs in turn keeps the keys unique. */
  lemma {:induction false} AssignAllUnique(es: Entries, pairs: seq<(Key, Value)>)
    requires UniqueKeys(es)
    ensures UniqueKeys(AssignAll(es, pairs))
    decreases |pairs|
  {
    if pairs != [] {
      SetKeepsUnique(es, pairs[0].0, pairs[0].1);
      AssignAllUnique(Set(es, pairs[0].0, pairs[0].1), pairs[1..]);
    }
  }

  /** PHP's conversion to bool: null, false, 0, "", "0" and the empty array are false. */
  predicate Truthy(v: Value) {
    match v
    case Null => false
    case Bool(b) => b
    case Int(i) => i != 0
    case Str(s) => s != "" && s != "0"
    case Arr(es) => es != []
  }

  /** PHP's `(string)` cast; an array becomes "Array". */
  function ToText(v: Value): string {
    match v
    case Null => ""
    case Bool(b) => if b then "1" else ""
    case Int(i) => IntToDecimal(i)
    case Str(s) => s
    case Arr(_) => "Array"
  }

  /** Assigns each pair in turn, as the decoder fills an array. */
  function AssignAll(es: Entries, pairs: seq<(Key, Value)>): Entries
    decreases |pairs|
  {
    if pairs == [] then es else AssignAll(Set(es, pairs[0].0, pairs[0].1), pairs[1..])
  }

  /** A scalar is truthy exactly when its string form is neither "" nor "0". */
  lemma TruthyText(v: Value)
    requires !v.Arr?
    ensures Truthy(v) <==> ToText(v) != "" && ToText(v) != "0"
  {
    if v.Int? {
      if v.i == 0 {
        assert NatToDecimal(0) == "0";
      } else if v.i > 0 {
        assert ToText(v) == NatToDecimal(v.i);
      } else {
        assert ToText(v) == "-" + NatToDecimal(-v.i);
        assert ToText(v)[0] == '-';
      }
    }
  }

  /**
    * `json_decode` gives null, booleans, integers and strings for JSON scalars, and
    * an array with unique keys for a JSON list or object; a list gets one entry
    * per element, keyed 0, 1, ..., and an object's field is missing from the array
    * exactly when the object has no field whose name casts to that key.
    */
  lemma DecodeShape(j: J.Json)
    ensures (Decode(j) == Null) <==> j.Null?
    ensures Decode(j).Arr? <==> j.Arr? || j.Obj?
    ensures Decode(j).Arr? ==> UniqueKeys(Decode(j).entries)
    ensures j.Arr? ==> |Decode(j).entries| == |j.elems|
    ensures j.Arr? ==> forall i | 0 <= i < |j.elems| :: Decode(j).entries[i] == (IntKey(i), Decode(j.elems[i]))
    ensures j.Obj? ==> forall k: Key :: Find(Decode(j).entries, k).None? <==>
      forall i | 0 <= i < |j.fields| :: ArrayKey(j.fields[i].0) != k
  {
    if j.Obj? {
      var pairs := seq(|j.fields|, i requires 0 <= i < |j.fields| => (ArrayKey(j.fields[i].0), Decode(j.fields[i].1)));
      assert Decode(j).entries == AssignAll([], pairs);
      AssignAllUnique([], pairs);
      forall k: Key ensures Find(Decode(j).entries, k).None? <==>
        forall i | 0 <= i < |j.fields| :: ArrayKey(j.fields[i].0) != k
      {
        AssignAllFind([], pairs, k);
        assert forall i | 0 <= i < |pairs| :: pairs[i].0 == ArrayKey(j.fields[i].0);
      }
    }
  }

  /**
    * `json_decode($text, true)` on the document `j`: a list gets keys 0, 1, ...;
    * an object's keys go through the array-key cast and a repeated key
    * overwrites the earlier value in place.
    */
  function Decode(j: J.Json): Value {
    match j
    case Null => Null
    case Bool(b) => Bool(b)
    case Num(n) => Int(n)
    case Str(s) => Str(s)
    case Arr(xs) => Arr(seq(|xs|, i requires 0 <= i < |xs| => (IntKey(i), Decode(xs[i]))))
    case Obj(fs) => Arr(AssignAll([], seq(|fs|, i requires 0 <= i < |fs| => (ArrayKey(fs[i].0), Decode(fs[i].1)))))
  }
}
