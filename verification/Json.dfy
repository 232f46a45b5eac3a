/** JSON values as serde_json holds them, and the two foreign computations the sources apply to text. */
module Json {
  import opened Bytes

  /** An integer, or the shortest decimal text of a floating-point number. */
  datatype Number = Int(i: int) | Float(text: string)

  datatype Value =
    | Null
    | Bool(b: bool)
    | Num(n: Number)
    | Str(s: string)
    | Arr(items: seq<Value>)
    | Obj(fields: map<string, Value>)
  {
    /** `Value::get(key)` on an object. */
    function Get(key: string): Option<Value> {
      if Obj? && key in fields then Some(fields[key]) else None
    }
  }

  /** Assigning this key of a JavaScript object sets its prototype instead. */
  const PROTO := "__proto__"

  /** `Value::as_i64`. */
  function AsI64(v: Option<Value>): (i: Option<int>) {
    if v.Some? && v.value.Num? && v.value.n.Int? && -0x8000_0000_0000_0000 <= v.value.n.i < 0x8000_0000_0000_0000
    then Some(v.value.n.i) else None
  }

  /** `Value::as_u64` used as an index. */
  function AsIndex(v: Option<Value>): (i: Option<nat>) {
    if v.Some? && v.value.Num? && v.value.n.Int? && 0 <= v.value.n.i < 0x1_0000_0000_0000_0000
    then Some(v.value.n.i) else None
  }

  function AsStr(v: Option<Value>): Option<string> {
    if v.Some? && v.value.Str? then Some(v.value.s) else None
  }

  function AsObj(v: Option<Value>): Option<map<string, Value>> {
    if v.Some? && v.value.Obj? then Some(v.value.fields) else None
  }

  function AsArr(v: Option<Value>): Option<seq<Value>> {
    if v.Some? && v.value.Arr? then Some(v.value.items) else None
  }

  /** `map.get(key)`. */
  function Field(m: map<string, Value>, key: string): Option<Value> {
    if key in m then Some(m[key]) else None
  }

  /** `serde_json::from_str` and `sha256_hex`: fixed functions that are not modelled further. */
  datatype Oracle = Oracle(parseJson: string -> Option<Value>, sha256Hex: seq<byte> -> string)

  /** `pick_value`: the listed fields of an object, elementwise on an array, anything else unchanged. */
  function Pick(v: Value, keys: set<string>): Value
    decreases v
  {
    match v
    case Arr(items) => Arr(seq(|items|, i requires 0 <= i < |items| => Pick(items[i], keys)))
    case Obj(fields) => Obj(map k | k in fields && k in keys :: fields[k])
    case _ => v
  }

  /** What `view` must be for the listed fields of `v`, told field by field. */
  ghost predicate IsPicked(view: Value, v: Value, keys: set<string>)
    decreases v
  {
    match v
    case Arr(items) =>
      view.Arr? && |view.items| == |items| && forall i :: 0 <= i < |items| ==> IsPicked(view.items[i], items[i], keys)
    case Obj(_) => view.Obj? && forall k :: view.Get(k) == if k in keys then v.Get(k) else None
    case _ => view == v
  }

  /** That describes one value. */
  lemma {:induction false} PickIs(v: Value, keys: set<string>, view: Value)
    ensures view == Pick(v, keys) <==> IsPicked(view, v, keys)
    decreases v
  {
    var r := Pick(v, keys);
    match v {
      case Arr(items) =>
        forall i | 0 <= i < |items|
          ensures IsPicked(r.items[i], items[i], keys)
        {
          PickIs(items[i], keys, r.items[i]);
        }
        if IsPicked(view, v, keys) {
          forall i | 0 <= i < |items|
            ensures view.items[i] == r.items[i]
          {
            PickIs(items[i], keys, view.items[i]);
          }
        }
      case Obj(fields) =>
        assert IsPicked(r, v, keys);
        if IsPicked(view, v, keys) {
          SameEntries(view.fields, r.fields);
        }
      case _ =>
    }
  }

  lemma SameEntries(m: map<string, Value>, n: map<string, Value>)
    requires forall k :: Obj(m).Get(k) == Obj(n).Get(k)
    ensures m == n
  {
    forall k
      ensures (k in m <==> k in n) && (k in m ==> m[k] == n[k])
    {
      assert Obj(m).Get(k) == Obj(n).Get(k);
    }
    assert m.Keys == n.Keys;
  }

  /** The object with these entries. */
  function Pairs(ps: seq<(string, Value)>): (m: map<string, Value>)
    ensures forall k :: k in m <==> exists i :: 0 <= i < |ps| && ps[i].0 == k
  {
    if ps == [] then map[] else Pairs(ps[..|ps| - 1])[ps[|ps| - 1].0 := ps[|ps| - 1].1]
  }

  lemma {:induction false} PairsLookup(ps: seq<(string, Value)>, i: nat)
    requires i < |ps| && forall j, k :: 0 <= j < k < |ps| ==> ps[j].0 != ps[k].0
    ensures ps[i].0 in Pairs(ps) && Pairs(ps)[ps[i].0] == ps[i].1
    decreases |ps|
  {
    if i < |ps| - 1 {
      PairsLookup(ps[..|ps| - 1], i);
    }
  }
}
