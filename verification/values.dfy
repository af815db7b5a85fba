/** Python-like dynamic values: the dictionaries the transformer reads and
    builds are modelled as finite maps from string keys to these values. */
module Values {

  datatype Option<+T> = None | Some(value: T)

  /** The JSON-shaped values that flow through the pipeline. */
  datatype Value =
    | VNone
    | VBool(b: bool)
    | VInt(i: int)
    | VStr(s: string)
    | VList(items: seq<Value>)
    | VDict(entries: map<string, Value>)

  type Dict = map<string, Value>

  /** Python truthiness: `None`, `False`, `0` and empty containers are falsy. */
  predicate Truthy(v: Value) {
    match v
    case VNone => false
    case VBool(b) => b
    case VInt(i) => i != 0
    case VStr(s) => |s| > 0
    case VList(items) => |items| > 0
    case VDict(entries) => |entries| > 0
  }

  /** `d.get(k)`: the value under `k`, or `None` when the key is absent. */
  function Get(d: Dict, k: string): (v: Value)
    ensures k !in d ==> v == VNone
    ensures k in d ==> v == d[k]
  {
    if k in d then d[k] else VNone
  }

  /** `d.get(k, default)`. */
  function GetOr(d: Dict, k: string, default: Value): (v: Value)
    ensures k !in d ==> v == default
    ensures k in d ==> v == d[k]
  {
    if k in d then d[k] else default
  }

  /** Values on which Python's `len` is defined. */
  predicate Sized(v: Value) {
    v.VStr? || v.VList? || v.VDict?
  }

  /** Python's `len` on a sized value. */
  function Len(v: Value): (n: nat)
    requires Sized(v)
    ensures n == 0 <==> !Truthy(v)
  {
    match v
    case VStr(s) => |s|
    case VList(items) => |items|
    case VDict(entries) => |entries|
  }

  function StrList(xs: seq<string>): (v: Value)
    ensures v.VList? && |v.items| == |xs|
    ensures forall i :: 0 <= i < |xs| ==> v.items[i] == VStr(xs[i])
  {
    VList(seq(|xs|, i requires 0 <= i < |xs| => VStr(xs[i])))
  }
}
