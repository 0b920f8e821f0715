/** The dynamic values that the metadata code reads out of YAML and renders
    back with `str()`: `None`, strings, integers and lists. */
module Values {
  import opened PyStr

  datatype Value = VNone | VStr(s: string) | VInt(i: int) | VList(items: seq<Value>)

  /** The decimal digits of a natural number. */
  function Digits(n: nat): (r: string)
    ensures r != []
    ensures forall k | 0 <= k < |r| :: '0' <= r[k] <= '9'
    decreases n
  {
    if n < 10 then ['0' + n as char] else Digits(n / 10) + ['0' + (n % 10) as char]
  }

  /** `str(i)` for an integer. */
  function IntText(i: int): string
  {
    if i < 0 then "-" + Digits(-i) else Digits(i)
  }

  /** `repr(v)`; strings are quoted with `'` and not escaped. */
  function Repr(v: Value): string
    decreases v, 1
  {
    match v
    case VNone => "None"
    case VStr(s) => "'" + s + "'"
    case VInt(i) => IntText(i)
    case VList(items) => "[" + ReprItems(items) + "]"
  }

  /** `", ".join(repr(x) for x in items)` */
  function ReprItems(items: seq<Value>): string
    decreases items, 0
  {
    if items == [] then ""
    else if |items| == 1 then Repr(items[0])
    else Repr(items[0]) + ", " + ReprItems(items[1..])
  }

  /** `str(v)`: a string is itself, anything else is its `repr`. */
  function Str(v: Value): string
  {
    if v.VStr? then v.s else Repr(v)
  }

  /** Python truthiness. */
  predicate Truthy(v: Value)
  {
    match v
    case VNone => false
    case VStr(s) => s != ""
    case VInt(i) => i != 0
    case VList(items) => items != []
  }

  /** `d.get(k)` */
  function Get(d: map<string, Value>, k: string): Value
  {
    if k in d then d[k] else VNone
  }

  /** `d.get(k, default)` */
  function GetOr(d: map<string, Value>, k: string, default: Value): Value
  {
    if k in d then d[k] else default
  }

  /** `str(None)` is the four letters `None`, so a `None` field is rendered
      as text and is not blank. */
  lemma StrOfNone()
    ensures Str(VNone) == "None" && Strip(Str(VNone)) == "None"
  {
    StripUnpadded("None");
  }
}
