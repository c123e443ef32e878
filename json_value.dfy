/**
 * The JSON-like values that template variables, metadata and token payloads
 * are made of.  `Dict` entries are in insertion order, as in a Python `dict`.
 * A `Dict` stands for a Python dict only when its keys are distinct at every
 * level: the type does not force this, and `to_query` on a `Dict` with a
 * repeated key writes every entry, which no Python dict holds.  The merges of
 * `PyDict` always build distinct keys.  `Num` stands for Python `int` (floats
 * are not modelled).
 */
module JsonValue {
  import opened Wrappers
  import opened Text

  datatype Value =
    | Null
    | Bool(b: bool)
    | Str(s: string)
    | Num(n: int)
    | Dict(entries: seq<(string, Value)>)
    | List(items: seq<Value>)

  /** A metadata value: `Union[str, int]`. */
  datatype Scalar = SStr(s: string) | SInt(i: int)
  {
    function ToValue(): Value
    {
      match this
      case SStr(s) => Str(s)
      case SInt(i) => Num(i)
    }

    /** `str(x)`, as an f-string writes it. */
    function Text(): string
    {
      match this
      case SStr(s) => s
      case SInt(i) => IntText(i)
    }
  }

  /** `meta.get(k)`: the value, or `None` when the key is absent. */
  function OrNull(o: Option<Scalar>): Value
  {
    match o
    case None => Null
    case Some(x) => x.ToValue()
  }

  /** `{k: v for k, v in d.items() if v is not None}`. */
  function FilterNulls(d: seq<(string, Value)>): (r: seq<(string, Value)>)
    ensures |r| <= |d|
    ensures forall e :: e in r <==> e in d && e.1 != Null
    ensures |d| == 1 ==> r == if d[0].1 == Null then [] else d
  {
    if d == [] then []
    else if d[0].1 == Null then FilterNulls(d[1..])
    else [d[0]] + FilterNulls(d[1..])
  }

  /**
   * The comprehension walks the entries in order: filtering `a + b` keeps
   * what filtering `a` keeps, followed by what filtering `b` keeps.  With the
   * one-entry case of `FilterNulls` this fixes the order of the result.
   */
  lemma {:induction false} FilterNullsConcat(a: seq<(string, Value)>, b: seq<(string, Value)>)
    ensures FilterNulls(a + b) == FilterNulls(a) + FilterNulls(b)
    decreases |a|
  {
    if a == [] {
      assert a + b == b;
    } else {
      assert (a + b)[0] == a[0];
      assert (a + b)[1..] == a[1..] + b;
      FilterNullsConcat(a[1..], b);
    }
  }
}
