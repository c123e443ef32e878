/**
 * `FlyyerMeta`: the optional image metadata both `Flyyer` and
 * `FlyyerRender` take.  Every field is `Union[str, int]` and may be absent;
 * `meta.get(k)` gives `None` for an absent field.
 */
module FlyyerMeta {
  import opened Wrappers
  import opened Text
  import opened JsonValue

  datatype Meta = Meta(
    agent: Option<Scalar>,
    width: Option<Scalar>,
    height: Option<Scalar>,
    resolution: Option<Scalar>,
    id: Option<Scalar>,
    v: Option<Scalar>)

  /** `meta=None`, which the constructors turn into `{}`. */
  const NoMeta := Meta(None, None, None, None, None, None)

  /** `meta.get("v", str(int(time())))`, with the clock read as `now` seconds. */
  function VersionValue(meta: Meta, now: nat): Value
  {
    match meta.v
    case None => Str(NatText(now))
    case Some(x) => x.ToValue()
  }

  /** The same value as an f-string writes it. */
  function VersionText(meta: Meta, now: nat): string
  {
    match meta.v
    case None => NatText(now)
    case Some(x) => x.Text()
  }

  /** An optional string as a value: `None` or the string. */
  function StrOrNull(o: Option<string>): Value
  {
    match o
    case None => Null
    case Some(s) => Str(s)
  }
}
