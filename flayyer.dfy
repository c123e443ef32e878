/**
 * `Flayyer` (flayyer/flayyer.py), the older client of the rendering service:
 * the URL of an image of a template in a deck of a tenant, with the template
 * variables and a timestamp `__v` in the query, written by the copy of
 * `to_query` that writes a `None` leaf as an empty value.
 */
module FlayyerLib {
  import opened Wrappers
  import opened Text
  import PyDict
  import opened FormEncoding
  import opened JsonValue
  import opened QueryEncoder

  datatype Flayyer = Flayyer(
    tenant: string,
    deck: string,
    template: string,
    version: Option<int>,
    extension: string,
    variables: seq<(string, Value)>)

  /**
   * `Flayyer(tenant, deck, template, version=None, extension="jpeg", variables=None)`:
   * every argument is kept as given (`variables=None` is the empty dict).
   */
  function NewFlayyer(tenant: string, deck: string, template: string, version: Option<int> := None,
                      extension: string := "jpeg", variables: seq<(string, Value)> := []): (r: Flayyer)
    ensures r.tenant == tenant && r.deck == deck && r.template == template
    ensures r.version == version && r.extension == extension && r.variables == variables
  {
    Flayyer(tenant, deck, template, version, extension, variables)
  }

  /** `{**defaults, **self.variables}`, with the clock read as `now` seconds. */
  function Params(f: Flayyer, now: nat): seq<(string, Value)>
  {
    PyDict.PutAll([("__v", Str(NatText(now)))], f.variables)
  }

  /** The `querystring` property: `quote_plus` output, `=` and `&` only, so no `/`, `?` or `#`. */
  function Querystring(f: Flayyer, now: nat): (q: string)
    ensures forall c :: c in q ==> QueryChar(c)
  {
    QueryString(Dict(Params(f, now)), EmptyForNull)
  }

  const Host := "https://flayyer.host/v2/"

  /** The last path segment: the template, `.{version}` when the version is truthy, then `.{extension}`. */
  function FileName(f: Flayyer): string
  {
    if TruthyInt(f.version) then f.template + "." + IntText(f.version.value) + "." + f.extension
    else f.template + "." + f.extension
  }

  /** Everything `href` writes before the `?`. */
  function Path(f: Flayyer): string
  {
    Host + f.tenant + "/" + f.deck + "/" + FileName(f)
  }

  /** The `href` property: the host and the path, then `?` and the query, which ends the URL. */
  function Href(f: Flayyer, now: nat): (u: string)
    ensures Host <= u
    ensures var tail := "?" + Querystring(f, now); |tail| <= |u| && u[|u| - |tail|..] == tail
  {
    PathHost(f);
    HostPathQuery(Path(f), Querystring(f, now));
    Path(f) + "?" + Querystring(f, now)
  }

  lemma PathHost(f: Flayyer)
    ensures Host <= Path(f)
  {
    assert Path(f) == Host + (f.tenant + "/" + f.deck + "/" + FileName(f));
  }

  lemma HostPathQuery(path: string, q: string)
    requires Host <= path
    ensures var u, tail := path + "?" + q, "?" + q;
      Host <= u && |tail| <= |u| && u[|u| - |tail|..] == tail
  {
    var u := path + "?" + q;
    assert u == path + ("?" + q);
  }

  /**
   * `__v` comes first in the merged parameters, holding the timestamp unless
   * a variable of that name overrides its value; no key appears twice.
   */
  lemma ParamsFirst(f: Flayyer, now: nat)
    ensures Params(f, now) != []
    ensures Params(f, now)[0] == ("__v", if PyDict.HasKey(f.variables, "__v")
      then PyDict.LastValue(f.variables, "__v").value else Str(NatText(now)))
    ensures PyDict.DistinctKeys(Params(f, now))
  {
    PyDict.PutAllFirst([("__v", Str(NatText(now)))], f.variables);
    PyDict.PutAllKeepsDistinct([("__v", Str(NatText(now)))], f.variables);
  }

  /** Without a variable named `__v`, the query starts with the timestamp. */
  lemma QueryStartsWithTimestamp(f: Flayyer, now: nat)
    requires !PyDict.HasKey(f.variables, "__v")
    ensures "__v=" + NatText(now) <= Querystring(f, now)
  {
    var t := NatText(now);
    ParamsFirst(f, now);
    QueryPairsFirst(Params(f, now), EmptyForNull, t);
    var ps := QueryPairs(Dict(Params(f, now)), EmptyForNull);
    UrlEncodeFirst(ps);
    EncodeNamedPair("__v", t);
    NatTextUnreserved(now);
    VersionKey();
  }

  lemma VersionKey()
    ensures "__v" + "=" == "__v="
  {
  }

  /** The default extension is `jpeg`, and without a version it follows the template directly. */
  lemma DefaultFileName(tenant: string, deck: string, template: string)
    ensures FileName(NewFlayyer(tenant, deck, template)) == template + ".jpeg"
  {
    assert "." + "jpeg" == ".jpeg";
  }

  /** The file name holds a `/` or a `?` only when the template or the extension does. */
  lemma FileNameChars(f: Flayyer, c: char)
    requires c == '/' || c == '?'
    requires c !in f.template && c !in f.extension
    ensures c !in FileName(f)
  {
    if TruthyInt(f.version) && c in IntText(f.version.value) {
      IntTextChars(f.version.value, c);
    }
  }

  /** The URL splits at its first `?` into the path and the query, when no field holds a `?`. */
  lemma HrefSplitsAtQuery(f: Flayyer, now: nat)
    requires '?' !in f.tenant && '?' !in f.deck && '?' !in f.template && '?' !in f.extension
    ensures CutAt(Href(f, now), '?') == Some((Path(f), "?" + Querystring(f, now)))
  {
    FileNameChars(f, '?');
    assert '?' !in Host;
    assert '?' !in Path(f);
    var q := Querystring(f, now);
    assert Href(f, now) == Path(f) + ("?" + q);
    CutAtJoin(Path(f), "?" + q, '?');
  }

  /**
   * The path after the host holds the tenant, the deck and the file name as
   * three `/`-separated segments, when no field holds a `/`.
   */
  lemma PathSegments(f: Flayyer)
    requires '/' !in f.tenant && '/' !in f.deck && '/' !in f.template && '/' !in f.extension
    ensures Host <= Path(f)
    ensures Split(Path(f)[|Host|..], '/') == [f.tenant, f.deck, FileName(f)]
  {
    FileNameChars(f, '/');
    var parts := [f.tenant, f.deck, FileName(f)];
    JoinThree(f.tenant, f.deck, FileName(f), '/');
    Regroup(Host, f.tenant, f.deck, FileName(f));
    assert Path(f)[|Host|..] == Join(parts, '/');
    SplitJoin(parts, '/');
  }

  lemma Regroup(h: string, a: string, b: string, c: string)
    ensures h + a + "/" + b + "/" + c == h + (a + ['/'] + (b + ['/'] + c))
  {
  }
}
