/**
 * `Flyyer` (flyyer/flyyer.py): the URL of a page's social image on the
 * Flyyer CDN.  Its fields are set once by the constructor; `params_hash`
 * merges the metadata defaults with the template variables, `querystring`
 * writes them with `to_query` and sorts the pairs, `sign` computes the
 * signature the chosen strategy asks for, and `href` assembles the URL.
 */
module FlyyerLib {
  import opened Wrappers
  import opened Text
  import PyDict
  import opened FormEncoding
  import opened JsonValue
  import opened QueryEncoder
  import opened Sorting
  import opened Lists
  import opened Signing
  import opened FlyyerMeta

  datatype Flyyer = Flyyer(
    project: string,
    path: string,
    secret: Option<string>,
    mode: Mode,
    variables: seq<(string, Value)>,
    meta: Meta,
    default: Option<string>)

  /** What the constructor guarantees: a rooted path, and a secret exactly when the strategy signs. */
  predicate Valid(f: Flyyer)
  {
    |f.path| > 0 && f.path[0] == '/' && (f.mode.Signed() <==> Truthy(f.secret))
  }

  /** `path if path.startswith("/") else "/" + path`. */
  function NormalizePath(path: string): (r: string)
    ensures |r| > 0 && r[0] == '/'
    ensures r == path || r == "/" + path
    ensures r == path <==> |path| > 0 && path[0] == '/'
  {
    if |path| > 0 && path[0] == '/' then path else "/" + path
  }

  /** Normalising an already normalised path changes nothing. */
  lemma NormalizePathIdempotent(path: string)
    ensures NormalizePath(NormalizePath(path)) == NormalizePath(path)
  {
  }

  /** `Flyyer(project, path, secret, strategy, variables, meta, default)`. */
  function NewFlyyer(project: string, path: string := "/", secret: Option<string> := None,
                     strategy: Option<string> := None, variables: seq<(string, Value)> := [],
                     meta: Meta := NoMeta, default: Option<string> := None): (r: Result<Flyyer, ConfigError>)
    ensures r.Failure? <==> CheckStrategy(strategy, secret).Failure?
    ensures r.Failure? ==> r.error == CheckStrategy(strategy, secret).error
    ensures r.Success? ==> Valid(r.value)
    ensures r.Success? ==> r.value.path == NormalizePath(path) && r.value.secret == secret
    ensures r.Success? ==> r.value.project == project && r.value.variables == variables
    ensures r.Success? ==> r.value.meta == meta && r.value.default == default
    ensures r.Success? ==> r.value.mode == CheckStrategy(strategy, secret).value
    ensures r.Success? ==> (r.value.mode == NoStrategy <==> strategy.None?)
    ensures r.Success? ==> (r.value.mode == Hmac <==> strategy.Some? && IsHmac(strategy.value))
  {
    match CheckStrategy(strategy, secret)
    case Failure(e) => Failure(e)
    case Success(mode) => Success(Flyyer(project, NormalizePath(path), secret, mode, variables, meta, default))
  }

  /** The `defaults` dict of `params_hash`, before `__v` is popped. */
  function Defaults(f: Flyyer, now: nat): seq<(string, Value)>
  {
    [("__v", VersionValue(f.meta, now)),
     ("__id", OrNull(f.meta.id)),
     ("_w", OrNull(f.meta.width)),
     ("_h", OrNull(f.meta.height)),
     ("_res", OrNull(f.meta.resolution)),
     ("_ua", OrNull(f.meta.agent)),
     ("_def", StrOrNull(f.default))]
  }

  /**
   * `params_hash(ignoreV)`: `{**defaults, **variables}`, with `__v` popped
   * from the defaults when `ignoreV`.  A variable overrides the default of
   * the same name, every other default stays, and no key appears twice.
   */
  function ParamsHash(f: Flyyer, ignoreV: bool, now: nat): (r: seq<(string, Value)>)
    ensures forall k :: PyDict.Get(r, k) == if PyDict.HasKey(f.variables, k) then PyDict.LastValue(f.variables, k)
      else PyDict.Get(if ignoreV then Defaults(f, now)[1..] else Defaults(f, now), k)
    ensures PyDict.DistinctKeys(r)
  {
    var base := if ignoreV then Defaults(f, now)[1..] else Defaults(f, now);
    DefaultsDistinct(f, now);
    PyDict.PutAllGetAll(base, f.variables);
    PyDict.PutAllKeepsDistinct(base, f.variables);
    PyDict.PutAll(base, f.variables)
  }

  lemma DefaultsDistinct(f: Flyyer, now: nat)
    ensures PyDict.DistinctKeys(Defaults(f, now)) && PyDict.DistinctKeys(Defaults(f, now)[1..])
  {
    var ks := ["__v", "__id", "_w", "_h", "_res", "_ua", "_def"];
    assert forall i :: 0 <= i < 7 ==> Defaults(f, now)[i].0 == ks[i];
    assert forall i, j :: 0 <= i < j < 7 ==> ks[i] != ks[j] by {
      assert |ks[0]| == 3 && |ks[1]| == 4 && |ks[2]| == 2 && |ks[3]| == 2 && |ks[4]| == 4 && |ks[5]| == 3 && |ks[6]| == 4;
      assert ks[0][1] != ks[5][1] && ks[1][1] != ks[4][1] && ks[1][1] != ks[6][1] && ks[4][1] != ks[6][1];
      assert ks[2][1] != ks[3][1];
    }
  }

  /** `__v` holds the variable of that name if there is one, else the clock, unless it was popped. */
  lemma ParamsHashVersion(f: Flyyer, ignoreV: bool, now: nat)
    ensures PyDict.Get(ParamsHash(f, ignoreV, now), "__v") ==
      if PyDict.HasKey(f.variables, "__v") then PyDict.LastValue(f.variables, "__v")
      else if ignoreV then None
      else Some(VersionValue(f.meta, now))
  {
    var d := Defaults(f, now);
    PyDict.PutAllGet(if ignoreV then d[1..] else d, f.variables, "__v");
    if ignoreV {
      assert !PyDict.HasKey(d[1..], "__v") by {
        assert "__id"[2] != "__v"[2] && "_ua"[1] != "__v"[1];
        assert |"_w"| != 3 && |"_h"| != 3 && |"_res"| != 3 && |"_def"| != 3;
      }
    }
  }

  /** With `__v` popped, the parameters depend neither on `meta["v"]` nor on the clock. */
  lemma ParamsHashIgnoresVersion(f: Flyyer, v: Option<Scalar>, now: nat, later: nat)
    ensures ParamsHash(f, true, now) == ParamsHash(f.(meta := f.meta.(v := v)), true, later)
  {
    assert Defaults(f, now)[1..] == Defaults(f.(meta := f.meta.(v := v)), later)[1..];
  }

  /** The `params` object of the token payload (`params_hash(True, True)`). */
  function JwtParams(f: Flyyer): Value
  {
    Dict([("i", OrNull(f.meta.id)),
          ("w", OrNull(f.meta.width)),
          ("h", OrNull(f.meta.height)),
          ("r", OrNull(f.meta.resolution)),
          ("u", OrNull(f.meta.agent)),
          ("def", StrOrNull(f.default)),
          ("var", Dict(f.variables))])
  }

  /** The token payload: `params_hash(True, True)` without its `None` entries. */
  function JwtPayload(f: Flyyer): seq<(string, Value)>
  {
    FilterNulls([("path", Str(f.path)), ("params", JwtParams(f))])
  }

  /**
   * Dropping the `None` entries of the payload drops nothing: only the top
   * level is filtered, and `path` and `params` are never `None` there.  The
   * `None` metadata inside `params` reaches the token.
   */
  lemma JwtPayloadComplete(f: Flyyer)
    ensures JwtPayload(f) == [("path", Str(f.path)), ("params", JwtParams(f))]
  {
    var d := [("path", Str(f.path)), ("params", JwtParams(f))];
    assert d[1..][1..] == [];
  }

  /** `"&".join(sorted(urlencode(pairs).split("&")))`. */
  function SortedQuery(ps: seq<(string, string)>): string
  {
    Join(SortSeq(Split(UrlEncode(ps), '&')), '&')
  }

  /**
   * `querystring(ignoreV)`: the sorted `to_query` output, which holds only
   * `quote_plus` output, `=` and `&`, so it is ASCII and has no `/`.
   */
  function Querystring(f: Flyyer, ignoreV: bool, now: nat): (q: string)
    ensures forall c :: c in q ==> QueryChar(c)
    ensures IsAscii(q) && '/' !in q
  {
    SortedQueryText(QueryPairs(Dict(ParamsHash(f, ignoreV, now)), OmitNull))
  }

  /** The sorted query, with what its alphabet implies. */
  function SortedQueryText(ps: seq<(string, string)>): (q: string)
    ensures q == SortedQuery(ps)
    ensures forall c :: c in q ==> QueryChar(c)
    ensures IsAscii(q) && '/' !in q
  {
    SortedQueryAlphabet(ps);
    SortedQuery(ps)
  }

  lemma SortedQueryAlphabet(ps: seq<(string, string)>)
    ensures forall c :: c in SortedQuery(ps) ==> QueryChar(c)
    ensures IsAscii(SortedQuery(ps)) && '/' !in SortedQuery(ps)
  {
    var q := SortedQuery(ps);
    SortedQueryAllChars(ps);
    QueryCharsAscii(q);
    assert !QueryChar('/');
  }

  /** `querystring(ignoreV)` as written: `to_query`, split on `&`, sort the list in place, join. */
  method ComputeQuerystring(f: Flyyer, ignoreV: bool, now: nat) returns (q: string)
    ensures q == Querystring(f, ignoreV, now)
  {
    var text := ToQuery(Dict(ParamsHash(f, ignoreV, now)), OmitNull);
    var aux := Split(text, '&');
    var a := new string[|aux|](i requires 0 <= i < |aux| => aux[i]);
    assert a[..] == aux;
    SortInPlace(a);
    q := Join(a[..], '&');
  }

  /**
   * The sorted query holds the encoded pairs of `to_query`, each once, in
   * lexicographic order; with no pairs it is empty.
   */
  lemma SortedQueryShape(ps: seq<(string, string)>)
    ensures ps == [] ==> SortedQuery(ps) == ""
    ensures ps != [] ==> Sorted(Split(SortedQuery(ps), '&'))
    ensures ps != [] ==> multiset(Split(SortedQuery(ps), '&')) == multiset(EncodedPairs(ps))
  {
    if ps == [] {
      assert UrlEncode(ps) == "";
      assert SortSeq([""]) == [""] by {
        assert [""][..0] == [];
      }
    } else {
      SplitUrlEncode(ps);
      var sorted := SortSeq(EncodedPairs(ps));
      forall i | 0 <= i < |sorted| ensures '&' !in sorted[i] {
        assert sorted[i] in multiset(EncodedPairs(ps));
        var j :| 0 <= j < |ps| && EncodedPairs(ps)[j] == sorted[i];
        NoAmpersand(ps[j]);
      }
      assert |sorted| == |multiset(sorted)| == |ps|;
      SplitJoin(sorted, '&');
    }
  }

  /** The sorted query depends only on which pairs `to_query` writes, not on their order. */
  lemma SortedQueryOrderFree(ps: seq<(string, string)>, qs: seq<(string, string)>)
    requires multiset(ps) == multiset(qs)
    ensures SortedQuery(ps) == SortedQuery(qs)
  {
    assert |ps| == |multiset(ps)| == |multiset(qs)| == |qs|;
    if ps != [] {
      SplitUrlEncode(ps);
      SplitUrlEncode(qs);
      EncodedPairsPermutation(ps, qs);
      SortedUnique(SortSeq(EncodedPairs(ps)), SortSeq(EncodedPairs(qs)));
    }
  }

  lemma EncodedPairsPermutation(ps: seq<(string, string)>, qs: seq<(string, string)>)
    requires multiset(ps) == multiset(qs)
    ensures multiset(EncodedPairs(ps)) == multiset(EncodedPairs(qs))
  {
    MapPermutation(EncodePair, ps, qs);
    assert EncodedPairs(ps) == MapSeq(EncodePair, ps);
    assert EncodedPairs(qs) == MapSeq(EncodePair, qs);
  }

  /** The sorted query holds nothing but `quote_plus` output, `=` and `&`. */
  lemma SortedQueryChars(ps: seq<(string, string)>, c: char)
    requires c in SortedQuery(ps)
    ensures QueryChar(c)
  {
    var text := UrlEncode(ps);
    var sorted := SortSeq(Split(text, '&'));
    JoinMembers(sorted, '&', c);
    if c != '&' {
      var i :| 0 <= i < |sorted| && c in sorted[i];
      assert sorted[i] in multiset(Split(text, '&'));
      var j :| 0 <= j < |Split(text, '&')| && Split(text, '&')[j] == sorted[i];
      JoinContains(Split(text, '&'), '&', j, c);
    }
  }

  lemma SortedQueryAllChars(ps: seq<(string, string)>)
    ensures forall c :: c in SortedQuery(ps) ==> QueryChar(c)
  {
    forall c | c in SortedQuery(ps) ensures QueryChar(c) {
      SortedQueryChars(ps, c);
    }
  }

  lemma SortedQueryAscii(ps: seq<(string, string)>)
    ensures IsAscii(SortedQuery(ps))
  {
    SortedQueryAllChars(ps);
    QueryCharsAscii(SortedQuery(ps));
  }

  /** The data HMAC signs is ASCII whenever the project and the path are. */
  lemma HmacDataAscii(f: Flyyer, now: nat)
    requires IsAscii(f.project) && IsAscii(f.path)
    ensures IsAscii(f.project + f.path + Querystring(f, true, now))
  {
    SortedQueryAscii(QueryPairs(Dict(ParamsHash(f, true, now)), OmitNull));
    AsciiConcat(f.project, f.path);
    AsciiConcat(f.project + f.path, Querystring(f, true, now));
  }

  /** What `sign` needs to run without raising: an ASCII secret whenever a strategy was given, ASCII signed data. */
  predicate SignReady(f: Flyyer)
  {
    (f.mode != NoStrategy ==> f.secret.Some? && IsAscii(f.secret.value)) &&
    (f.mode == Hmac ==> IsAscii(f.project) && IsAscii(f.path))
  }

  /**
   * `sign()`.  `None` is what Python returns for `strategy=""`, which the
   * constructor accepts and neither signing branch handles.
   */
  function Sign(f: Flyyer, crypto: Crypto, now: nat): (r: Option<string>)
    requires Valid(f) && SignReady(f)
    ensures r.None? <==> f.mode == Blank
    ensures f.mode == NoStrategy ==> r == Some("_")
    ensures f.mode == Hmac && HexDigests(crypto) ==> |r.value| == 16 && forall i :: 0 <= i < 16 ==> IsLowerHex(r.value[i])
    ensures f.mode == Hmac ==> (HmacDataAscii(f, now);
      r == Some(Digest16(crypto, AsciiBytes(f.secret.value), AsciiBytes(f.project + f.path + Querystring(f, true, now)))))
    ensures f.mode == Jwt ==> r == Some(crypto.jwtHs256(Dict(JwtPayload(f)), AsciiBytes(f.secret.value)))
  {
    match f.mode
    case NoStrategy => Some("_")
    case Blank => None
    case Hmac =>
      var data := f.project + f.path + Querystring(f, true, now);
      HmacDataAscii(f, now);
      Some(Digest16(crypto, AsciiBytes(f.secret.value), AsciiBytes(data)))
    case Jwt =>
      Some(crypto.jwtHs256(Dict(JwtPayload(f)), AsciiBytes(f.secret.value)))
  }

  /** The signature depends neither on `meta["v"]` nor on the clock. */
  lemma SignIgnoresVersion(f: Flyyer, crypto: Crypto, v: Option<Scalar>, now: nat, later: nat)
    requires Valid(f) && SignReady(f)
    ensures Sign(f, crypto, now) == Sign(f.(meta := f.meta.(v := v)), crypto, later)
  {
    ParamsHashIgnoresVersion(f, v, now, later);
  }

  /** The signature as an f-string writes it (`None` for a missing one). */
  function SignatureText(sig: Option<string>): string
  {
    match sig
    case None => "None"
    case Some(s) => s
  }

  const CdnBase := "https://cdn.flyyer.io/v2/"

  /**
   * `href()`: the CDN base and the project, then either the token and the
   * version (JWT) or the signature, the query and the path, which ends the URL.
   */
  function Href(f: Flyyer, crypto: Crypto, now: nat): (u: string)
    requires Valid(f) && SignReady(f)
    ensures CdnBase + f.project + "/" <= u
    ensures f.mode != Jwt ==> |f.path| <= |u| && u[|u| - |f.path|..] == f.path
    ensures f.mode == Jwt ==> var tail := "?__v=" + VersionText(f.meta, now);
      |tail| <= |u| && u[|u| - |tail|..] == tail
  {
    var signature := SignatureText(Sign(f, crypto, now));
    if f.mode == Jwt then
      JwtUrl(CdnBase, f.project, signature, VersionText(f.meta, now));
      CdnBase + f.project + "/jwt-" + signature + "?__v=" + VersionText(f.meta, now)
    else
      PlainUrl(CdnBase, f.project, signature, Querystring(f, false, now), f.path);
      CdnBase + f.project + "/" + signature + "/" + Querystring(f, false, now) + f.path
  }

  lemma JwtUrl(base: string, project: string, token: string, version: string)
    ensures var u, tail := base + project + "/jwt-" + token + "?__v=" + version, "?__v=" + version;
      base + project + "/" <= u && |tail| <= |u| && u[|u| - |tail|..] == tail
  {
    var u, tail := base + project + "/jwt-" + token + "?__v=" + version, "?__v=" + version;
    assert u == (base + project + "/") + ("jwt-" + token) + tail;
  }

  lemma PlainUrl(base: string, project: string, signature: string, query: string, path: string)
    ensures var u := base + project + "/" + signature + "/" + query + path;
      base + project + "/" <= u && |path| <= |u| && u[|u| - |path|..] == path
  {
    var u := base + project + "/" + signature + "/" + query + path;
    assert u == (base + project + "/") + (signature + "/" + query) + path;
  }

  /**
   * How the service reads an unsigned or HMAC-signed URL back: project,
   * signature, query and path, each up to the next `/` except the path,
   * which is the rest.
   */
  function ParseHref(url: string): Option<(string, string, string, string)>
  {
    if !(CdnBase <= url) then None
    else
      match CutAt(url[|CdnBase|..], '/')
      case None => None
      case Some((project, afterProject)) =>
        match CutAt(afterProject[1..], '/')
        case None => None
        case Some((signature, afterSignature)) =>
          match CutAt(afterSignature[1..], '/')
          case None => None
          case Some((query, path)) => Some((project, signature, query, path))
  }

  /**
   * The URL outside JWT puts the path after the query, and still reads back:
   * the query cannot hold a `/` (`quote_plus` encodes it) and the signature
   * is `_`, `None` or hex.
   */
  lemma HrefParse(f: Flyyer, crypto: Crypto, now: nat)
    requires Valid(f) && SignReady(f) && f.mode != Jwt
    requires '/' !in f.project
    requires f.mode == Hmac ==> HexDigests(crypto)
    ensures ParseHref(Href(f, crypto, now))
         == Some((f.project, SignatureText(Sign(f, crypto, now)), Querystring(f, false, now), f.path))
  {
    SignatureNoSlash(f, crypto, now);
    SortedQueryNoSlash(QueryPairs(Dict(ParamsHash(f, false, now)), OmitNull));
    ParseHrefOf(f.project, SignatureText(Sign(f, crypto, now)), Querystring(f, false, now), f.path);
  }

  lemma SignatureNoSlash(f: Flyyer, crypto: Crypto, now: nat)
    requires Valid(f) && SignReady(f) && f.mode != Jwt
    requires f.mode == Hmac ==> HexDigests(crypto)
    ensures '/' !in SignatureText(Sign(f, crypto, now))
  {
    var signature := SignatureText(Sign(f, crypto, now));
    if f.mode == Hmac {
      HexNoSlash(signature);
    } else if f.mode == Blank {
      assert signature == "None";
    }
  }

  lemma HexNoSlash(s: string)
    requires forall i :: 0 <= i < |s| ==> IsLowerHex(s[i])
    ensures '/' !in s
  {
  }

  lemma SortedQueryNoSlash(ps: seq<(string, string)>)
    ensures '/' !in SortedQuery(ps)
  {
    if '/' in SortedQuery(ps) {
      SortedQueryChars(ps, '/');
    }
  }

  lemma ParseHrefOf(project: string, signature: string, query: string, path: string)
    requires '/' !in project && '/' !in signature && '/' !in query
    requires |path| > 0 && path[0] == '/'
    ensures ParseHref(CdnBase + project + "/" + signature + "/" + query + path) == Some((project, signature, query, path))
  {
    var url := CdnBase + project + "/" + signature + "/" + query + path;
    var afterSignature := "/" + (query + path);
    var afterProject := "/" + (signature + afterSignature);
    assert url == CdnBase + (project + afterProject);
    assert url[|CdnBase|..] == project + afterProject;
    CutAtJoin(project, afterProject, '/');
    DropSlash(signature + afterSignature);
    CutAtJoin(signature, afterSignature, '/');
    DropSlash(query + path);
    CutAtJoin(query, path, '/');
  }

  lemma DropSlash(s: string)
    ensures ("/" + s)[1..] == s
  {
  }

  /** Under JWT the URL carries only the project, the token and the version. */
  lemma HrefJwt(f: Flyyer, crypto: Crypto, now: nat)
    requires Valid(f) && SignReady(f) && f.mode == Jwt
    ensures Href(f, crypto, now) == CdnBase + f.project + "/jwt-"
      + crypto.jwtHs256(Dict([("path", Str(f.path)), ("params", JwtParams(f))]), AsciiBytes(f.secret.value))
      + "?__v=" + VersionText(f.meta, now)
  {
    JwtPayloadComplete(f);
  }
}
