/**
 * `FlyyerRender` (flyyer/flyyer.py): the URL of an image rendered from a
 * deck and a template of a tenant on the Flyyer render CDN.  The fields are
 * set once by the constructor; `querystring` writes the metadata and the
 * variables with `to_query`, signed with an HMAC digest appended as `__hmac`,
 * or replaced by a JSON Web Token; `href` puts the deck, template, version and
 * extension in the path, or only the tenant under JWT.
 */
module FlyyerRenderLib {
  import opened Wrappers
  import opened Text
  import PyDict
  import opened FormEncoding
  import opened JsonValue
  import opened QueryEncoder
  import opened Signing
  import opened FlyyerMeta

  datatype FlyyerRender = FlyyerRender(
    tenant: string,
    deck: string,
    template: string,
    version: Option<int>,
    extension: Option<string>,
    variables: seq<(string, Value)>,
    meta: Meta,
    secret: Option<string>,
    mode: Mode)

  /** What the constructor guarantees: a secret exactly when the strategy signs. */
  predicate Valid(r: FlyyerRender)
  {
    r.mode.Signed() <==> Truthy(r.secret)
  }

  /** `FlyyerRender(tenant, deck, template, version, extension, variables, meta, secret, strategy)`. */
  function NewFlyyerRender(tenant: string, deck: string, template: string,
                           version: Option<int> := None, extension: Option<string> := None,
                           variables: seq<(string, Value)> := [], meta: Meta := NoMeta,
                           secret: Option<string> := None, strategy: Option<string> := None)
    : (r: Result<FlyyerRender, ConfigError>)
    ensures r.Failure? <==> CheckStrategy(strategy, secret).Failure?
    ensures r.Failure? ==> r.error == CheckStrategy(strategy, secret).error
    ensures r.Success? ==> Valid(r.value)
    ensures r.Success? ==> r.value.tenant == tenant && r.value.deck == deck && r.value.template == template
    ensures r.Success? ==> r.value.version == version && r.value.extension == extension
    ensures r.Success? ==> r.value.variables == variables && r.value.meta == meta && r.value.secret == secret
    ensures r.Success? ==> (r.value.mode == Jwt <==> Truthy(strategy) && IsJwt(strategy.value))
  {
    match CheckStrategy(strategy, secret)
    case Failure(e) => Failure(e)
    case Success(mode) => Success(FlyyerRender(tenant, deck, template, version, extension, variables, meta, secret, mode))
  }

  /** `default_v`. */
  function DefaultV(meta: Meta, now: nat): seq<(string, Value)>
  {
    [("__v", VersionValue(meta, now))]
  }

  /** `defaults_without_v`. */
  function WithoutV(meta: Meta): seq<(string, Value)>
  {
    [("__id", OrNull(meta.id)),
     ("_w", OrNull(meta.width)),
     ("_h", OrNull(meta.height)),
     ("_res", OrNull(meta.resolution)),
     ("_ua", OrNull(meta.agent))]
  }

  /**
   * `{**default_v, **defaults_without_v, **self.variables}`: a variable
   * overrides the metadata of the same name, which overrides `__v`.
   */
  function Params(r: FlyyerRender, now: nat): (d: seq<(string, Value)>)
    ensures forall k :: (PyDict.Get(d, k) ==
      if PyDict.HasKey(r.variables, k) then PyDict.LastValue(r.variables, k)
      else if PyDict.HasKey(WithoutV(r.meta), k) then PyDict.LastValue(WithoutV(r.meta), k)
      else PyDict.Get(DefaultV(r.meta, now), k))
  {
    var base := PyDict.PutAll(DefaultV(r.meta, now), WithoutV(r.meta));
    PyDict.PutAllGetAll(DefaultV(r.meta, now), WithoutV(r.meta));
    PyDict.PutAllGetAll(base, r.variables);
    PyDict.PutAll(base, r.variables)
  }

  /** The exception `querystring` can raise: `"#".join` given an `int` version. */
  datatype RenderError = VersionNotStr

  /** `self.extension or ""`. */
  function ExtensionOrEmpty(ext: Option<string>): string
  {
    if Truthy(ext) then ext.value else ""
  }

  /** The `to_query` output HMAC signs: the metadata without `__v`, then the variables. */
  function SignedQuery(r: FlyyerRender): string
  {
    QueryString(Dict(PyDict.PutAll(WithoutV(r.meta), r.variables)), OmitNull)
  }

  /**
   * `"#".join([deck, template, self.version or "", self.extension or "", ...])`:
   * a truthy `version` is an `int`, which `join` refuses.
   */
  function HmacData(r: FlyyerRender): (d: Result<string, RenderError>)
    ensures d.Failure? <==> TruthyInt(r.version)
  {
    if TruthyInt(r.version) then Failure(VersionNotStr)
    else Success(Join([r.deck, r.template, "", ExtensionOrEmpty(r.extension), SignedQuery(r)], '#'))
  }

  /** What `.encode("ASCII")` needs: an ASCII secret when signing, ASCII signed data under HMAC. */
  predicate RenderReady(r: FlyyerRender)
  {
    (r.mode.Signed() ==> r.secret.Some? && IsAscii(r.secret.value)) &&
    (r.mode == Hmac ==> IsAscii(r.deck) && IsAscii(r.template) && IsAscii(ExtensionOrEmpty(r.extension)))
  }

  /** The data HMAC signs is ASCII whenever the deck, the template and the extension are. */
  lemma HmacDataAscii(r: FlyyerRender)
    requires !TruthyInt(r.version)
    requires IsAscii(r.deck) && IsAscii(r.template) && IsAscii(ExtensionOrEmpty(r.extension))
    ensures IsAscii(HmacData(r).value)
  {
    var parts := [r.deck, r.template, "", ExtensionOrEmpty(r.extension), SignedQuery(r)];
    UrlEncodeAscii(QueryPairs(Dict(PyDict.PutAll(WithoutV(r.meta), r.variables)), OmitNull));
    assert forall i :: 0 <= i < |parts| ==> IsAscii(parts[i]);
    JoinAscii(parts, '#');
  }

  /** `hmac.new(key, data, sha256).hexdigest()[:16]`. */
  function HmacDigest(r: FlyyerRender, crypto: Crypto): (h: Result<string, RenderError>)
    requires RenderReady(r) && r.mode == Hmac
    ensures h.Failure? <==> TruthyInt(r.version)
    ensures h.Success? && HexDigests(crypto) ==> |h.value| == 16 && forall i :: 0 <= i < 16 ==> IsLowerHex(h.value[i])
    ensures h.Success? ==> (HmacDataAscii(r);
      h.value == Digest16(crypto, AsciiBytes(r.secret.value), AsciiBytes(HmacData(r).value)))
  {
    match HmacData(r)
    case Failure(e) => Failure(e)
    case Success(data) =>
      HmacDataAscii(r);
      Success(Digest16(crypto, AsciiBytes(r.secret.value), AsciiBytes(data)))
  }

  /** `{**default_v, **defaults_without_v, **self.variables, "__hmac": __hmac}`. */
  function HmacParams(r: FlyyerRender, digest: string, now: nat): seq<(string, Value)>
  {
    PyDict.Put(Params(r, now), "__hmac", Str(digest))
  }

  /** `None` or the integer. */
  function IntOrNull(o: Option<int>): Value
  {
    match o
    case None => Null
    case Some(n) => Num(n)
  }

  /** `jwt_defaults`: the metadata under one-letter keys, and the variables under `var`. */
  function JwtDefaults(r: FlyyerRender): seq<(string, Value)>
  {
    [("i", OrNull(r.meta.id)),
     ("w", OrNull(r.meta.width)),
     ("h", OrNull(r.meta.height)),
     ("r", OrNull(r.meta.resolution)),
     ("u", OrNull(r.meta.agent)),
     ("var", Dict(r.variables))]
  }

  /** The token payload `{"d": ..., "t": ..., "v": ..., "e": ..., **jwt_defaults}`; `None` entries stay. */
  function JwtPayload(r: FlyyerRender): Value
  {
    Dict(PyDict.PutAll([], [("d", Str(r.deck)),
                            ("t", Str(r.template)),
                            ("v", IntOrNull(r.version)),
                            ("e", StrOrNull(r.extension))] + JwtDefaults(r)))
  }

  /** No key of `jwt_defaults` repeats one before it, so the payload holds the ten entries in the order written. */
  lemma JwtPayloadEntries(r: FlyyerRender)
    ensures JwtPayload(r) == Dict([("d", Str(r.deck)),
                                   ("t", Str(r.template)),
                                   ("v", IntOrNull(r.version)),
                                   ("e", StrOrNull(r.extension)),
                                   ("i", OrNull(r.meta.id)),
                                   ("w", OrNull(r.meta.width)),
                                   ("h", OrNull(r.meta.height)),
                                   ("r", OrNull(r.meta.resolution)),
                                   ("u", OrNull(r.meta.agent)),
                                   ("var", Dict(r.variables))])
  {
    var es := [("d", Str(r.deck)), ("t", Str(r.template)), ("v", IntOrNull(r.version)),
               ("e", StrOrNull(r.extension))] + JwtDefaults(r);
    PayloadKeys(es);
    PyDict.PutAllDistinct(es);
  }

  /** The ten payload keys are pairwise different. */
  lemma PayloadKeys(es: seq<(string, Value)>)
    requires |es| == 10
    requires es[0].0 == "d" && es[1].0 == "t" && es[2].0 == "v" && es[3].0 == "e" && es[4].0 == "i"
    requires es[5].0 == "w" && es[6].0 == "h" && es[7].0 == "r" && es[8].0 == "u" && es[9].0 == "var"
    ensures PyDict.DistinctKeys(es)
  {
  }

  /** `jwt.encode(data, key, algorithm="HS256")`. */
  function JwtToken(r: FlyyerRender, crypto: Crypto): string
    requires RenderReady(r) && r.mode == Jwt
  {
    crypto.jwtHs256(JwtPayload(r), AsciiBytes(r.secret.value))
  }

  /** `querystring()`: signed under HMAC or JWT (the constructor ties a secret to those), unsigned otherwise. */
  function Querystring(r: FlyyerRender, crypto: Crypto, now: nat): (q: Result<string, RenderError>)
    requires Valid(r) && RenderReady(r)
    ensures q.Failure? <==> r.mode == Hmac && TruthyInt(r.version)
    ensures !r.mode.Signed() ==> q == Success(QueryString(Dict(Params(r, now)), OmitNull))
  {
    match r.mode
    case Hmac =>
      (match HmacDigest(r, crypto)
       case Failure(e) => Failure(e)
       case Success(digest) => Success(QueryString(Dict(HmacParams(r, digest, now)), OmitNull)))
    case Jwt =>
      Success(QueryString(Dict([("__jwt", Str(JwtToken(r, crypto))), ("__v", VersionValue(r.meta, now))]), OmitNull))
    case _ =>
      Success(QueryString(Dict(Params(r, now)), OmitNull))
  }

  const RenderBase := "https://cdn.flyyer.io/render/v2"

  /** `.{version}` when the version is truthy. */
  function VersionSuffix(version: Option<int>): string
  {
    if TruthyInt(version) then "." + IntText(version.value) else ""
  }

  /** `.{extension}` when the extension is truthy. */
  function ExtensionSuffix(ext: Option<string>): string
  {
    if Truthy(ext) then "." + ext.value else ""
  }

  /**
   * Everything `href` writes before the `?`: the base and the tenant, and
   * outside JWT the deck and the template with its suffixes after them.
   */
  function RenderPath(r: FlyyerRender): (p: string)
    ensures RenderBase + "/" + r.tenant <= p
    ensures r.mode == Jwt <==> p == RenderBase + "/" + r.tenant
  {
    if r.mode == Jwt then RenderBase + "/" + r.tenant
    else
      LongerPath(RenderBase, r.tenant, r.deck, r.template, VersionSuffix(r.version), ExtensionSuffix(r.extension));
      RenderBase + "/" + r.tenant + "/" + r.deck + "/" + r.template + VersionSuffix(r.version) + ExtensionSuffix(r.extension)
  }

  lemma LongerPath(base: string, tenant: string, deck: string, template: string, vs: string, es: string)
    ensures var head, p := base + "/" + tenant, base + "/" + tenant + "/" + deck + "/" + template + vs + es;
      head <= p && p != head
  {
    var head, p := base + "/" + tenant, base + "/" + tenant + "/" + deck + "/" + template + vs + es;
    assert p == head + ("/" + deck + "/" + template + vs + es);
  }

  /** `href()`: fails when `querystring` does. */
  function Href(r: FlyyerRender, crypto: Crypto, now: nat): (u: Result<string, RenderError>)
    requires Valid(r) && RenderReady(r)
    ensures u.Failure? <==> r.mode == Hmac && TruthyInt(r.version)
  {
    match Querystring(r, crypto, now)
    case Failure(e) => Failure(e)
    case Success(q) => Success(RenderPath(r) + "?" + q)
  }
  /** The signed data reads back into its five fields when the deck, the template and the extension hold no `#`. */
  lemma HmacDataFields(r: FlyyerRender)
    requires !TruthyInt(r.version)
    requires '#' !in r.deck && '#' !in r.template && '#' !in ExtensionOrEmpty(r.extension)
    ensures Split(HmacData(r).value, '#') == [r.deck, r.template, "", ExtensionOrEmpty(r.extension), SignedQuery(r)]
  {
    var parts := [r.deck, r.template, "", ExtensionOrEmpty(r.extension), SignedQuery(r)];
    assert forall i :: 0 <= i < |parts| ==> '#' !in parts[i];
    SplitJoin(parts, '#');
  }

  /** The version `to_query` writes for `__v`: the metadata's own, or the clock. */
  lemma VersionLeaf(meta: Meta, now: nat, policy: NullPolicy)
    ensures !VersionValue(meta, now).Dict? && !VersionValue(meta, now).List?
    ensures LeafText(VersionValue(meta, now), policy) == Some(VersionText(meta, now))
  {
  }

  /**
   * `__v` comes first in the merged parameters, holding the version unless a
   * variable of that name overrides its value; no key appears twice.
   */
  lemma ParamsFirst(r: FlyyerRender, now: nat)
    ensures Params(r, now) != []
    ensures Params(r, now)[0] == ("__v", if PyDict.HasKey(r.variables, "__v")
      then PyDict.LastValue(r.variables, "__v").value else VersionValue(r.meta, now))
    ensures PyDict.DistinctKeys(Params(r, now))
  {
    var front := DefaultV(r.meta, now);
    var d := PyDict.PutAll(front, WithoutV(r.meta));
    assert !PyDict.HasKey(WithoutV(r.meta), "__v");
    PyDict.PutAllFirst(front, WithoutV(r.meta));
    PyDict.PutAllFirst(d, r.variables);
    PyDict.PutAllKeepsDistinct(front, WithoutV(r.meta));
    PyDict.PutAllKeepsDistinct(d, r.variables);
  }

  /** Outside JWT, the query starts with the version when no variable is named `__v`. */
  lemma QueryStartsWithVersion(r: FlyyerRender, crypto: Crypto, now: nat)
    requires Valid(r) && RenderReady(r) && r.mode != Jwt
    requires Querystring(r, crypto, now).Success?
    requires !PyDict.HasKey(r.variables, "__v")
    ensures "__v=" + QuotePlus(VersionText(r.meta, now)) <= Querystring(r, crypto, now).value
  {
    var d := Params(r, now);
    ParamsFirst(r, now);
    var es := d;
    if r.mode == Hmac {
      es := HmacParams(r, HmacDigest(r, crypto).value, now);
      HmacParamsFirst(d, HmacDigest(r, crypto).value);
    }
    var vt := VersionText(r.meta, now);
    VersionLeaf(r.meta, now, OmitNull);
    QueryPairsFirst(es, OmitNull, vt);
    var ps := QueryPairs(Dict(es), OmitNull);
    assert Querystring(r, crypto, now).value == UrlEncode(ps);
    UrlEncodeFirst(ps);
    EncodeNamedPair("__v", vt);
    KeyTexts();
  }

  /** Appending `__hmac` to a dict without it keeps the first entry and the distinct keys. */
  lemma HmacParamsFirst(d: seq<(string, Value)>, digest: string)
    requires d != [] && d[0].0 == "__v" && PyDict.DistinctKeys(d)
    ensures PyDict.Put(d, "__hmac", Str(digest)) != []
    ensures PyDict.Put(d, "__hmac", Str(digest))[0] == d[0]
    ensures PyDict.DistinctKeys(PyDict.Put(d, "__hmac", Str(digest)))
  {
    PyDict.PutAllOne(d, "__hmac", Str(digest));
    PyDict.PutAllFirst(d, [("__hmac", Str(digest))]);
    PyDict.PutFacts(d, "__hmac", Str(digest));
  }

  /** `__hmac` is none of the metadata keys, so only a variable can bring it in before the digest. */
  lemma ParamsWithoutHmac(r: FlyyerRender, now: nat)
    requires !PyDict.HasKey(r.variables, "__hmac")
    ensures !PyDict.HasKey(Params(r, now), "__hmac")
  {
    var front := DefaultV(r.meta, now);
    assert !PyDict.HasKey(front, "__hmac");
    assert !PyDict.HasKey(WithoutV(r.meta), "__hmac");
    PyDict.PutAllHasKey(front, WithoutV(r.meta), "__hmac");
    PyDict.PutAllHasKey(PyDict.PutAll(front, WithoutV(r.meta)), r.variables, "__hmac");
  }

  /** Under HMAC the last pair `to_query` writes is the digest, when no variable is named `__hmac`. */
  lemma HmacLastPair(r: FlyyerRender, digest: string, now: nat)
    requires !PyDict.HasKey(r.variables, "__hmac")
    ensures QueryPairs(Dict(HmacParams(r, digest, now)), OmitNull) != []
    ensures var ps := QueryPairs(Dict(HmacParams(r, digest, now)), OmitNull);
      ps[|ps| - 1] == ("__hmac", digest)
  {
    var d := Params(r, now);
    var es := HmacParams(r, digest, now);
    ParamsFirst(r, now);
    ParamsWithoutHmac(r, now);
    PyDict.PutFacts(d, "__hmac", Str(digest));
    assert es[|es| - 1] == ("__hmac", Str(digest));
    QueryPairsLast(es, OmitNull, digest);
  }

  /**
   * Under HMAC the query ends with `__hmac=` and the digest, after an `&`
   * unless it is the only pair, when no variable is named `__hmac`.
   */
  lemma HmacQueryEnds(r: FlyyerRender, crypto: Crypto, now: nat)
    requires Valid(r) && RenderReady(r) && r.mode == Hmac && !TruthyInt(r.version)
    requires HexDigests(crypto)
    requires !PyDict.HasKey(r.variables, "__hmac")
    ensures EndsWithPart(Querystring(r, crypto, now).value, "__hmac=" + HmacDigest(r, crypto).value)
  {
    var digest := HmacDigest(r, crypto).value;
    DigestUnreserved(r, crypto);
    assert Querystring(r, crypto, now).value == QueryString(Dict(HmacParams(r, digest, now)), OmitNull);
    HmacParamsEnd(r, digest, now);
  }

  /**
   * Under HMAC the query is the unsigned query with `__hmac` and the digest
   * appended, when no variable is named `__hmac`.
   */
  lemma HmacQuery(r: FlyyerRender, crypto: Crypto, now: nat)
    requires Valid(r) && RenderReady(r) && r.mode == Hmac && !TruthyInt(r.version)
    requires !PyDict.HasKey(r.variables, "__hmac")
    ensures var q0 := QueryString(Dict(Params(r, now)), OmitNull);
      Querystring(r, crypto, now).value
      == (if q0 == "" then "" else q0 + "&") + "__hmac=" + QuotePlus(HmacDigest(r, crypto).value)
  {
    var digest := HmacDigest(r, crypto).value;
    assert Querystring(r, crypto, now).value == QueryString(Dict(HmacParams(r, digest, now)), OmitNull);
    HmacParamsQuery(r, digest, now);
  }

  /**
   * With a hex digest and no variable named `__v` either, the unsigned query
   * is not empty and the digest is written as it is.
   */
  lemma HmacQueryPlain(r: FlyyerRender, crypto: Crypto, now: nat)
    requires Valid(r) && RenderReady(r) && r.mode == Hmac && !TruthyInt(r.version)
    requires HexDigests(crypto)
    requires !PyDict.HasKey(r.variables, "__hmac") && !PyDict.HasKey(r.variables, "__v")
    ensures Querystring(r, crypto, now).value
         == QueryString(Dict(Params(r, now)), OmitNull) + "&__hmac=" + HmacDigest(r, crypto).value
  {
    HmacQuery(r, crypto, now);
    DigestUnreserved(r, crypto);
    QuotePlusUnreserved(HmacDigest(r, crypto).value);
    ParamsQueryNonEmpty(r, now);
    AmpersandTail(QueryString(Dict(Params(r, now)), OmitNull), HmacDigest(r, crypto).value);
  }

  lemma AmpersandTail(q0: string, digest: string)
    ensures q0 + "&" + "__hmac=" + digest == q0 + "&__hmac=" + digest
  {
  }

  /** The query of the HMAC parameters is the query of the parameters, then the digest pair. */
  lemma HmacParamsQuery(r: FlyyerRender, digest: string, now: nat)
    requires !PyDict.HasKey(r.variables, "__hmac")
    ensures var q0 := QueryString(Dict(Params(r, now)), OmitNull);
      QueryString(Dict(HmacParams(r, digest, now)), OmitNull)
      == (if q0 == "" then "" else q0 + "&") + "__hmac=" + QuotePlus(digest)
  {
    var d := Params(r, now);
    ParamsWithoutHmac(r, now);
    PyDict.PutAllOne(d, "__hmac", Str(digest));
    PyDict.PutAllAppend(d, "__hmac", Str(digest));
    QueryPairsAppend(d, "__hmac", Str(digest), OmitNull, digest);
    DigestPairText(QueryPairs(Dict(d), OmitNull), digest);
  }

  /** `urlencode` of pairs followed by the digest pair. */
  lemma DigestPairText(ps: seq<(string, string)>, digest: string)
    ensures var q0 := UrlEncode(ps);
      UrlEncode(ps + [("__hmac", digest)]) == (if q0 == "" then "" else q0 + "&") + "__hmac=" + QuotePlus(digest)
  {
    UrlEncodeSnoc(ps, ("__hmac", digest));
    UrlEncodeEmpty(ps);
    HmacPairText(digest);
  }

  lemma HmacPairText(digest: string)
    ensures EncodePair(("__hmac", digest)) == "__hmac=" + QuotePlus(digest)
  {
    EncodeNamedPair("__hmac", digest);
    KeyTexts();
  }

  /** Without a variable named `__v` the parameters write at least the version pair. */
  lemma ParamsQueryNonEmpty(r: FlyyerRender, now: nat)
    requires !PyDict.HasKey(r.variables, "__v")
    ensures QueryString(Dict(Params(r, now)), OmitNull) != ""
  {
    ParamsFirst(r, now);
    VersionLeaf(r.meta, now, OmitNull);
    QueryPairsFirst(Params(r, now), OmitNull, VersionText(r.meta, now));
    UrlEncodeEmpty(QueryPairs(Dict(Params(r, now)), OmitNull));
  }

  /** The digest is made of lowercase hex digits, which `quote_plus` keeps. */
  lemma DigestUnreserved(r: FlyyerRender, crypto: Crypto)
    requires RenderReady(r) && r.mode == Hmac && !TruthyInt(r.version)
    requires HexDigests(crypto)
    ensures forall i :: 0 <= i < |HmacDigest(r, crypto).value| ==> Unreserved(HmacDigest(r, crypto).value[i])
  {
    var digest := HmacDigest(r, crypto).value;
    assert forall i :: 0 <= i < |digest| ==> IsLowerHex(digest[i]);
  }

  /** The query of the HMAC parameters ends with the digest pair, for any digest `quote_plus` keeps. */
  lemma HmacParamsEnd(r: FlyyerRender, digest: string, now: nat)
    requires !PyDict.HasKey(r.variables, "__hmac")
    requires forall i :: 0 <= i < |digest| ==> Unreserved(digest[i])
    ensures EndsWithPart(QueryString(Dict(HmacParams(r, digest, now)), OmitNull), "__hmac=" + digest)
  {
    HmacLastPair(r, digest, now);
    var ps := QueryPairs(Dict(HmacParams(r, digest, now)), OmitNull);
    UrlEncodeEndsWithPlain(ps, "__hmac", digest);
    KeyTexts();
  }

  /** Under JWT the query is the token, then the version, and nothing else. */
  lemma JwtQuery(r: FlyyerRender, crypto: Crypto, now: nat)
    requires Valid(r) && RenderReady(r) && r.mode == Jwt
    ensures Querystring(r, crypto, now)
         == Success("__jwt=" + QuotePlus(JwtToken(r, crypto)) + "&__v=" + QuotePlus(VersionText(r.meta, now)))
  {
    var tok, vt := JwtToken(r, crypto), VersionText(r.meta, now);
    VersionLeaf(r.meta, now, OmitNull);
    QueryPairsTwoScalars(("__jwt", Str(tok)), ("__v", VersionValue(r.meta, now)), OmitNull, tok, vt);
    UrlEncodeTwo(("__jwt", tok), ("__v", vt));
    JwtQueryText(tok, vt);
  }

  lemma JwtQueryText(tok: string, vt: string)
    ensures EncodePair(("__jwt", tok)) + "&" + EncodePair(("__v", vt))
         == "__jwt=" + QuotePlus(tok) + "&__v=" + QuotePlus(vt)
  {
    EncodeNamedPair("__jwt", tok);
    EncodeNamedPair("__v", vt);
    KeyTexts();
    Regroup("__jwt=" + QuotePlus(tok), "&", "__v" + "=", QuotePlus(vt));
  }

  /** The parameter names as `urlencode` writes them, followed by `=`. */
  lemma KeyTexts()
    ensures "__jwt" + "=" == "__jwt="
    ensures "__v" + "=" == "__v="
    ensures "__hmac" + "=" == "__hmac="
    ensures "&" + ("__v" + "=") == "&__v="
  {
  }

  lemma Regroup(a: string, b: string, c: string, d: string)
    ensures a + b + (c + d) == a + (b + c) + d
  {
  }

  lemma PathNoQuery(r: FlyyerRender)
    requires '?' !in r.tenant
    requires r.mode != Jwt ==> '?' !in r.deck && '?' !in r.template && '?' !in ExtensionOrEmpty(r.extension)
    ensures '?' !in RenderPath(r)
  {
    if TruthyInt(r.version) && '?' in IntText(r.version.value) {
      IntTextChars(r.version.value, '?');
    }
    assert '?' !in RenderBase;
  }

  /** The URL splits at its first `?` into the path and the query `querystring` returns. */
  lemma HrefSplitsAtQuery(r: FlyyerRender, crypto: Crypto, now: nat)
    requires Valid(r) && RenderReady(r) && Querystring(r, crypto, now).Success?
    requires '?' !in r.tenant
    requires r.mode != Jwt ==> '?' !in r.deck && '?' !in r.template && '?' !in ExtensionOrEmpty(r.extension)
    ensures Href(r, crypto, now).Success?
    ensures CutAt(Href(r, crypto, now).value, '?') == Some((RenderPath(r), "?" + Querystring(r, crypto, now).value))
  {
    var path, q := RenderPath(r), Querystring(r, crypto, now).value;
    assert Href(r, crypto, now).value == path + ("?" + q);
    PathNoQuery(r);
    CutAtJoin(path, "?" + q, '?');
  }

  /**
   * Outside JWT the path after the base holds the tenant, the deck and the
   * template (with the version and extension suffixes) as three `/`-separated
   * segments, when none of them holds a `/`.
   */
  lemma RenderPathSegments(r: FlyyerRender)
    requires r.mode != Jwt
    requires '/' !in r.tenant && '/' !in r.deck && '/' !in r.template && '/' !in ExtensionOrEmpty(r.extension)
    ensures RenderBase + "/" <= RenderPath(r)
    ensures Split(RenderPath(r)[|RenderBase| + 1..], '/')
         == [r.tenant, r.deck, r.template + VersionSuffix(r.version) + ExtensionSuffix(r.extension)]
  {
    var last := r.template + VersionSuffix(r.version) + ExtensionSuffix(r.extension);
    if TruthyInt(r.version) && '/' in IntText(r.version.value) {
      IntTextChars(r.version.value, '/');
    }
    assert '/' !in last;
    var parts := [r.tenant, r.deck, last];
    SlashPath(RenderBase, r.tenant, r.deck, r.template, VersionSuffix(r.version), ExtensionSuffix(r.extension));
    assert RenderPath(r)[|RenderBase| + 1..] == Join(parts, '/');
    SplitJoin(parts, '/');
  }

  lemma SlashPath(base: string, a: string, b: string, c: string, x: string, y: string)
    ensures base + "/" + a + "/" + b + "/" + c + x + y == base + "/" + Join([a, b, c + x + y], '/')
  {
    JoinThree(a, b, c + x + y, '/');
  }
}
