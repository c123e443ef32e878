/**
 * What `Flyyer` and `FlyyerRender` share about signing: the check of
 * `strategy` and `secret` their constructors make, the strategy fixed once
 * at construction, and the two cryptographic primitives, which are passed in
 * as functions (HMAC-SHA256 as a lowercase hex digest, and an HS256 JSON Web
 * Token over a payload).
 */
module Signing {
  import opened Wrappers
  import opened Text
  import opened JsonValue

  /** Python truthiness of an optional string: `None` and `""` are false. */
  predicate Truthy(o: Option<string>)
  {
    o.Some? && o.value != ""
  }

  /**
   * The strategy as the constructor leaves it.  `Blank` is `strategy=""`: it
   * is not `None`, yet it is false, and the constructor lets it through.
   */
  datatype Mode = NoStrategy | Blank | Hmac | Jwt
  {
    predicate Signed()
    {
      this == Hmac || this == Jwt
    }
  }

  /** The three exceptions the constructors raise. */
  datatype ConfigError =
    | InvalidStrategy   // a strategy other than `hmac` or `jwt`, in any case
    | MissingSecret     // a strategy without a secret
    | MissingStrategy   // a secret without a strategy

  predicate IsHmac(s: string)
  {
    AsciiLower(s) == "hmac"
  }

  predicate IsJwt(s: string)
  {
    AsciiLower(s) == "jwt"
  }

  /** The validation both constructors make, in the order they make it. */
  function CheckStrategy(strategy: Option<string>, secret: Option<string>): (r: Result<Mode, ConfigError>)
    ensures r == Failure(InvalidStrategy) <==> Truthy(strategy) && !IsHmac(strategy.value) && !IsJwt(strategy.value)
    ensures r == Failure(MissingSecret) <==>
      Truthy(strategy) && (IsHmac(strategy.value) || IsJwt(strategy.value)) && !Truthy(secret)
    ensures r == Failure(MissingStrategy) <==> Truthy(secret) && !Truthy(strategy)
    ensures r.Success? ==> (r.value.Signed() <==> Truthy(strategy))
    ensures r.Success? ==> (r.value == NoStrategy <==> strategy.None?)
    ensures r.Success? && strategy.Some? ==> (r.value == Hmac <==> IsHmac(strategy.value))
  {
    if Truthy(strategy) && !IsHmac(strategy.value) && !IsJwt(strategy.value) then Failure(InvalidStrategy)
    else if Truthy(strategy) && !Truthy(secret) then Failure(MissingSecret)
    else if Truthy(secret) && !Truthy(strategy) then Failure(MissingStrategy)
    else Success(ModeOf(strategy))
  }

  function ModeOf(strategy: Option<string>): Mode
  {
    match strategy
    case None => NoStrategy
    case Some(s) => if s == "" then Blank else if IsHmac(s) then Hmac else Jwt
  }

  /**
   * After a successful check, a secret is present exactly when the strategy
   * signs: the consistency `sign` relies on without checking again.
   */
  lemma CheckedConsistent(strategy: Option<string>, secret: Option<string>)
    requires CheckStrategy(strategy, secret).Success?
    ensures CheckStrategy(strategy, secret).value.Signed() <==> Truthy(secret)
    ensures CheckStrategy(strategy, secret).value == Blank ==> !Truthy(secret)
  {
  }

  /** The cryptographic primitives: `hmac.new(key, data, sha256).hexdigest()` and `jwt.encode(payload, key, "HS256")`. */
  datatype Crypto = Crypto(
    hmacSha256Hex: (seq<byte>, seq<byte>) -> string,
    jwtHs256: (Value, seq<byte>) -> string)

  predicate IsLowerHex(c: char)
  {
    ('0' <= c <= '9') || ('a' <= c <= 'f')
  }

  /** What `hexdigest()` of SHA-256 always gives: 64 lowercase hex digits. */
  ghost predicate HexDigests(crypto: Crypto)
  {
    forall key, data :: |crypto.hmacSha256Hex(key, data)| == 64 &&
      forall i :: 0 <= i < 64 ==> IsLowerHex(crypto.hmacSha256Hex(key, data)[i])
  }

  /** `hmac.new(key, data, sha256).hexdigest()[:16]`. */
  function Digest16(crypto: Crypto, key: seq<byte>, data: seq<byte>): (r: string)
    ensures r <= crypto.hmacSha256Hex(key, data)
    ensures HexDigests(crypto) ==> |r| == 16 && forall i :: 0 <= i < 16 ==> IsLowerHex(r[i])
  {
    Prefix(crypto.hmacSha256Hex(key, data), 16)
  }
}
