# Flyyer URL builders in Dafny

This project models the URL-building core of the `flyyer` Python package and
its predecessor `flayyer`. Both packages turn a description of an image into a
URL on the Flyyer CDN:

- `Flyyer` (flyyer/flyyer.py) builds `https://cdn.flyyer.io/v2/<project>/<signature>/<query><path>`
  when it is unsigned or signed with HMAC. The query is the sorted, `&`-joined output of `to_query`.
  The signature is `_` when there is no strategy, the text `None` when the strategy is `""`, and a
  16-character HMAC-SHA256 prefix under HMAC. Under JWT the URL is
  `https://cdn.flyyer.io/v2/<project>/jwt-<token>?__v=<v>`, with no query and no path: the path
  and the parameters travel inside the HS256 JSON Web Token.
- `FlyyerRender` (flyyer/flyyer.py) builds `https://cdn.flyyer.io/render/v2/<tenant>/<deck>/<template>[.<version>][.<extension>]?<query>`.
  In HMAC mode an `__hmac` digest goes at the end of the query. In JWT mode the URL is `.../<tenant>?__jwt=<token>&__v=<v>`.
- `Flayyer` (flayyer/flayyer.py) builds `https://flayyer.host/v2/<tenant>/<deck>/<template>[.<version>].<extension>?<query>`.
- `to_query` flattens a nested `dict` into bracket-path keys (`a[b][0]`). It writes booleans as
  `true`/`false` and hands the flat dict to `urllib.parse.urlencode`. The `flyyer` copy drops
  `None` leaves. The `flayyer` copy writes them as `key=`.

Modules, one per concern:

| module | file | models |
|---|---|---|
| `Wrappers` | wrappers.dfy | `Option`, and `Result` for the exceptions the source raises |
| `Text` | text.dfy | `str(int)`, `split`/`join` on one character, `s[:n]`, ASCII lower-casing and encoding, cutting at a character |
| `Lists` | lists.dfy | `map` and `concat-map` over sequences and their permutation facts |
| `PyDict` | py_dict.dfy | Python's insertion-ordered `dict`: assignment keeps a key's first position; `{**a, **b}` |
| `JsonValue` | json_value.dfy | the values variables, metadata and token payloads are made of |
| `FormEncoding` | form_encoding.dfy | `quote_plus` (UTF-8, `safe=''`) and `urlencode` of string pairs, with their decoders |
| `QueryEncoder` | query_encoder.dfy | `to_query`, under both `None` policies: the recursive procedure as written (a class holding the mutated global dict) and a functional specification |
| `Sorting` | sorting.dfy | `list.sort()` on strings: an in-place insertion sort proved against a functional sort |
| `Signing` | signing.dfy | the strategy/secret check both constructors make, the signing mode, and the crypto primitives passed in as functions |
| `FlyyerMeta` | flyyer_meta.dfy | `FlyyerMeta` and `meta.get("v", str(int(time())))` |
| `FlyyerLib` | flyyer.dfy | the `Flyyer` class |
| `FlyyerRenderLib` | flyyer_render.dfy | the `FlyyerRender` class |
| `FlayyerLib` | flayyer.dfy | the `Flayyer` class |

Each client object is built once and never changed afterwards. So each one is a
datatype, and its constructor is a function that returns `Result` with the
constructor's exception. `time()` is a `now: nat` parameter. HMAC-SHA256 and
HS256 JWT are parameters of type `Signing.Crypto`. The ghost predicate
`Signing.HexDigests` states only the shape of `hexdigest()` (64 lowercase hex
digits). Properties that depend on that shape require it.

Under HMAC, `FlyyerRender.querystring` joins `self.version or ""` into a string.
A truthy integer version makes that join raise `TypeError`. The model returns
`Failure(VersionNotStr)` in exactly that case.

## Model

| member | source | states |
|---|---|---|
| Text.NatText | flyyer/flyyer.py:159 | `str(n)` of a non-negative integer is a non-empty run of decimal digits with no leading zero |
| Text.NatTextValue | flyyer/flyyer.py:159 | `int(str(n)) == n`: the timestamp text reads back as the timestamp |
| Text.IntText | flayyer/flayyer.py:33 | `str(n)` of an integer is `str(n)` of a natural, or `-` and the digits of `-n` |
| Text.Split | flyyer/flyyer.py:188 | `s.split(sep)` gives at least one part, no part holds `sep`, and joining the parts gives back `s` |
| Text.SplitJoin | flyyer/flyyer.py:188-190 | splitting `sep.join(parts)` gives back `parts` when no part holds `sep` |
| Text.Prefix | flyyer/flyyer.py:199 | `s[:n]` is a prefix of `s` of length `min(n, len(s))` |
| Text.AsciiLower | flyyer/flyyer.py:144 | `s.lower()` maps each character through ASCII lower-casing and keeps the length |
| Text.AsciiBytes | flyyer/flyyer.py:196 | `s.encode("ASCII")` gives one byte per character with its code point |
| Text.JoinAscii | flyyer/flyyer.py:66-79 | joining ASCII parts with an ASCII separator gives ASCII, so `.encode("ASCII")` of the HMAC data succeeds |
| Text.CutAt | flyyer/flyyer.py:120 | cutting at the first `c` gives a part without `c` and a rest that starts with `c`, whose concatenation is the input; `None` exactly when `c` is absent |
| PyDict.PutFacts | flyyer/flyyer.py:235 | `d[k] = v` keeps an existing key in place with the new value, appends a new key, changes no other key, and keeps keys distinct |
| PyDict.PutAllGet | flyyer/flyyer.py:170 | in `{**d, **xs}` the last assignment to a key wins and keys `xs` never assigns keep their value from `d` |
| PyDict.PutAllConcat | flyyer/flyyer.py:81-88 | assigning `xs` and then `ys` is assigning `xs + ys` |
| PyDict.PutAllFirst | flyyer/flyyer.py:170 | the first key of `d` stays first through `{**d, **xs}` and holds the last value assigned to it |
| PyDict.PutAllKeepsDistinct | flyyer/flyyer.py:170 | dict assignments never make a key appear twice |
| PyDict.PutAllDistinct | flyyer/flyyer.py:243-245 | assigning distinct-keyed entries into `{}` reproduces them in order |
| PyDict.PutAllAppend | flyyer/flyyer.py:81-88 | assigning a key the dict lacks appends it last |
| PyDict.PutAllHasKey | flyyer/flyyer.py:170 | the keys of `{**d, **xs}` are those of `d` and those of `xs` |
| JsonValue.FilterNulls | flyyer/flyyer.py:201 | the comprehension keeps exactly the entries whose value is not `None`; one entry is kept as it is or dropped |
| JsonValue.FilterNullsConcat | flyyer/flyyer.py:201 | the comprehension keeps the entries in their order: filtering `a + b` is filtering `a`, then `b` |
| FormEncoding.Utf8 | flyyer/flyyer.py:247 | UTF-8 encodes a character in 1 to 4 bytes, in one byte exactly when it is ASCII |
| FormEncoding.Utf8Lead | flyyer/flyyer.py:247 | the first byte of a character's UTF-8 encoding gives the encoding's length |
| FormEncoding.Utf8Injective | flyyer/flyyer.py:247 | different characters have different UTF-8 encodings |
| FormEncoding.Utf8StringInjective | flyyer/flyyer.py:247 | `s.encode("utf-8") == t.encode("utf-8")` only when `s == t` |
| FormEncoding.QuotePlus | flyyer/flyyer.py:247 | `quote_plus` writes only form-safe characters (never `&`, `=`, `/`, `?`) and never shortens its input |
| FormEncoding.QuotePlusRoundTrip | flyyer/flyyer.py:247 | `unquote_plus(quote_plus(s))` gives the UTF-8 bytes of `s` |
| FormEncoding.QuotePlusUnreserved | flyyer/flyyer.py:247 | `quote_plus` leaves a string of unreserved characters unchanged |
| FormEncoding.NatTextUnreserved | flyyer/flyyer.py:247 | `quote_plus(str(n))` is `str(n)` |
| FormEncoding.EncodedPairs | flyyer/flyyer.py:247 | `urlencode` writes one `key=value` part per pair, in order |
| FormEncoding.EncodeNamedPair | flyyer/flyyer.py:247 | a pair with an unreserved key is written `key=` followed by the quoted value |
| FormEncoding.SplitUrlEncode | flyyer/flyyer.py:247 | splitting the `urlencode` output at `&` gives back the encoded pairs |
| FormEncoding.UrlEncodeEmpty | flyyer/flyyer.py:247 | `urlencode` writes `""` exactly for no pairs |
| FormEncoding.UrlEncode | flyyer/flyyer.py:247 | every character of the `urlencode` output is form-safe or one of `=`, `&`; `UrlEncodeRoundTrip` and `UrlEncodeInjective` are its inverse |
| FormEncoding.UrlEncodeRoundTrip | flyyer/flyyer.py:247 | decoding the `urlencode` output gives back every pair, keys and values as UTF-8 bytes |
| FormEncoding.UrlEncodeInjective | flyyer/flyyer.py:247 | two pair lists with the same `urlencode` output are equal, so decoding tells distinct keys and values apart |
| FormEncoding.UrlEncodeAscii | flyyer/flyyer.py:247 | the `urlencode` output is ASCII |
| FormEncoding.UrlEncodeFirst | flyyer/flyyer.py:247 | the `urlencode` output starts with the first encoded pair |
| FormEncoding.UrlEncodeLast | flyyer/flyyer.py:247 | the `urlencode` output ends with `&` and the last encoded pair, when there are two or more |
| FormEncoding.UrlEncodeSnoc | flyyer/flyyer.py:247 | one more pair adds its encoding at the end, after `&` unless it is the only pair |
| FormEncoding.UrlEncodeTwo | flyyer/flyyer.py:247 | two pairs are written as the first, `&`, and the second |
| FormEncoding.UrlEncodeEndsWith | flyyer/flyyer.py:247 | the last encoded pair is a whole `&`-separated part at the end of the output |
| FormEncoding.UrlEncodeEndsWithPlain | flyyer/flyyer.py:247 | a last pair of unreserved key and value appears verbatim as the last part |
| QueryEncoder.Children | flyyer/flyyer.py:226-233 | a dict child `k` of key `p` is named `p[k]` and a list element `i` is named `p[i]`, in order; a leaf has no children |
| QueryEncoder.QueryAccumulator.constructor | flyyer/flyyer.py:220 | the global flat dict starts empty |
| QueryEncoder.QueryAccumulator.Put | flyyer/flyyer.py:235 | `g_encode_params[p_key] = x` is a dict assignment |
| QueryEncoder.EncodeParams | flyyer/flyyer.py:222-241 | `_encode_params(v, key)` assigns exactly the flattened pairs of `v` into the global dict, in order |
| QueryEncoder.EncodeNode | flyyer/flyyer.py:223-237 | a leaf writes its pair (`true`/`false` for booleans; nothing for `None` in `flyyer`) and a dict or list returns its named children |
| QueryEncoder.DictChildren | flyyer/flyyer.py:226-229 | the loop over a dict builds its named children |
| QueryEncoder.ListChildren | flyyer/flyyer.py:230-233 | the loop over a list builds its indexed children |
| QueryEncoder.EncodeChildren | flyyer/flyyer.py:239-241 | recursing over the children assigns the flattened pairs of each child, in order |
| QueryEncoder.QueryString | flyyer/flyyer.py:243-247 | `to_query` of anything but a dict is `""`, and its output holds only form-safe characters, `=` and `&`; `ToQuery` is the procedure as written and `FlattenSound`, `FlattenComplete` and `FlattenOrder` say which pairs it holds and in what order |
| QueryEncoder.ToQuery | flyyer/flyyer.py:219-247 | `to_query` equals its functional specification under either `None` policy (the `flayyer` copy, flayyer/flayyer.py:39-67, is the empty-for-`None` one); a non-dict argument gives `""` |
| QueryEncoder.FlattenSound | flyyer/flyyer.py:222-241 | every pair written comes from a leaf reachable by a route of child indices, under the bracket-path key of that route |
| QueryEncoder.FlattenComplete | flyyer/flyyer.py:222-241 | every leaf reachable by a route writes its pair under the route's bracket-path key |
| QueryEncoder.FlattenOrder | flyyer/flyyer.py:226-241 | the leaves are written depth-first, children in order: when the route to one leaf comes before the route to another, its pair is written first |
| QueryEncoder.FlattenKeys | flyyer/flyyer.py:228-232 | every key written below `p` is `p` or starts with `p[` |
| QueryEncoder.PoliciesAgreeWithoutNull | flayyer/flayyer.py:44-45 | on values without `None`, the two `to_query` copies write the same pairs |
| QueryEncoder.FlattenAllPermutation | flyyer/flyyer.py:243-245 | permuting the top-level entries permutes the flattened pairs |
| QueryEncoder.QueryPairsDistinct | flyyer/flyyer.py:243-247 | when the flattened keys are distinct, the global dict holds exactly the flattened pairs in order |
| QueryEncoder.QueryPairsPermutation | flyyer/flyyer.py:243-247 | permuting the top-level entries permutes the pairs `urlencode` receives, when keys do not collide |
| QueryEncoder.FlattenAllMissing | flyyer/flyyer.py:228-232 | a key without `[` that no top-level entry has is never written |
| QueryEncoder.QueryPairsFirst | flyyer/flyyer.py:243-247 | a first entry holding a scalar is written first |
| QueryEncoder.QueryPairsAppend | flyyer/flyyer.py:221-247 | a fresh bracket-free scalar entry after any others adds exactly its pair after theirs |
| QueryEncoder.QueryPairsLast | flyyer/flyyer.py:243-247 | a last entry holding a scalar is written last |
| QueryEncoder.QueryPairsTwoScalars | flyyer/flyyer.py:243-247 | two distinct scalar entries are written as exactly those two pairs, in order |
| QueryEncoder.SimpleStringify | tests/test_flyyer.py:12-15 | `{"a": "hello", "b": 999, "c": False, "d": None}` becomes `a=hello&b=999&c=false`, and `...&d=` under the empty-for-`None` policy |
| QueryEncoder.SimpleStringifyPairs | tests/test_flayyer.py:44-47 | the pairs `urlencode` receives for that dict under each policy |
| QueryEncoder.ComplexStringify | tests/test_flyyer.py:18-21 | `{"a": {"aa": "bar", "ab": "foo"}, "b": [{"c": "foo"}, {"c": "bar"}]}` is written as the pairs `a[aa]=bar`, `a[ab]=foo`, `b[0][c]=foo`, `b[1][c]=bar` in that order, and its output decodes to them (also tests/test_flayyer.py:50-53) |
| Sorting.BelowTotal | flyyer/flyyer.py:189 | Python's string order is total |
| Sorting.BelowTransitive | flyyer/flyyer.py:189 | Python's string order is transitive |
| Sorting.BelowAntisymmetric | flyyer/flyyer.py:189 | Python's string order is antisymmetric |
| Sorting.Insert | flyyer/flyyer.py:189 | inserting into a sorted list keeps it sorted and adds exactly that element |
| Sorting.SortSeq | flyyer/flyyer.py:189 | the functional sort returns a sorted permutation of its input |
| Sorting.SortedUnique | flyyer/flyyer.py:189 | two sorted permutations of the same strings are equal, so the sort result is unique |
| Sorting.SortInPlace | flyyer/flyyer.py:189 | `aux.sort()` leaves the array sorted, a permutation of its old contents, equal to the functional sort |
| Sorting.SinkLast | flyyer/flyyer.py:189 | one insertion step extends the sorted prefix by one element and permutes the array |
| Signing.CheckStrategy | flyyer/flyyer.py:144-153 | each of the three exceptions is raised exactly when its condition holds and the earlier ones do not; on success the object signs iff the strategy is truthy (`FlyyerRender` makes the same check at lines 41-50) |
| Signing.CheckedConsistent | flyyer/flyyer.py:193 | after a successful check the object signs iff the secret is truthy, and a blank strategy has no secret |
| Signing.Digest16 | flyyer/flyyer.py:199 | `hexdigest()[:16]` is a prefix of the digest, and 16 lowercase hex digits when the digest has its usual shape |
| FlyyerLib.NormalizePath | flyyer/flyyer.py:138 | the stored path starts with `/`; it is the given path iff that already did, otherwise `/` and the path |
| FlyyerLib.NormalizePathIdempotent | flyyer/flyyer.py:138 | normalizing a normalized path changes nothing |
| FlyyerLib.NewFlyyer | flyyer/flyyer.py:127-153 | construction fails exactly when the strategy check fails, with its exception; otherwise the object keeps project, secret, variables, meta and default, its path is normalized, its mode is the one the check gives (no strategy exactly for `strategy=None`, HMAC exactly for `hmac` in any case), and it is consistent |
| FlyyerLib.ParamsHash | flyyer/flyyer.py:155-170 | in `{**defaults, **variables}` a variable overrides the default of its name and every other default stays; no key appears twice |
| FlyyerLib.ParamsHashVersion | flyyer/flyyer.py:155-170 | `__v` is absent when ignored, otherwise the `v` metadata or the timestamp, unless a variable overrides it |
| FlyyerLib.ParamsHashIgnoresVersion | flyyer/flyyer.py:157-170 | with `ignoreV`, the params depend on neither the `v` metadata nor the clock |
| FlyyerLib.JwtPayloadComplete | flyyer/flyyer.py:172-184 | the token payload holds exactly `path` and `params`, neither of which is `None`, so the comprehension at line 201 keeps both |
| FlyyerLib.Querystring | flyyer/flyyer.py:186-190 | the query holds only form-safe characters, `=` and `&`, so it is ASCII and has no `/`; `SortedQueryShape` and `SortedQueryOrderFree` give its parts and their order |
| FlyyerLib.ComputeQuerystring | flyyer/flyyer.py:186-190 | the method (split, in-place sort, join) computes the specified query string |
| FlyyerLib.SortedQueryShape | flyyer/flyyer.py:186-190 | the query is `""` for no pairs; otherwise its `&`-parts are sorted and are exactly the encoded pairs |
| FlyyerLib.SortedQueryOrderFree | flyyer/flyyer.py:186-190 | the query does not depend on the order of the pairs |
| FlyyerLib.EncodedPairsPermutation | flyyer/flyyer.py:188 | permuting the pairs permutes their encodings |
| FlyyerLib.SortedQueryChars | flyyer/flyyer.py:188-190 | the query holds only form-safe characters, `=` and `&` |
| FlyyerLib.HmacDataAscii | flyyer/flyyer.py:198 | the HMAC data is ASCII when project and path are, so its `.encode("ASCII")` succeeds |
| FlyyerLib.Sign | flyyer/flyyer.py:192-202 | `None` exactly for a blank strategy, `_` without a strategy; under HMAC the first 16 hex digits of the HMAC keyed by the secret over the ASCII bytes of project + path + `querystring(True)` (16 lowercase hex digits when the digest has its usual shape); under JWT the token over the payload keyed by the secret |
| FlyyerLib.SignIgnoresVersion | flyyer/flyyer.py:192-199 | the signature depends on neither the `v` metadata nor the clock |
| FlyyerLib.Href | flyyer/flyyer.py:204-211 | the URL starts with the CDN base and the project; outside JWT it ends with the path, under JWT with `?__v=` and the version; `HrefParse` reads it back |
| FlyyerLib.HrefParse | flyyer/flyyer.py:204-211 | outside JWT mode the URL parses back into project, signature, query and path |
| FlyyerLib.SignatureNoSlash | flyyer/flyyer.py:192-199 | outside JWT mode the signature text holds no `/` |
| FlyyerLib.HrefJwt | flyyer/flyyer.py:206-208 | in JWT mode the URL is the CDN base, the project, `/jwt-`, the token and `?__v=` with the version |
| FlyyerRenderLib.NewFlyyerRender | flyyer/flyyer.py:20-50 | construction fails exactly when the strategy check fails, with its exception; otherwise every field is kept, the object is consistent, and it uses JWT iff the strategy is truthy and `jwt` in any case |
| FlyyerRenderLib.Params | flyyer/flyyer.py:53-62 | in `{**default_v, **defaults_without_v, **variables}` (line 108) a variable overrides the metadata of its name, which overrides `__v` |
| FlyyerRenderLib.HmacData | flyyer/flyyer.py:66-79 | the join raises `TypeError` exactly when the version is a truthy integer |
| FlyyerRenderLib.HmacDataFields | flyyer/flyyer.py:66-79 | the HMAC data splits at `#` into deck, template, the empty version, extension and the query of the non-version params |
| FlyyerRenderLib.HmacDataAscii | flyyer/flyyer.py:66-79 | the HMAC data is ASCII when deck, template and extension are |
| FlyyerRenderLib.HmacDigest | flyyer/flyyer.py:63-80 | the digest fails exactly for a truthy integer version; otherwise it is the first 16 hex digits of the HMAC keyed by the secret over the ASCII bytes of `HmacData`, 16 lowercase hex digits when the digest has its usual shape |
| FlyyerRenderLib.Querystring | flyyer/flyyer.py:52-108 | the query fails exactly under HMAC with a truthy integer version; unsigned it is `to_query({**default_v, **defaults_without_v, **variables})`; `HmacQuery` gives the whole HMAC query and `JwtQuery` the JWT one |
| FlyyerRenderLib.VersionLeaf | flyyer/flyyer.py:53-55 | the `__v` value is a scalar written as the version text |
| FlyyerRenderLib.ParamsFirst | flyyer/flyyer.py:81-88 | `__v` is the first parameter, holding the overriding variable or the version, and no key repeats |
| FlyyerRenderLib.QueryStartsWithVersion | flyyer/flyyer.py:81-108 | outside JWT mode the query starts with `__v=` and the quoted version, unless a variable overrides it |
| FlyyerRenderLib.HmacLastPair | flyyer/flyyer.py:81-88 | `__hmac` is the last pair written |
| FlyyerRenderLib.HmacParamsEnd | flyyer/flyyer.py:81-88 | an unreserved digest appears verbatim as the last `&`-part of the query |
| FlyyerRenderLib.DigestUnreserved | flyyer/flyyer.py:80 | the digest holds only unreserved characters |
| FlyyerRenderLib.HmacQuery | flyyer/flyyer.py:80-88 | under HMAC, without a variable `__hmac`, the query is the unsigned query, `&` unless that is empty, and `__hmac=` with the quoted digest |
| FlyyerRenderLib.HmacQueryPlain | flyyer/flyyer.py:80-88 | with a hex digest and no variable `__hmac` or `__v`, the query is exactly the unsigned query + `&__hmac=` + the digest |
| FlyyerRenderLib.JwtPayloadEntries | flyyer/flyyer.py:90-104 | the merge `{"d", "t", "v", "e", **jwt_defaults}` holds the ten entries in the order written, `None` values kept |
| FlyyerRenderLib.HmacQueryEnds | flyyer/flyyer.py:63-88 | under HMAC the query ends with the part `__hmac=<digest>` |
| FlyyerRenderLib.JwtQuery | flyyer/flyyer.py:105-106 | under JWT the query is `__jwt=<quoted token>&__v=<quoted version>` |
| FlyyerRenderLib.RenderPath | flyyer/flyyer.py:112-119 | the path starts with the base and the tenant, and stops there exactly under JWT |
| FlyyerRenderLib.Href | flyyer/flyyer.py:110-120 | the URL fails exactly when the query does |
| FlyyerRenderLib.PathNoQuery | flyyer/flyyer.py:112-119 | the path part holds no `?` when tenant, deck, template and extension hold none |
| FlyyerRenderLib.HrefSplitsAtQuery | flyyer/flyyer.py:110-120 | the URL cuts at its first `?` into the render path and the query |
| FlyyerRenderLib.RenderPathSegments | flyyer/flyyer.py:115-119 | outside JWT mode the path after the base splits at `/` into tenant, deck, and template with the version and extension suffixes |
| FlayyerLib.NewFlayyer | flayyer/flayyer.py:7-21 | every argument is kept as given, with the `jpeg` extension by default (`DefaultFileName`) |
| FlayyerLib.Querystring | flayyer/flayyer.py:23-28 | the query holds only form-safe characters, `=` and `&` |
| FlayyerLib.Href | flayyer/flayyer.py:30-34 | the URL starts with the host and ends with `?` and the query |
| FlayyerLib.ParamsFirst | flayyer/flayyer.py:25-28 | `__v` is the first parameter, holding the overriding variable or the timestamp, and no key repeats |
| FlayyerLib.QueryStartsWithTimestamp | flayyer/flayyer.py:24-28 | the query starts with `__v=` and the timestamp, unless a variable overrides it |
| FlayyerLib.DefaultFileName | flayyer/flayyer.py:13 | without version and extension the file name is `<template>.jpeg` |
| FlayyerLib.FileNameChars | flayyer/flayyer.py:32-34 | the file name holds no `/` or `?` that template and extension do not |
| FlayyerLib.HrefSplitsAtQuery | flayyer/flayyer.py:31-34 | the URL cuts at its first `?` into the path and the query |
| FlayyerLib.PathSegments | flayyer/flayyer.py:31-34 | the path is the host followed by tenant, deck and file name as three `/`-separated segments |

## Left out

- Cryptography: HMAC-SHA256 and HS256 JWT are function parameters. Only the shape of a hex digest is assumed (`Signing.HexDigests`), never what the digest or token is.
- `time()` is the parameter `now`. `FlyyerLib.Href` passes one `now` to both `sign` and `querystring`, so the model reads the clock once where the source reads it twice. This loses nothing: `sign` calls `querystring(True)`, which pops `__v`, the only field the clock feeds (`FlyyerLib.SignIgnoresVersion`).
- Floats, tuples (a tuple is a `List`), non-string dict keys, `Mapping` types other than `dict`, and cyclic values are not modelled. Keys are strings formatted with `str.format`.
- `__str__` only returns `href()`, so it is not modelled.
- `str.lower()` is modelled on ASCII letters only. A non-ASCII strategy that lower-cases to `hmac` or `jwt` under Unicode rules is not covered.
- FlyyerLib.Sign: requires `SignReady`, an ASCII secret and ASCII project and path. The `UnicodeEncodeError` that `.encode("ASCII")` raises otherwise is not modelled. `SignReady` also excludes `strategy=""` with the default `secret=None`: the constructor accepts it, and `sign` then raises `AttributeError` at `self.secret.encode` (flyyer/flyyer.py:196). That exception is not modelled either; `strategy=""` with `secret=""` is, and signs as `None`.
- FlyyerLib.Href: requires `SignReady` as `Sign` does, so it leaves out the same two exceptions.
- FlyyerRenderLib.Querystring: requires `RenderReady`, an ASCII secret, and ASCII deck, template and extension under HMAC. The `UnicodeEncodeError` otherwise is not modelled.
- FlyyerLib.NewFlyyer: `path=None` makes `path.startswith` raise `AttributeError`; the model takes a string path.
- FlyyerLib.Querystring: independence from the order of `variables` is proved for the pairs written (`QueryEncoder.QueryPairsPermutation` and `FlyyerLib.SortedQueryOrderFree`). It is not carried through `{**defaults, **variables}`.
- QueryEncoder.QueryPairsPermutation: proved only when the flattened keys do not collide. A collision, such as a top-level key `a[b]` beside `{"a": {"b": ...}}`, makes the global dict keep only the last value.
- A `Dict` with a repeated key is not a Python dict. `to_query` on one writes every entry, where a Python literal keeps only the last value, so the model's `to_query` matches Python only on values whose keys are distinct at every level. Every dict the source hands to `to_query` is a real dict, and the model's own merges (`PyDict.PutAllKeepsDistinct`) keep top-level keys distinct.
- The JSON Web Token payload of `FlyyerRender` is built as a value, but its JSON serialisation belongs to the JWT library and is not modelled.
- The tests expect the `flayyer.io` host and old URL layouts. The model follows the code, which writes `https://flayyer.host/v2/`.
