/**
 * `urllib.parse.urlencode` with its default `quote_plus`: every key and value
 * is UTF-8 encoded, the unreserved characters of section 2.3 of RFC 3986
 * (letters, digits, `_ . - ~`) are kept, a space becomes `+`, and every other
 * byte is written as `%XX` with upper-case hex digits.  Pairs are written
 * `key=value` and joined with `&`.
 */
module FormEncoding {
  import opened Text

  predicate Unreserved(c: char)
  {
    ('A' <= c <= 'Z') || ('a' <= c <= 'z') || ('0' <= c <= '9') || c == '_' || c == '.' || c == '-' || c == '~'
  }

  /** The characters `quote_plus` can produce. */
  predicate FormSafe(c: char)
  {
    Unreserved(c) || c == '+' || c == '%'
  }

  /** UTF-8 encoding of one Unicode scalar value. */
  function Utf8(c: char): (bs: seq<byte>)
    ensures 1 <= |bs| <= 4
    ensures (c as int < 128) == (|bs| == 1)
    ensures |bs| == 1 ==> bs[0] == c as int
  {
    var n := c as int;
    if n < 0x80 then [n]
    else if n < 0x800 then [0xC0 + n / 0x40, 0x80 + n % 0x40]
    else if n < 0x1_0000 then [0xE0 + n / 0x1000, 0x80 + (n / 0x40) % 0x40, 0x80 + n % 0x40]
    else [0xF0 + n / 0x4_0000, 0x80 + (n / 0x1000) % 0x40, 0x80 + (n / 0x40) % 0x40, 0x80 + n % 0x40]
  }

  /** `s.encode("utf-8")`. */
  function Utf8String(s: string): seq<byte>
  {
    if s == [] then [] else Utf8(s[0]) + Utf8String(s[1..])
  }

  /** How many bytes a UTF-8 sequence starting with the byte `b` takes. */
  function Utf8Length(b: byte): nat
  {
    if b < 0x80 then 1 else if b < 0xE0 then 2 else if b < 0xF0 then 3 else 4
  }

  /** The first byte of a character's encoding says how long the encoding is. */
  lemma Utf8Lead(c: char)
    ensures |Utf8(c)| == Utf8Length(Utf8(c)[0])
  {
  }

  /** Different characters have different encodings. */
  lemma Utf8Injective(c: char, d: char)
    requires Utf8(c) == Utf8(d)
    ensures c == d
  {
    var n, m := c as int, d as int;
    if |Utf8(c)| == 2 {
      assert n / 0x40 == m / 0x40 && n % 0x40 == m % 0x40;
    } else if |Utf8(c)| == 3 {
      Utf8Injective3(n, m);
    } else if |Utf8(c)| == 4 {
      Utf8Injective4(n, m);
    }
  }

  lemma Utf8Injective3(n: nat, m: nat)
    requires n / 0x1000 == m / 0x1000 && (n / 0x40) % 0x40 == (m / 0x40) % 0x40 && n % 0x40 == m % 0x40
    ensures n == m
  {
    DivSixBits(n);
    DivSixBits(m);
  }

  lemma Utf8Injective4(n: nat, m: nat)
    requires n / 0x4_0000 == m / 0x4_0000 && (n / 0x1000) % 0x40 == (m / 0x1000) % 0x40
    requires (n / 0x40) % 0x40 == (m / 0x40) % 0x40 && n % 0x40 == m % 0x40
    ensures n == m
  {
    DivSixBits(n);
    DivSixBits(m);
  }

  /** Dividing by `0x1000` or `0x4_0000` is dividing by `0x40` two or three times. */
  lemma DivSixBits(n: nat)
    ensures n / 0x1000 == (n / 0x40) / 0x40
    ensures n / 0x4_0000 == (n / 0x1000) / 0x40
  {
    DivTwice(n);
    DivTwiceBig(n);
  }

  lemma DivTwice(n: nat)
    ensures n / 0x1000 == (n / 0x40) / 0x40
  {
    var x, a := n / 0x40, n % 0x40;
    var y, b := x / 0x40, x % 0x40;
    assert n == 0x1000 * y + (0x40 * b + a);
  }

  lemma DivTwiceBig(n: nat)
    ensures n / 0x4_0000 == (n / 0x1000) / 0x40
  {
    var x, a := n / 0x1000, n % 0x1000;
    var y, b := x / 0x40, x % 0x40;
    assert n == 0x4_0000 * y + (0x1000 * b + a);
  }

  /**
   * `s.encode("utf-8")` tells strings apart: equal encodings come from equal
   * strings, so bytes read back by a decoder determine the text.
   */
  lemma {:induction false} Utf8StringInjective(s: string, t: string)
    requires Utf8String(s) == Utf8String(t)
    ensures s == t
    decreases |s|
  {
    if s != [] && t != [] {
      var e := Utf8String(s);
      var a, b := Utf8(s[0]), Utf8(t[0]);
      Utf8Lead(s[0]);
      Utf8Lead(t[0]);
      assert e[0] == a[0] == b[0];
      assert a == e[..|a|] == b;
      Utf8Injective(s[0], t[0]);
      assert Utf8String(s[1..]) == e[|a|..] == Utf8String(t[1..]);
      Utf8StringInjective(s[1..], t[1..]);
      assert s == [s[0]] + s[1..];
      assert t == [t[0]] + t[1..];
    }
  }

  function HexDigit(d: nat): (c: char)
    requires d < 16
    ensures IsHex(c) && HexValue(c) == d
    ensures Unreserved(c)
  {
    if d < 10 then ('0' as int + d) as char else ('A' as int + d - 10) as char
  }

  predicate IsHex(c: char)
  {
    ('0' <= c <= '9') || ('A' <= c <= 'F') || ('a' <= c <= 'f')
  }

  function HexValue(c: char): (d: nat)
    requires IsHex(c)
    ensures d < 16
  {
    if '0' <= c <= '9' then c as int - '0' as int
    else if 'A' <= c <= 'F' then c as int - 'A' as int + 10
    else c as int - 'a' as int + 10
  }

  /** `%XX` for each byte. */
  function PercentBytes(bs: seq<byte>): (s: string)
    ensures |s| == 3 * |bs|
    ensures forall i :: 0 <= i < |s| ==> FormSafe(s[i])
  {
    if bs == [] then []
    else ['%', HexDigit(bs[0] / 16), HexDigit(bs[0] % 16)] + PercentBytes(bs[1..])
  }

  function QuoteChar(c: char): string
  {
    if Unreserved(c) then [c]
    else if c == ' ' then "+"
    else PercentBytes(Utf8(c))
  }

  /** `quote_plus(s)` with `safe=''`; its output only holds characters that are `FormSafe`, so never `&`, `=`, `/` or `?`. */
  function QuotePlus(s: string): (r: string)
    ensures forall i :: 0 <= i < |r| ==> FormSafe(r[i])
    ensures |s| <= |r|
  {
    if s == [] then []
    else
      var r := QuoteChar(s[0]) + QuotePlus(s[1..]);
      assert forall i :: 0 <= i < |QuoteChar(s[0])| ==> FormSafe(r[i]);
      r
  }

  /** `unquote_plus(s).encode("utf-8")`, the bytes a form decoder reads back. */
  function UnquotePlus(s: string): seq<byte>
    decreases |s|
  {
    if s == [] then []
    else if s[0] == '+' then [32] + UnquotePlus(s[1..])
    else if s[0] == '%' && |s| >= 3 && IsHex(s[1]) && IsHex(s[2]) then
      [HexValue(s[1]) * 16 + HexValue(s[2])] + UnquotePlus(s[3..])
    else Utf8(s[0]) + UnquotePlus(s[1..])
  }

  lemma {:induction false} UnquotePercent(bs: seq<byte>, rest: string)
    ensures UnquotePlus(PercentBytes(bs) + rest) == bs + UnquotePlus(rest)
  {
    if bs != [] {
      var b := bs[0];
      var s := PercentBytes(bs) + rest;
      assert s == ['%', HexDigit(b / 16), HexDigit(b % 16)] + (PercentBytes(bs[1..]) + rest);
      assert s[3..] == PercentBytes(bs[1..]) + rest;
      assert s[0] == '%' && s[1] == HexDigit(b / 16) && s[2] == HexDigit(b % 16);
      assert HexValue(s[1]) * 16 + HexValue(s[2]) == b;
      assert UnquotePlus(s) == [b] + UnquotePlus(s[3..]);
      UnquotePercent(bs[1..], rest);
      assert [b] + (bs[1..] + UnquotePlus(rest)) == bs + UnquotePlus(rest);
    } else {
      assert PercentBytes(bs) + rest == rest;
    }
  }

  lemma UnquoteChar(c: char, rest: string)
    ensures UnquotePlus(QuoteChar(c) + rest) == Utf8(c) + UnquotePlus(rest)
  {
    if Unreserved(c) {
      assert ([c] + rest)[1..] == rest;
    } else if c == ' ' {
      assert ("+" + rest)[1..] == rest;
    } else {
      UnquotePercent(Utf8(c), rest);
    }
  }

  /** Decoding undoes `quote_plus`: the decoder reads back exactly the UTF-8 bytes of `s`. */
  lemma {:induction false} QuotePlusRoundTrip(s: string)
    ensures UnquotePlus(QuotePlus(s)) == Utf8String(s)
  {
    if s != [] {
      UnquoteChar(s[0], QuotePlus(s[1..]));
      QuotePlusRoundTrip(s[1..]);
    }
  }

  /** Strings made of unreserved characters (identifiers, digits) are written unchanged. */
  lemma {:induction false} QuotePlusUnreserved(s: string)
    requires forall i :: 0 <= i < |s| ==> Unreserved(s[i])
    ensures QuotePlus(s) == s
  {
    if s != [] {
      QuotePlusUnreserved(s[1..]);
      assert [s[0]] + s[1..] == s;
    }
  }

  lemma NatTextUnreserved(n: nat)
    ensures QuotePlus(NatText(n)) == NatText(n)
  {
    QuotePlusUnreserved(NatText(n));
  }

  /** `quote_plus(k) + "=" + quote_plus(v)`. */
  function EncodePair(p: (string, string)): string
  {
    QuotePlus(p.0) + "=" + QuotePlus(p.1)
  }

  function EncodedPairs(ps: seq<(string, string)>): (r: seq<string>)
    ensures |r| == |ps|
    ensures forall i :: 0 <= i < |ps| ==> r[i] == EncodePair(ps[i])
  {
    seq(|ps|, i requires 0 <= i < |ps| => EncodePair(ps[i]))
  }

  /**
   * `urlencode(d)` for a dict whose values are already strings.  It writes
   * nothing but `quote_plus` output, `=` and `&`: in particular no `/`, `?`
   * or `#`.
   */
  function UrlEncode(ps: seq<(string, string)>): (r: string)
    ensures forall c :: c in r ==> QueryChar(c)
  {
    JoinedPairsChars(ps);
    Join(EncodedPairs(ps), '&')
  }

  lemma JoinedPairsChars(ps: seq<(string, string)>)
    ensures forall c :: c in Join(EncodedPairs(ps), '&') ==> QueryChar(c)
  {
    forall c | c in Join(EncodedPairs(ps), '&') ensures QueryChar(c) {
      JoinMembers(EncodedPairs(ps), '&', c);
      if c != '&' {
        var i :| 0 <= i < |ps| && c in EncodedPairs(ps)[i];
        EncodePairChars(ps[i], c);
      }
    }
  }

  /** A pair whose key `quote_plus` keeps is written with the key as it is. */
  lemma EncodeNamedPair(k: string, v: string)
    requires forall i :: 0 <= i < |k| ==> Unreserved(k[i])
    ensures EncodePair((k, v)) == k + "=" + QuotePlus(v)
  {
    QuotePlusUnreserved(k);
  }

  lemma NoAmpersand(p: (string, string))
    ensures '&' !in EncodePair(p)
  {
    if '&' in EncodePair(p) {
      EncodePairChars(p, '&');
    }
  }

  lemma NoEquals(s: string)
    ensures '=' !in QuotePlus(s)
  {
  }

  /** The `&`-separated parts of `urlencode` are exactly the encoded pairs (when there is at least one). */
  lemma SplitUrlEncode(ps: seq<(string, string)>)
    requires |ps| >= 1
    ensures Split(UrlEncode(ps), '&') == EncodedPairs(ps)
  {
    forall i | 0 <= i < |ps| ensures '&' !in EncodedPairs(ps)[i] {
      NoAmpersand(ps[i]);
    }
    SplitJoin(EncodedPairs(ps), '&');
  }

  lemma UrlEncodeEmpty(ps: seq<(string, string)>)
    ensures UrlEncode(ps) == "" <==> ps == []
  {
    if ps != [] {
      var e := EncodePair(ps[0]);
      assert e[|QuotePlus(ps[0].0)|] == '=';
      if |ps| > 1 {
        assert UrlEncode(ps) == e + ['&'] + Join(EncodedPairs(ps)[1..], '&');
      }
    }
  }

  /** How the rendering service reads one `key=value` part: split at the first `=` and decode both sides. */
  function DecodePair(part: string): (seq<byte>, seq<byte>)
  {
    var kv := Split(part, '=');
    (UnquotePlus(kv[0]), UnquotePlus(Join(kv[1..], '=')))
  }

  /** How the rendering service reads a query string back into decoded pairs. */
  function DecodeQuery(q: string): seq<(seq<byte>, seq<byte>)>
  {
    if q == "" then []
    else
      var parts := Split(q, '&');
      seq(|parts|, i requires 0 <= i < |parts| => DecodePair(parts[i]))
  }

  /** Reading back a query written by `urlencode` recovers every pair, in order, as UTF-8 bytes. */
  lemma UrlEncodeRoundTrip(ps: seq<(string, string)>)
    ensures |DecodeQuery(UrlEncode(ps))| == |ps|
    ensures forall i :: 0 <= i < |ps| ==>
      DecodeQuery(UrlEncode(ps))[i] == (Utf8String(ps[i].0), Utf8String(ps[i].1))
  {
    UrlEncodeEmpty(ps);
    if ps != [] {
      SplitUrlEncode(ps);
      forall i | 0 <= i < |ps|
        ensures DecodePair(EncodedPairs(ps)[i]) == (Utf8String(ps[i].0), Utf8String(ps[i].1))
      {
        var k, v := QuotePlus(ps[i].0), QuotePlus(ps[i].1);
        NoEquals(ps[i].0);
        NoEquals(ps[i].1);
        assert Join([k, v], '=') == k + "=" + v;
        SplitJoin([k, v], '=');
        QuotePlusRoundTrip(ps[i].0);
        QuotePlusRoundTrip(ps[i].1);
      }
    }
  }

  /**
   * Different pair lists give different queries: reading a query back gives
   * the UTF-8 bytes of every key and value, and those bytes determine the
   * strings.
   */
  lemma UrlEncodeInjective(ps: seq<(string, string)>, qs: seq<(string, string)>)
    requires UrlEncode(ps) == UrlEncode(qs)
    ensures ps == qs
  {
    UrlEncodeRoundTrip(ps);
    UrlEncodeRoundTrip(qs);
    forall i | 0 <= i < |ps| ensures ps[i] == qs[i] {
      Utf8StringInjective(ps[i].0, qs[i].0);
      Utf8StringInjective(ps[i].1, qs[i].1);
    }
  }

  /** The characters a query written by `urlencode` can hold. */
  predicate QueryChar(c: char)
  {
    FormSafe(c) || c == '=' || c == '&'
  }

  lemma EncodePairChars(p: (string, string), c: char)
    requires c in EncodePair(p)
    ensures FormSafe(c) || c == '='
  {
    var k, v := QuotePlus(p.0), QuotePlus(p.1);
    assert c in k + "=" + v;
    if c in k {
      var j :| 0 <= j < |k| && k[j] == c;
    } else if c in v {
      var j :| 0 <= j < |v| && v[j] == c;
    }
  }

  lemma QueryCharsAscii(s: string)
    requires forall c :: c in s ==> QueryChar(c)
    ensures IsAscii(s)
  {
    forall i | 0 <= i < |s| ensures s[i] as int < 128 {
      assert QueryChar(s[i]);
    }
  }

  /** `urlencode` output is ASCII. */
  lemma UrlEncodeAscii(ps: seq<(string, string)>)
    ensures IsAscii(UrlEncode(ps))
  {
    QueryCharsAscii(UrlEncode(ps));
  }

  /** `urlencode` starts with the first pair. */
  lemma UrlEncodeFirst(ps: seq<(string, string)>)
    requires ps != []
    ensures EncodePair(ps[0]) <= UrlEncode(ps)
  {
    JoinFirst(EncodedPairs(ps), '&');
  }

  /** `urlencode` ends with the last pair, after an `&` when there is more than one. */
  lemma UrlEncodeLast(ps: seq<(string, string)>)
    requires ps != []
    ensures |ps| == 1 ==> UrlEncode(ps) == EncodePair(ps[0])
    ensures |ps| >= 2 ==> UrlEncode(ps) == UrlEncode(ps[..|ps| - 1]) + "&" + EncodePair(ps[|ps| - 1])
  {
    var n := |ps| - 1;
    if |ps| >= 2 {
      JoinLast(EncodedPairs(ps), '&');
      EncodedPairsPrefix(ps, n);
    }
  }

  /** Appending a pair to the dict appends its encoding, after an `&` unless it is the first. */
  lemma UrlEncodeSnoc(ps: seq<(string, string)>, p: (string, string))
    ensures UrlEncode(ps + [p]) == (if ps == [] then "" else UrlEncode(ps) + "&") + EncodePair(p)
  {
    var qs := ps + [p];
    assert qs[..|qs| - 1] == ps;
    UrlEncodeLast(qs);
  }

  /** `urlencode` of two pairs. */
  lemma UrlEncodeTwo(p: (string, string), q: (string, string))
    ensures UrlEncode([p, q]) == EncodePair(p) + "&" + EncodePair(q)
  {
    var es := EncodedPairs([p, q]);
    assert es[1..] == [EncodePair(q)];
    assert Join(es[1..], '&') == EncodePair(q);
    assert Join(es, '&') == es[0] + ['&'] + Join(es[1..], '&');
  }

  /** `part` is the last `&`-separated part of `q`: `q` ends with it, right after an `&` or alone. */
  predicate EndsWithPart(q: string, part: string)
  {
    |part| <= |q| && q[|q| - |part|..] == part && (|q| == |part| || q[|q| - |part| - 1] == '&')
  }

  /** `urlencode` ends with the last pair, after an `&` unless it is the only one. */
  lemma UrlEncodeEndsWith(ps: seq<(string, string)>)
    requires ps != []
    ensures EndsWithPart(UrlEncode(ps), EncodePair(ps[|ps| - 1]))
  {
    UrlEncodeLast(ps);
    var q, tail := UrlEncode(ps), EncodePair(ps[|ps| - 1]);
    if |ps| >= 2 {
      var pre := UrlEncode(ps[..|ps| - 1]) + "&";
      assert q == pre + tail;
      assert q[|q| - |tail|..] == tail;
      assert q[|q| - |tail| - 1] == pre[|pre| - 1];
    }
  }

  /** A last pair whose key and value `quote_plus` keeps ends `urlencode` as it is. */
  lemma UrlEncodeEndsWithPlain(ps: seq<(string, string)>, k: string, v: string)
    requires ps != [] && ps[|ps| - 1] == (k, v)
    requires forall i :: 0 <= i < |k| ==> Unreserved(k[i])
    requires forall i :: 0 <= i < |v| ==> Unreserved(v[i])
    ensures EndsWithPart(UrlEncode(ps), k + "=" + v)
  {
    UrlEncodeEndsWith(ps);
    EncodeNamedPair(k, v);
    QuotePlusUnreserved(v);
  }

  lemma EncodedPairsPrefix(ps: seq<(string, string)>, n: nat)
    requires n <= |ps|
    ensures EncodedPairs(ps)[..n] == EncodedPairs(ps[..n])
  {
  }
}
