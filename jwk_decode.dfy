/** Reading the RSA modulus and exponent out of a JSON Web Key: base64url text, rewritten to
    the standard alphabet, decoded by `atob`, written out as hex and parsed as a bigint. */
module JwkDecode {
  import opened Wrappers
  import opened Bytes
  import opened Numerals
  import Base64

  /** The two members of a JSON Web Key that are read; either may be absent. */
  datatype Jwk = Jwk(n: Option<string>, e: Option<string>)

  datatype RsaParams = RsaParams(modulus: nat, exponent: nat)

  /** `s.replace(/from/g, to)`: every occurrence of `from` becomes `to`. */
  function ReplaceAll(s: string, from: char, to: char): (r: string)
    ensures |r| == |s|
    ensures forall i :: 0 <= i < |s| ==> r[i] == if s[i] == from then to else s[i]
  {
    if s == [] then [] else [if s[0] == from then to else s[0]] + ReplaceAll(s[1..], from, to)
  }

  /** From the alphabet of section 5 of RFC 4648 to that of section 4. */
  function UrlToStd(s: string): string
  {
    ReplaceAll(ReplaceAll(s, '-', '+'), '_', '/')
  }

  /** The rewrite maps '-' to '+' and '_' to '/' and keeps every other character and the
      length. */
  lemma UrlToStdMaps(s: string)
    ensures |UrlToStd(s)| == |s|
    ensures forall i :: 0 <= i < |s| ==>
      UrlToStd(s)[i] == (if s[i] == '-' then '+' else if s[i] == '_' then '/' else s[i])
  {
  }

  /** The encoder's direction of the same substitution. */
  function StdToUrl(s: string): string
  {
    ReplaceAll(ReplaceAll(s, '+', '-'), '/', '_')
  }

  lemma UrlToStdInverts(s: string)
    requires forall i :: 0 <= i < |s| ==> s[i] != '-' && s[i] != '_'
    ensures UrlToStd(StdToUrl(s)) == s
  {
    var t := UrlToStd(StdToUrl(s));
    UrlToStdMaps(StdToUrl(s));
    forall i | 0 <= i < |s| ensures t[i] == s[i] {
    }
  }

  /** Base64url without padding, as JSON Web Keys carry their numbers. */
  function EncodeUrl(b: seq<byte>): string
  {
    StdToUrl(Base64.Encode(b))
  }

  /** `b.toString(16).padStart(2, '0')`. */
  function ByteHex(b: byte): (h: string)
    ensures |h| == 2 && AllDigits(h, 16) && ValueIn(h, 16) == b as int
    ensures forall i :: 0 <= i < 2 ==> IsLowerDigit(h[i])
  {
    var d := ToBase(b as nat, 16);
    ToBaseLength(b as nat, 16, 2);
    assert Pow(16, 2) == 256;
    ToBaseRoundTrip(b as nat, 16);
    PadStartValue(d, 2, 16);
    PadStart(d, 2, '0')
  }

  /** `Array.from(bytes).map(ByteHex).join('')`. */
  function HexOfBytes(b: seq<byte>): (h: string)
    ensures |h| == 2 * |b|
  {
    if b == [] then [] else HexOfBytes(b[..|b| - 1]) + ByteHex(b[|b| - 1])
  }

  /** The number the bytes stand for, most significant first. */
  function BigEndian(b: seq<byte>): nat
  {
    if b == [] then 0 else BigEndian(b[..|b| - 1]) * 256 + b[|b| - 1] as nat
  }

  lemma LowerAppend(h: string, t: string)
    requires forall i :: 0 <= i < |h| ==> IsLowerDigit(h[i])
    requires forall i :: 0 <= i < |t| ==> IsLowerDigit(t[i])
    ensures forall i :: 0 <= i < |h + t| ==> IsLowerDigit((h + t)[i])
  {
    forall i | 0 <= i < |h + t| ensures IsLowerDigit((h + t)[i]) {
      if i < |h| {
        assert (h + t)[i] == h[i];
      } else {
        assert (h + t)[i] == t[i - |h|];
      }
    }
  }

  /** Two lowercase hex digits per byte. */
  lemma {:induction false} HexOfBytesLower(b: seq<byte>)
    ensures forall i :: 0 <= i < |HexOfBytes(b)| ==> IsLowerDigit(HexOfBytes(b)[i])
  {
    if b != [] {
      var front := b[..|b| - 1];
      HexOfBytesLower(front);
      LowerAppend(HexOfBytes(front), ByteHex(b[|b| - 1]));
    }
  }

  lemma HexOfBytesStep(b: seq<byte>)
    requires b != []
    requires AllDigits(HexOfBytes(b[..|b| - 1]), 16)
    requires ValueIn(HexOfBytes(b[..|b| - 1]), 16) == BigEndian(b[..|b| - 1])
    ensures AllDigits(HexOfBytes(b), 16) && ValueIn(HexOfBytes(b), 16) == BigEndian(b)
  {
    var front, last := b[..|b| - 1], b[|b| - 1];
    var h, t := HexOfBytes(front), ByteHex(last);
    assert HexOfBytes(b) == h + t;
    assert BigEndian(b) == BigEndian(front) * 256 + last as nat;
    assert AllDigits(h + t, 16) && ValueIn(h + t, 16) == BigEndian(front) * 256 + last as nat by {
      ValueInAppend(h, t, 16);
      assert Pow(16, 2) == 256;
    }
  }

  /** The hex digits spell the big-endian value of the bytes. */
  lemma {:induction false} HexOfBytesValue(b: seq<byte>)
    ensures AllDigits(HexOfBytes(b), 16)
    ensures ValueIn(HexOfBytes(b), 16) == BigEndian(b)
  {
    if b != [] {
      HexOfBytesValue(b[..|b| - 1]);
      HexOfBytesStep(b);
    }
  }

  /** Leading zero bytes do not change the value. */
  lemma {:induction false} BigEndianLeadingZeros(z: nat, b: seq<byte>)
    ensures BigEndian(Zeros(z) + b) == BigEndian(b)
    decreases |b|
  {
    if b == [] {
      assert Zeros(z) + b == Zeros(z);
      ZerosBigEndian(z);
    } else {
      var front := b[..|b| - 1];
      assert (Zeros(z) + b)[..|Zeros(z) + b| - 1] == Zeros(z) + front;
      BigEndianLeadingZeros(z, front);
    }
  }

  lemma {:induction false} ZerosBigEndian(z: nat)
    ensures BigEndian(Zeros(z)) == 0
  {
    if z > 0 {
      assert Zeros(z)[..z - 1] == Zeros(z - 1);
      ZerosBigEndian(z - 1);
    }
  }

  /** The characters `BigInt` trims from both ends of its text: the white space characters
      and the line terminators of ECMAScript (sections 12.2 and 12.3 of ECMA-262). */
  predicate IsJsWhitespace(c: char)
  {
    c in {'\U{0009}', '\U{000B}', '\U{000C}', '\U{0020}', '\U{00A0}', '\U{FEFF}',
          '\U{1680}', '\U{2000}', '\U{2001}', '\U{2002}', '\U{2003}', '\U{2004}',
          '\U{2005}', '\U{2006}', '\U{2007}', '\U{2008}', '\U{2009}', '\U{200A}',
          '\U{202F}', '\U{205F}', '\U{3000}',
          '\U{000A}', '\U{000D}', '\U{2028}', '\U{2029}'}
  }

  /** The text without its trailing white space. */
  function TrimEnd(s: string): (t: string)
    ensures |t| <= |s| && t == s[..|t|]
    ensures t == [] || !IsJsWhitespace(t[|t| - 1])
    ensures forall k :: |t| <= k < |s| ==> IsJsWhitespace(s[k])
  {
    if s != [] && IsJsWhitespace(s[|s| - 1]) then TrimEnd(s[..|s| - 1]) else s
  }

  /** Trailing white space is trimmed whatever text precedes it. */
  lemma {:induction false} TrimEndWhitespace(s: string, w: string)
    requires forall k :: 0 <= k < |w| ==> IsJsWhitespace(w[k])
    ensures TrimEnd(s + w) == TrimEnd(s)
  {
    if w != [] {
      assert (s + w)[..|s + w| - 1] == s + w[..|w| - 1];
      TrimEndWhitespace(s, w[..|w| - 1]);
    } else {
      assert s + w == s;
    }
  }

  /** No hex digit is white space, so a string of hex digits is not trimmed. */
  lemma HexDigitsNotTrimmed(digits: string)
    requires AllDigits(digits, 16)
    ensures TrimEnd(digits) == digits
  {
    if digits != [] {
      assert !IsJsWhitespace(digits[|digits| - 1]);
    }
  }

  /** `BigInt("0x" + digits)`: the text is trimmed of white space (the "0x" in front leaves
      only trailing white space to trim), and then it is a SyntaxError unless at least one hex
      digit, and nothing but hex digits, follows "0x". */
  function HexLiteral(digits: string): (r: Result<nat, JsError>)
    ensures var t := TrimEnd(digits);
      r.Success? <==> |t| > 0 && AllDigits(t, 16)
    ensures r.Success? ==> r.value == ValueIn(TrimEnd(digits), 16)
    ensures AllDigits(digits, 16) ==>
      r == if digits == [] then Failure(SyntaxError) else Success(ValueIn(digits, 16))
  {
    var t := TrimEnd(digits);
    assert AllDigits(digits, 16) ==> t == digits by {
      if AllDigits(digits, 16) {
        HexDigitsNotTrimmed(digits);
      }
    }
    if |t| > 0 && AllDigits(t, 16) then Success(ValueIn(t, 16)) else Failure(SyntaxError)
  }

  /** `BigInt("0xff ")` is `BigInt("0xff")`: trailing white space never changes the result. */
  lemma HexLiteralIgnoresTrailingSpace(digits: string, w: string)
    requires forall k :: 0 <= k < |w| ==> IsJsWhitespace(w[k])
    ensures HexLiteral(digits + w) == HexLiteral(digits)
  {
    TrimEndWhitespace(digits, w);
  }

  /** The hex literal built from the bytes parses to their big-endian value, and fails when
      there are no bytes. */
  lemma HexLiteralOfBytes(b: seq<byte>)
    ensures HexLiteral(HexOfBytes(b)) == if b == [] then Failure(SyntaxError) else Success(BigEndian(b))
  {
    HexOfBytesValue(b);
  }

  /** What `base64UrlToBigInt` computes: `atob` rejects the text, or the bytes are empty and
      `BigInt("0x")` rejects it, or the big-endian value of the bytes. */
  function DecodeBase64UrlInt(s: string): Result<nat, JsError>
  {
    var binary := Base64.Atob(UrlToStd(s));
    if binary.None? then Failure(InvalidCharacter) else BinaryValue(binary.value)
  }

  /** `BigInt` of the hex literal spelled by a binary string's bytes. */
  function BinaryValue(text: string): Result<nat, JsError>
  {
    if text == [] then Failure(SyntaxError) else Success(BigEndian(CharBytes(text)))
  }

  /** The bytes of a binary string: `Uint8Array` keeps each code modulo 256. */
  function CharBytes(s: string): (b: seq<byte>)
    ensures |b| == |s| && forall i :: 0 <= i < |s| ==> b[i] as int == s[i] as int % 256
  {
    seq(|s|, i requires 0 <= i < |s| => (s[i] as int % 256) as byte)
  }

  /** Copying a binary string into a `Uint8Array` gives back its bytes. */
  lemma CharBytesOfLatin1(b: seq<byte>)
    ensures CharBytes(Base64.Latin1(b)) == b
  {
    var c := CharBytes(Base64.Latin1(b));
    forall i | 0 <= i < |b| ensures c[i] == b[i] {
      assert c[i] as int == b[i] as int % 256;
    }
  }

  /** `new Uint8Array(binary.length)` filled with `binary.charCodeAt(i)`. */
  method CopyToBytes(text: string) returns (b: seq<byte>)
    ensures b == CharBytes(text)
  {
    var bytes := new byte[|text|];
    for i := 0 to |text|
      invariant forall j :: 0 <= j < i ==> bytes[j] as int == text[j] as int % 256
    {
      bytes[i] := (text[i] as int % 256) as byte;
    }
    b := bytes[..];
  }

  /** `base64UrlToBigInt`. */
  method Base64UrlToBigInt(base64url: string) returns (r: Result<nat, JsError>)
    ensures r == DecodeBase64UrlInt(base64url)
  {
    var base64 := UrlToStd(base64url);
    var binary := Base64.Atob(base64);
    if binary.None? {
      return Failure(InvalidCharacter);
    }
    var bytes := CopyToBytes(binary.value);
    var hex := HexOfBytes(bytes);
    r := HexLiteral(hex);
    HexLiteralOfBytes(bytes);
  }

  /** A number written the way a JSON Web Key writes it decodes to its big-endian value;
      an empty encoding is rejected. */
  lemma DecodeEncodeUrl(b: seq<byte>)
    ensures b != [] ==> DecodeBase64UrlInt(EncodeUrl(b)) == Success(BigEndian(b))
    ensures b == [] ==> DecodeBase64UrlInt(EncodeUrl(b)) == Failure(SyntaxError)
  {
    var s := Base64.Encode(b);
    assert UrlToStd(EncodeUrl(b)) == s by {
      forall i | 0 <= i < |s| ensures s[i] != '-' && s[i] != '_' {
        assert Base64.SextetValue(s[i]) >= 0;
      }
      UrlToStdInverts(s);
    }
    assert Base64.Atob(s) == Some(Base64.Latin1(b)) by {
      Base64.AtobEncode(b);
    }
    CharBytesOfLatin1(b);
  }

  const InvalidJwk := "Invalid JWK: missing modulus or exponent"

  /** `jwkToRsaParams`: an absent or empty `n` or `e` throws; otherwise both are decoded the
      same way, the modulus first. */
  method JwkToRsaParams(jwk: Jwk) returns (r: Result<RsaParams, JsError>)
    ensures jwk.n.None? || jwk.n.value == [] || jwk.e.None? || jwk.e.value == [] ==>
      r == Failure(Thrown(InvalidJwk))
    ensures jwk.n.Some? && jwk.n.value != [] && jwk.e.Some? && jwk.e.value != [] ==>
      var m, x := DecodeBase64UrlInt(jwk.n.value), DecodeBase64UrlInt(jwk.e.value);
      r == if m.Failure? then Failure(m.error)
           else if x.Failure? then Failure(x.error)
           else Success(RsaParams(m.value, x.value))
  {
    if jwk.n.None? || jwk.n.value == [] || jwk.e.None? || jwk.e.value == [] {
      return Failure(Thrown(InvalidJwk));
    }
    var modulus := Base64UrlToBigInt(jwk.n.value);
    if modulus.Failure? {
      return Failure(modulus.error);
    }
    var exponent := Base64UrlToBigInt(jwk.e.value);
    if exponent.Failure? {
      return Failure(exponent.error);
    }
    r := Success(RsaParams(modulus.value, exponent.value));
  }
}
