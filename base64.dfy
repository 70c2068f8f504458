/** Base64 as `atob` decodes it: the forgiving-base64 decode of the WHATWG Infra standard,
    over the alphabet of section 4 of RFC 4648, and an encoder to state its round trip. */
module Base64 {
  import opened Wrappers
  import opened Bytes

  /** Value of a character of the standard alphabet, or -1 for any other character. */
  function SextetValue(c: char): (v: int)
    ensures -1 <= v < 64
  {
    if 'A' <= c <= 'Z' then c as int - 'A' as int
    else if 'a' <= c <= 'z' then c as int - 'a' as int + 26
    else if '0' <= c <= '9' then c as int - '0' as int + 52
    else if c == '+' then 62
    else if c == '/' then 63
    else -1
  }

  function SextetChar(v: nat): (c: char)
    requires v < 64
  {
    if v < 26 then ('A' as int + v) as char
    else if v < 52 then ('a' as int + v - 26) as char
    else if v < 62 then ('0' as int + v - 52) as char
    else if v == 62 then '+'
    else '/'
  }

  lemma SextetRoundTrip(v: nat)
    requires v < 64
    ensures SextetValue(SextetChar(v)) == v
  {
  }

  predicate IsAsciiWhitespace(c: char)
  {
    c == '\t' || c == '\n' || c == '\U{C}' || c == '\r' || c == ' '
  }

  function StripWhitespace(s: string): (r: string)
    ensures |r| <= |s|
    ensures forall i :: 0 <= i < |r| ==> !IsAsciiWhitespace(r[i])
    ensures (forall i :: 0 <= i < |s| ==> !IsAsciiWhitespace(s[i])) ==> r == s
  {
    if s == [] then []
    else if IsAsciiWhitespace(s[0]) then StripWhitespace(s[1..])
    else [s[0]] + StripWhitespace(s[1..])
  }

  /** One or two trailing '=' are dropped, and only when the length is a multiple of 4. */
  function DropPadding(s: string): (r: string)
    ensures r <= s && |s| - 2 <= |r|
    ensures |s| % 4 != 0 ==> r == s
  {
    if |s| % 4 != 0 then s
    else if |s| >= 2 && s[|s| - 2] == '=' && s[|s| - 1] == '=' then s[..|s| - 2]
    else if |s| >= 1 && s[|s| - 1] == '=' then s[..|s| - 1]
    else s
  }

  predicate AllSextets(s: string)
  {
    forall i :: 0 <= i < |s| ==> SextetValue(s[i]) >= 0
  }

  function Values(s: string): (v: seq<nat>)
    requires AllSextets(s)
    ensures |v| == |s| && forall i :: 0 <= i < |s| ==> v[i] == SextetValue(s[i]) < 64
  {
    seq(|s|, i requires 0 <= i < |s| => SextetValue(s[i]) as nat)
  }

  predicate AllBelow64(v: seq<nat>)
  {
    forall i :: 0 <= i < |v| ==> v[i] < 64
  }

  /** Four sextets make three bytes; a final two make one byte and a final three make two,
      the leftover low bits being discarded. */
  function DecodeSextets(v: seq<nat>): (b: seq<byte>)
    requires AllBelow64(v) && |v| % 4 != 1
    ensures |b| == |v| * 3 / 4
  {
    if |v| == 0 then []
    else if |v| == 2 then [(v[0] * 4 + v[1] / 16) as byte]
    else if |v| == 3 then [(v[0] * 4 + v[1] / 16) as byte, ((v[1] % 16) * 16 + v[2] / 4) as byte]
    else
      [(v[0] * 4 + v[1] / 16) as byte, ((v[1] % 16) * 16 + v[2] / 4) as byte, ((v[2] % 4) * 64 + v[3]) as byte]
      + DecodeSextets(v[4..])
  }

  /** A binary string: one character per byte, with that byte as its code. */
  function Latin1(b: seq<byte>): (s: string)
    ensures |s| == |b| && forall i :: 0 <= i < |b| ==> s[i] as int == b[i] as int
  {
    seq(|b|, i requires 0 <= i < |b| => b[i] as int as char)
  }

  /** `atob(data)`: None where `atob` throws an "InvalidCharacterError" DOMException. */
  function Atob(data: string): (r: Option<string>)
    ensures r.Some? ==> forall i :: 0 <= i < |r.value| ==> r.value[i] as int < 256
  {
    var s := DropPadding(StripWhitespace(data));
    if |s| % 4 == 1 || !AllSextets(s) then None
    else Some(Latin1(DecodeSextets(Values(s))))
  }

  /** The failure cases of `atob`, in both directions. */
  lemma AtobFails(data: string)
    ensures Atob(data).None? <==>
      var s := DropPadding(StripWhitespace(data));
      |s| % 4 == 1 || exists i :: 0 <= i < |s| && SextetValue(s[i]) < 0
    ensures Atob(data).Some? ==> |Atob(data).value| == |DropPadding(StripWhitespace(data))| * 3 / 4
  {
  }

  /** The sextets of three bytes, or of the final one or two. */
  function EncodeSextets(b: seq<byte>): (v: seq<nat>)
    ensures AllBelow64(v) && |v| % 4 != 1
    ensures |v| == if |b| % 3 == 0 then |b| / 3 * 4 else |b| / 3 * 4 + |b| % 3 + 1
  {
    if |b| == 0 then []
    else if |b| == 1 then [b[0] as nat / 4, (b[0] as nat % 4) * 16]
    else if |b| == 2 then
      [b[0] as nat / 4, (b[0] as nat % 4) * 16 + b[1] as nat / 16, (b[1] as nat % 16) * 4]
    else
      [b[0] as nat / 4, (b[0] as nat % 4) * 16 + b[1] as nat / 16,
       (b[1] as nat % 16) * 4 + b[2] as nat / 64, b[2] as nat % 64]
      + EncodeSextets(b[3..])
  }

  /** Base64 with the standard alphabet and without '=' padding. */
  function Encode(b: seq<byte>): (s: string)
    ensures AllSextets(s) && Values(s) == EncodeSextets(b)
    ensures forall i :: 0 <= i < |s| ==> !IsAsciiWhitespace(s[i]) && s[i] != '='
  {
    var v := EncodeSextets(b);
    var s := seq(|v|, i requires 0 <= i < |v| => SextetChar(v[i]));
    assert forall i :: 0 <= i < |v| ==> SextetValue(s[i]) == v[i] by {
      forall i | 0 <= i < |v| ensures SextetValue(s[i]) == v[i] {
        SextetRoundTrip(v[i]);
      }
    }
    s
  }

  /** Three bytes survive being cut into four sextets and put back together. */
  lemma TripleRoundTrip(x: nat, y: nat, z: nat)
    requires x < 256 && y < 256 && z < 256
    ensures var a, b, c, d := x / 4, (x % 4) * 16 + y / 16, (y % 16) * 4 + z / 64, z % 64;
      a * 4 + b / 16 == x && (b % 16) * 16 + c / 4 == y && (c % 4) * 64 + d == z
  {
  }

  lemma {:induction false} DecodeEncodeSextets(b: seq<byte>)
    ensures DecodeSextets(EncodeSextets(b)) == b
    decreases |b|
  {
    if |b| >= 3 {
      var v := EncodeSextets(b);
      var rest := b[3..];
      assert v[4..] == EncodeSextets(rest);
      assert DecodeSextets(v[4..]) == rest by {
        DecodeEncodeSextets(rest);
      }
      TripleRoundTrip(b[0] as nat, b[1] as nat, b[2] as nat);
      assert DecodeSextets(v) == b[..3] + rest;
      assert b == b[..3] + rest;
    }
  }

  /** `atob` inverts the encoder. */
  lemma AtobEncode(b: seq<byte>)
    ensures Atob(Encode(b)) == Some(Latin1(b))
  {
    var s := Encode(b);
    assert StripWhitespace(s) == s;
    assert DropPadding(s) == s by {
      if |s| % 4 == 0 && |s| >= 1 {
        assert s[|s| - 1] != '=';
      }
    }
    DecodeEncodeSextets(b);
  }
}
