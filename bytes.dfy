/** Bytes, `TextEncoder` (UTF-8), JavaScript's UTF-16 string length and `Uint8Array` buffers. */
module Bytes {
  import opened Wrappers

  newtype byte = x: int | 0 <= x < 256

  function Zeros(n: nat): (z: seq<byte>)
    ensures |z| == n
    ensures forall i :: 0 <= i < n ==> z[i] == 0
  {
    seq(n, _ => 0)
  }

  /** UTF-8 encoding of one Unicode scalar value (RFC 3629, section 3). */
  function Utf8Char(c: char): (b: seq<byte>)
    ensures 1 <= |b| <= 4
    ensures |b| == 1 <==> c as int < 0x80
    ensures |b| == 1 ==> b[0] as int == c as int
  {
    var v := c as int;
    if v < 0x80 then [v as byte]
    else if v < 0x800 then [(0xC0 + v / 0x40) as byte, (0x80 + v % 0x40) as byte]
    else if v < 0x1_0000 then
      [(0xE0 + v / 0x1000) as byte, (0x80 + (v / 0x40) % 0x40) as byte, (0x80 + v % 0x40) as byte]
    else
      [(0xF0 + v / 0x4_0000) as byte, (0x80 + (v / 0x1000) % 0x40) as byte,
       (0x80 + (v / 0x40) % 0x40) as byte, (0x80 + v % 0x40) as byte]
  }

  /** `new TextEncoder().encode(s)`. */
  function Utf8(s: string): seq<byte>
  {
    if s == [] then [] else Utf8Char(s[0]) + Utf8(s[1..])
  }

  /** Number of UTF-16 code units of one scalar value: what `String.length` counts. */
  function Utf16Units(c: char): (n: nat)
    ensures n == 1 || n == 2
  {
    if c as int < 0x1_0000 then 1 else 2
  }

  /** JavaScript's `s.length`. */
  function Utf16Length(s: string): nat
  {
    if s == [] then 0 else Utf16Units(s[0]) + Utf16Length(s[1..])
  }

  predicate IsAscii(s: string)
  {
    forall i :: 0 <= i < |s| ==> s[i] as int < 0x80
  }

  /** Every character takes at least one byte, so a text longer than a buffer never fits it. */
  lemma {:induction false} Utf8AtLeastOneBytePerChar(s: string)
    ensures |s| <= |Utf8(s)| <= 4 * |s|
  {
    if s != [] {
      Utf8AtLeastOneBytePerChar(s[1..]);
    }
  }

  /** For ASCII text the encoding is the text itself, byte by byte. */
  lemma {:induction false} Utf8OfAscii(s: string)
    requires IsAscii(s)
    ensures |Utf8(s)| == |s|
    ensures forall i :: 0 <= i < |s| ==> Utf8(s)[i] as int == s[i] as int
  {
    if s != [] {
      assert IsAscii(s[1..]) by {
        forall i | 0 <= i < |s[1..]| ensures s[1..][i] as int < 0x80 {
          assert s[1..][i] == s[i + 1];
        }
      }
      Utf8OfAscii(s[1..]);
      forall i | 0 <= i < |s| ensures Utf8(s)[i] as int == s[i] as int {
        if i > 0 {
          assert Utf8(s)[i] == Utf8(s[1..])[i - 1];
          assert s[i] == s[1..][i - 1];
        }
      }
    }
  }

  /** `String.length` never exceeds the UTF-8 byte count, and equals it exactly for ASCII text. */
  lemma {:induction false} Utf16LengthVersusUtf8(s: string)
    ensures Utf16Length(s) <= |Utf8(s)|
    ensures Utf16Length(s) == |Utf8(s)| <==> IsAscii(s)
  {
    if s != [] {
      Utf16LengthVersusUtf8(s[1..]);
      assert Utf16Units(s[0]) <= |Utf8Char(s[0])|;
      if IsAscii(s) {
        assert IsAscii(s[1..]) by {
          forall i | 0 <= i < |s[1..]| ensures s[1..][i] as int < 0x80 {
            assert s[1..][i] == s[i + 1];
          }
        }
      } else if IsAscii(s[1..]) {
        assert s[0] as int >= 0x80 by {
          if s[0] as int < 0x80 {
            forall i | 0 <= i < |s| ensures s[i] as int < 0x80 {
              if i > 0 { assert s[i] == s[1..][i - 1]; }
            }
          }
        }
      }
    }
  }

  /** The contents `new Uint8Array(size)` has after `.set(data)`: the data, then zeros. */
  function Padded(data: seq<byte>, size: nat): (r: seq<byte>)
    requires |data| <= size
  {
    data + Zeros(size - |data|)
  }

  /** `buf.set(data, offset)` on a `Uint8Array`: a `RangeError` when `data` does not fit. */
  method SetAt(buf: array<byte>, data: seq<byte>, offset: nat) returns (ok: bool)
    modifies buf
    ensures ok <==> offset + |data| <= buf.Length
    ensures ok ==> buf[..] == old(buf[..offset]) + data + old(buf[offset + |data|..])
    ensures !ok ==> buf[..] == old(buf[..])
  {
    if offset + |data| > buf.Length {
      return false;
    }
    var i := 0;
    while i < |data|
      invariant 0 <= i <= |data|
      invariant forall k :: 0 <= k < offset ==> buf[k] == old(buf[k])
      invariant forall k :: 0 <= k < i ==> buf[offset + k] == data[k]
      invariant forall k :: offset + i <= k < buf.Length ==> buf[k] == old(buf[k])
    {
      buf[offset + i] := data[i];
      i := i + 1;
    }
    assert buf[..] == old(buf[..offset]) + data + old(buf[offset + |data|..]);
    return true;
  }

  /** `const b = new Uint8Array(size); b.set(data);`, which throws when `data` is too long. */
  method ZeroPad(data: seq<byte>, size: nat) returns (r: Option<seq<byte>>)
    ensures r.Some? <==> |data| <= size
    ensures r.Some? ==> |r.value| == size && r.value[..|data|] == data
    ensures r.Some? ==> forall i :: |data| <= i < size ==> r.value[i] == 0
    ensures r.Some? ==> r.value == Padded(data, size)
  {
    var buf := new byte[size](_ => 0);
    var ok := SetAt(buf, data, 0);
    if ok {
      r := Some(buf[..]);
    } else {
      r := None;
    }
  }
}
