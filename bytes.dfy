// Byte sequences and the integer <-> bytes conversions the generator uses:
// Python's `int.to_bytes(n, 'big')`, `int.from_bytes(b, 'big')` and `str.encode()`
// restricted to ASCII text.
module Bytes {

  /** One octet, as held by a Python `bytes` object. */
  type byte = b: int | 0 <= b < 256

  const TWO_32: nat := 0x1_0000_0000
  const TWO_64: nat := 0x1_0000_0000_0000_0000

  function Pow(base: nat, n: nat): (r: nat)
    ensures base >= 1 ==> r >= 1
  {
    if n == 0 then 1 else base * Pow(base, n - 1)
  }

  /** The powers the generator's fixed widths stand for. */
  lemma PowConstants()
    ensures Pow(256, 4) == TWO_32 && Pow(256, 8) == TWO_64
    ensures Pow(16, 2) == 256 && Pow(16, 8) == TWO_32
    ensures Pow(10, 3) == 1000 && Pow(10, 4) == 10000
  {
  }

  lemma DivBelow(x: nat, d: nat, q: nat)
    requires d >= 1 && x < d * q
    ensures x / d < q
  {
  }

  /** `x.to_bytes(n, 'big')`: the n-byte big-endian form of x (Python raises OverflowError
      when x does not fit, which callers here exclude). */
  function ToBytesBE(x: nat, n: nat): (r: seq<byte>)
    requires x < Pow(256, n)
    ensures |r| == n
  {
    if n == 0 then []
    else
      DivBelow(x, 256, Pow(256, n - 1));
      ToBytesBE(x / 256, n - 1) + [x % 256]
  }

  /** `int.from_bytes(s, 'big')`: the unsigned integer whose big-endian bytes are s. */
  function FromBytesBE(s: seq<byte>): (v: nat)
    ensures v < Pow(256, |s|)
  {
    if s == [] then 0 else FromBytesBE(s[..|s| - 1]) * 256 + s[|s| - 1]
  }

  /** Decoding an encoding gives the integer back. */
  lemma {:induction false} FromToBytesBE(x: nat, n: nat)
    requires x < Pow(256, n)
    ensures FromBytesBE(ToBytesBE(x, n)) == x
  {
    if n > 0 {
      DivBelow(x, 256, Pow(256, n - 1));
      var t := ToBytesBE(x / 256, n - 1);
      FromToBytesBE(x / 256, n - 1);
      assert ToBytesBE(x, n) == t + [x % 256];
      assert (t + [x % 256])[..|t|] == t;
    }
  }

  /** Encoding a decoded byte string, at its own width, gives the bytes back. */
  lemma {:induction false} ToFromBytesBE(s: seq<byte>)
    ensures ToBytesBE(FromBytesBE(s), |s|) == s
  {
    if s != [] {
      var p, b := s[..|s| - 1], s[|s| - 1];
      var v := FromBytesBE(s);
      assert v == FromBytesBE(p) * 256 + b;
      assert v / 256 == FromBytesBE(p) && v % 256 == b;
      ToFromBytesBE(p);
      assert s == p + [b];
    }
  }

  /** Distinct integers have distinct n-byte encodings. */
  lemma ToBytesBEInjective(x: nat, y: nat, n: nat)
    requires x < Pow(256, n) && y < Pow(256, n)
    ensures ToBytesBE(x, n) == ToBytesBE(y, n) <==> x == y
  {
    FromToBytesBE(x, n);
    FromToBytesBE(y, n);
  }

  predicate IsAscii(s: string)
  {
    forall i :: 0 <= i < |s| ==> s[i] as int < 128
  }

  /** `s.encode()` for ASCII text: UTF-8 uses one byte per character, its code. */
  function AsciiEncode(s: string): (r: seq<byte>)
    requires IsAscii(s)
  {
    seq(|s|, i requires 0 <= i < |s| => s[i] as int)
  }

  /** Two ASCII texts with the same encoding are the same text. */
  lemma AsciiEncodeInjective(s: string, t: string)
    requires IsAscii(s) && IsAscii(t)
    ensures AsciiEncode(s) == AsciiEncode(t) <==> s == t
  {
    if AsciiEncode(s) == AsciiEncode(t) {
      assert |s| == |AsciiEncode(s)| == |t|;
      forall i | 0 <= i < |s| ensures s[i] == t[i] {
        assert AsciiEncode(s)[i] == AsciiEncode(t)[i];
      }
    }
  }
}
