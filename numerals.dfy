// Digit strings as Python prints integers: `str(x)` (base 10), `format(x, 'x')`
// (base 16, lower case), the zero-padded `f'{x:08x}'`, and `bytes.hex()`.
module Numerals {
  import opened Bytes

  predicate IsLowerHexDigit(c: char)
  {
    '0' <= c <= '9' || 'a' <= c <= 'f'
  }

  predicate IsLowerHex(s: string)
  {
    forall i :: 0 <= i < |s| ==> IsLowerHexDigit(s[i])
  }

  /** The character for a digit below 16, letters in lower case. */
  function DigitChar(d: nat): (c: char)
    requires d < 16
    ensures IsLowerHexDigit(c) && DigitValue(c) == d
  {
    if d < 10 then ('0' as int + d) as char else ('a' as int + d - 10) as char
  }

  /** The value of a digit character; characters that are not digits read as 0. */
  function DigitValue(c: char): nat
  {
    if '0' <= c <= '9' then c as int - '0' as int
    else if 'a' <= c <= 'f' then c as int - 'a' as int + 10
    else 0
  }

  /** The shortest digit string of x in the given base, as Python prints it
      (a single "0" for zero, no leading zeros otherwise). */
  function ToDigits(x: nat, base: nat): string
    requires 2 <= base <= 16
    decreases x
  {
    if x < base then [DigitChar(x)]
    else ToDigits(x / base, base) + [DigitChar(x % base)]
  }

  /** Every character ToDigits prints is a lower-case digit below the base. */
  lemma {:induction false} ToDigitsAreDigits(x: nat, base: nat)
    requires 2 <= base <= 16
    ensures |ToDigits(x, base)| >= 1 && IsLowerHex(ToDigits(x, base))
    ensures forall i :: 0 <= i < |ToDigits(x, base)| ==> DigitValue(ToDigits(x, base)[i]) < base
    decreases x
  {
    if x >= base {
      DivStep(x, base);
      ToDigitsAreDigits(x / base, base);
    }
  }

  /** Reading a digit string back as a number: the inverse of ToDigits. */
  function FromDigits(s: string, base: nat): nat
  {
    if s == [] then 0 else base * FromDigits(s[..|s| - 1], base) + DigitValue(s[|s| - 1])
  }

  function Zeros(n: nat): string
  {
    seq(n, _ => '0')
  }

  /** Left-pads with '0' up to the given width, as the format spec `0<width>` does. */
  function ZeroPad(s: string, width: nat): string
  {
    if |s| >= width then s else Zeros(width - |s|) + s
  }

  /** `f'{x:0<width>x}'`: lower-case hexadecimal, zero-padded to at least `width` characters. */
  function FormatHex(x: nat, width: nat): string
  {
    ZeroPad(ToDigits(x, 16), width)
  }

  /** `bytes.hex()`: two lower-case hexadecimal characters per byte. */
  function BytesHex(bs: seq<byte>): (s: string)
    ensures |s| == 2 * |bs| && IsLowerHex(s)
  {
    if bs == [] then ""
    else
      FormatHexRoundTrip(bs[0], 2);
      FormatHex(bs[0], 2) + BytesHex(bs[1..])
  }

  /** Printing then reading gives the number back. */
  lemma {:induction false} FromToDigits(x: nat, base: nat)
    requires 2 <= base <= 16
    ensures FromDigits(ToDigits(x, base), base) == x
    decreases x
  {
    if x >= base {
      var q, r := x / base, x % base;
      DivStep(x, base);
      var p := ToDigits(q, base);
      var s := ToDigits(x, base);
      FromToDigits(q, base);
      assert s == p + [DigitChar(r)];
      assert s[..|s| - 1] == p;
      assert FromDigits(s, base) == base * FromDigits(p, base) + DigitValue(DigitChar(r));
    } else {
      var s := ToDigits(x, base);
      assert s[..0] == [];
      assert FromDigits(s, base) == base * 0 + x;
    }
  }

  lemma DivStep(x: nat, b: nat)
    requires 2 <= b <= x
    ensures x / b < x && x == b * (x / b) + x % b && x % b < b
  {
  }

  lemma DivAtLeast(x: nat, d: nat, q: nat)
    requires d >= 1 && d * q <= x
    ensures q <= x / d
  {
    var k, r := x / d, x % d;
    assert x == d * k + r && r < d;
    if k < q {
      MulMono(d, k + 1, q);
    }
  }

  lemma MulMono(c: nat, a: nat, b: nat)
    requires a <= b
    ensures c * a <= c * b
  {
  }

  lemma PowAtLeastBase(base: nat, k: nat)
    requires base >= 1 && k >= 1
    ensures Pow(base, k) >= base
  {
  }

  /** A number below base^k takes at most k digits, and exactly k when it is at least base^(k-1). */
  lemma {:induction false} ToDigitsLength(x: nat, base: nat, k: nat)
    requires 2 <= base <= 16 && 1 <= k && x < Pow(base, k)
    ensures |ToDigits(x, base)| <= k
    ensures Pow(base, k - 1) <= x ==> |ToDigits(x, base)| == k
    decreases k
  {
    if x >= base {
      assert k >= 2;
      DivBelow(x, base, Pow(base, k - 1));
      ToDigitsLength(x / base, base, k - 1);
      if Pow(base, k - 1) <= x {
        DivAtLeast(x, base, Pow(base, k - 2));
      }
    } else if k >= 2 {
      PowAtLeastBase(base, k - 1);
    }
  }

  lemma {:induction false} ZerosValue(n: nat, base: nat)
    ensures FromDigits(Zeros(n), base) == 0
  {
    if n > 0 {
      assert Zeros(n)[..n - 1] == Zeros(n - 1);
      ZerosValue(n - 1, base);
    }
  }

  /** Leading zeros do not change the value of a digit string. */
  lemma {:induction false} FromDigitsLeadingZeros(n: nat, s: string, base: nat)
    ensures FromDigits(Zeros(n) + s, base) == FromDigits(s, base)
    decreases |s|
  {
    if s == [] {
      ZerosValue(n, base);
      assert Zeros(n) + s == Zeros(n);
    } else {
      var p := s[..|s| - 1];
      FromDigitsLeadingZeros(n, p, base);
      assert (Zeros(n) + s)[..|Zeros(n) + s| - 1] == Zeros(n) + p;
    }
  }

  /** A number below 16^width formats to exactly `width` lower-case hexadecimal characters
      that read back as the number. */
  lemma FormatHexRoundTrip(x: nat, width: nat)
    requires 1 <= width && x < Pow(16, width)
    ensures |FormatHex(x, width)| == width
    ensures IsLowerHex(FormatHex(x, width))
    ensures FromDigits(FormatHex(x, width), 16) == x
  {
    var s := ToDigits(x, 16);
    ToDigitsAreDigits(x, 16);
    ToDigitsLength(x, 16, width);
    FromToDigits(x, 16);
    if |s| < width {
      FromDigitsLeadingZeros(width - |s|, s, 16);
    }
  }

  /** Distinct byte strings of one length have distinct hexadecimal forms. */
  lemma {:induction false} BytesHexInjective(a: seq<byte>, b: seq<byte>)
    requires |a| == |b|
    ensures BytesHex(a) == BytesHex(b) <==> a == b
  {
    if a != [] && BytesHex(a) == BytesHex(b) {
      PowConstants();
      FormatHexRoundTrip(a[0], 2);
      FormatHexRoundTrip(b[0], 2);
      assert BytesHex(a)[..2] == FormatHex(a[0], 2);
      assert BytesHex(b)[..2] == FormatHex(b[0], 2);
      assert BytesHex(a)[2..] == BytesHex(a[1..]);
      assert BytesHex(b)[2..] == BytesHex(b[1..]);
      BytesHexInjective(a[1..], b[1..]);
      assert a == [a[0]] + a[1..];
      assert b == [b[0]] + b[1..];
    }
  }
}
