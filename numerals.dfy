/**
 * Positional numerals over strings: the decimal, binary and hexadecimal
 * renderings that helpers/IP.php obtains from sprintf, gmp_strval,
 * base_convert, bindec and dechex, written here over unbounded naturals.
 */
module Numerals {

  /** An unsigned octet, as returned by PHP's `ord`. */
  type byte = b: int | 0 <= b < 256

  function Pow2(k: nat): (r: nat)
    ensures r >= 1
  {
    if k == 0 then 1 else 2 * Pow2(k - 1)
  }

  lemma {:induction false} Pow2Add(a: nat, b: nat)
    ensures Pow2(a + b) == Pow2(a) * Pow2(b)
  {
    if b > 0 {
      Pow2Add(a, b - 1);
      calc {
        Pow2(a + b);
        2 * Pow2(a + b - 1);
        2 * (Pow2(a) * Pow2(b - 1));
        Pow2(a) * (2 * Pow2(b - 1));
      }
    }
  }

  lemma MulMonotone(a: nat, b: nat, c: nat)
    requires a <= b
    ensures a * c <= b * c
  {
  }

  /** A digit below `base` in front of a remainder below `scale` stays below base * scale. */
  lemma ShiftAdd(hi: nat, lo: nat, base: nat, scale: nat)
    requires hi < base && lo < scale
    ensures hi * scale + lo < base * scale
  {
    MulMonotone(hi, base - 1, scale);
    assert (base - 1) * scale + scale == base * scale;
  }

  lemma Pow2Byte()
    ensures Pow2(8) == 256
  {
  }

  lemma Pow2Word()
    ensures Pow2(16) == 65536
  {
    Pow2Byte();
    Pow2Add(8, 8);
  }

  lemma Pow2Quad()
    ensures Pow2(32) == 4294967296
  {
    Pow2Word();
    Pow2Add(16, 16);
  }

  // ---------------------------------------------------------------- decimal

  predicate IsDigit(c: char) { '0' <= c <= '9' }

  predicate IsDecimal(s: string) { forall i :: 0 <= i < |s| ==> IsDigit(s[i]) }

  /** A non-empty decimal numeral without a superfluous leading zero. */
  predicate IsCanonicalDecimal(s: string)
  {
    |s| >= 1 && IsDecimal(s) && (s[0] == '0' ==> |s| == 1)
  }

  function DigitValue(c: char): (d: nat)
    requires IsDigit(c)
    ensures d < 10
  {
    c as int - '0' as int
  }

  function DigitChar(d: nat): (c: char)
    requires d < 10
    ensures IsDigit(c) && DigitValue(c) == d
  {
    ('0' as int + d) as char
  }

  /** The value of a decimal numeral, most significant digit first. */
  function DecValue(s: string): nat
    requires IsDecimal(s)
  {
    if s == [] then 0 else DecValue(s[..|s| - 1]) * 10 + DigitValue(s[|s| - 1])
  }

  /** The shortest decimal rendering of `v` (PHP's integer-to-string conversion). */
  function DecText(v: nat): (s: string)
    ensures IsCanonicalDecimal(s) && DecValue(s) == v
  {
    if v < 10 then [DigitChar(v)]
    else
      var prefix := DecText(v / 10);
      var s := prefix + [DigitChar(v % 10)];
      assert s[..|s| - 1] == prefix;
      s
  }

  lemma {:induction false} DecValuePositive(s: string)
    requires IsCanonicalDecimal(s) && s[0] != '0'
    ensures DecValue(s) >= 1
  {
    if |s| > 1 {
      var prefix := s[..|s| - 1];
      assert prefix[0] == s[0];
      DecValuePositive(prefix);
    } else {
      assert DigitValue(s[0]) >= 1;
    }
  }

  /** Reading a canonical decimal numeral and printing the value gives the numeral back. */
  lemma {:induction false} DecTextOfValue(s: string)
    requires IsCanonicalDecimal(s)
    ensures DecText(DecValue(s)) == s
  {
    if |s| == 1 {
      assert s[..0] == [];
      assert DigitChar(DigitValue(s[0])) == s[0];
    } else {
      var prefix := s[..|s| - 1];
      assert prefix[0] == s[0];
      DecValuePositive(prefix);
      DecTextOfValue(prefix);
      var v := DecValue(s);
      assert v / 10 == DecValue(prefix) && v % 10 == DigitValue(s[|s| - 1]);
      assert DigitChar(DigitValue(s[|s| - 1])) == s[|s| - 1];
      assert s == prefix + [s[|s| - 1]];
    }
  }

  // ----------------------------------------------------------------- binary

  predicate IsBit(c: char) { c == '0' || c == '1' }

  predicate IsBits(s: string) { forall i :: 0 <= i < |s| ==> IsBit(s[i]) }

  function BitChar(v: nat): (c: char)
    requires v < 2
    ensures IsBit(c)
  {
    if v == 0 then '0' else '1'
  }

  /**
   * The value of a binary numeral, most significant digit first, as read by
   * `bindec`, `base_convert($s, 2, _)` and `gmp_init($s, 2)`: characters other
   * than '0' and '1' are skipped.
   */
  function BinDec(s: string): nat
  {
    if s == [] then 0
    else
      var rest := BinDec(s[..|s| - 1]);
      if s[|s| - 1] == '0' then 2 * rest
      else if s[|s| - 1] == '1' then 2 * rest + 1
      else rest
  }

  /** A string of `w` characters reads as less than 2^w. */
  lemma {:induction false} BinDecBound(s: string)
    ensures BinDec(s) < Pow2(|s|)
  {
    if s != [] {
      BinDecBound(s[..|s| - 1]);
    }
  }

  /** `v` as exactly `w` binary digits, most significant first (sprintf "%0wb"). */
  function Bits(v: nat, w: nat): (s: string)
    requires v < Pow2(w)
    ensures |s| == w && IsBits(s) && BinDec(s) == v
  {
    if w == 0 then ""
    else
      var prefix := Bits(v / 2, w - 1);
      var s := prefix + [BitChar(v % 2)];
      assert s[..|s| - 1] == prefix;
      s
  }

  /** A bit string is the fixed-width rendering of its own value. */
  lemma {:induction false} BitsOfValue(s: string)
    requires IsBits(s)
    ensures BinDec(s) < Pow2(|s|) && Bits(BinDec(s), |s|) == s
  {
    BinDecBound(s);
    if s != [] {
      var prefix := s[..|s| - 1];
      BitsOfValue(prefix);
      assert s == prefix + [s[|s| - 1]];
    }
  }

  lemma Double(a: nat, p: nat)
    ensures 2 * (a * p) == a * (2 * p)
  {
  }

  /** Appending the bit string `y` shifts the value of `x` left by |y| bits. */
  lemma {:induction false} BinDecAppend(x: string, y: string)
    requires IsBits(y)
    ensures BinDec(x + y) == BinDec(x) * Pow2(|y|) + BinDec(y)
  {
    if y == [] {
      assert x + y == x;
    } else {
      var y' := y[..|y| - 1];
      var bit := if y[|y| - 1] == '0' then 0 else 1;
      assert (x + y)[..|x + y| - 1] == x + y';
      assert (x + y)[|x + y| - 1] == y[|y| - 1];
      assert BinDec(y) == 2 * BinDec(y') + bit;
      assert BinDec(x + y) == 2 * BinDec(x + y') + bit;
      BinDecAppend(x, y');
      var a, p := BinDec(x), Pow2(|y'|);
      assert Pow2(|y|) == 2 * p;
      Double(a, p);
    }
  }

  /** The rendering of `hi * 2^k + lo` in w + k bits is that of `hi` in w bits followed by that of `lo` in k bits. */
  lemma BitsConcat(hi: nat, w: nat, lo: nat, k: nat)
    requires hi < Pow2(w) && lo < Pow2(k)
    ensures hi * Pow2(k) + lo < Pow2(w + k)
    ensures Bits(hi * Pow2(k) + lo, w + k) == Bits(hi, w) + Bits(lo, k)
  {
    var a, b := Bits(hi, w), Bits(lo, k);
    var s := a + b;
    BitsAppend(a, b);
    BinDecAppend(a, b);
    var v := BinDec(s);
    assert v == hi * Pow2(k) + lo;
    assert |s| == w + k;
    BitsOfValue(s);
  }

  lemma BitsAppend(a: string, b: string)
    requires IsBits(a) && IsBits(b)
    ensures IsBits(a + b)
  {
    forall i | 0 <= i < |a + b|
      ensures IsBit((a + b)[i])
    {
      if i >= |a| {
        assert (a + b)[i] == b[i - |a|];
      }
    }
  }

  /** BitsConcat, for a number already known to be hi * 2^k + lo. */
  lemma BitsSplitAt(n: nat, hi: nat, w: nat, lo: nat, k: nat)
    requires hi < Pow2(w) && lo < Pow2(k) && n == hi * Pow2(k) + lo
    ensures n < Pow2(w + k) && Bits(n, w + k) == Bits(hi, w) + Bits(lo, k)
  {
    BitsConcat(hi, w, lo, k);
  }

  /** The shortest binary rendering of `n` (gmp_strval(_, 2), base_convert(_, 10, 2)). */
  function ToBinary(n: nat): (s: string)
    ensures |s| >= 1 && IsBits(s) && BinDec(s) == n
    ensures s[0] == '0' ==> s == "0"
  {
    if n < 2 then [BitChar(n)]
    else
      var prefix := ToBinary(n / 2);
      var s := prefix + [BitChar(n % 2)];
      assert s[..|s| - 1] == prefix;
      s
  }

  lemma {:induction false} ToBinaryLength(n: nat, w: nat)
    requires 1 <= w && n < Pow2(w)
    ensures |ToBinary(n)| <= w
  {
    if n >= 2 {
      ToBinaryLength(n / 2, w - 1);
    }
  }

  function Zeros(k: nat): (s: string)
    ensures |s| == k && (forall i :: 0 <= i < k ==> s[i] == '0') && BinDec(s) == 0
  {
    if k == 0 then ""
    else
      var s := Zeros(k - 1) + "0";
      assert s[..|s| - 1] == Zeros(k - 1);
      s
  }

  /** One more leading zero. */
  lemma ZerosCons(k: nat)
    ensures "0" + Zeros(k) == Zeros(k + 1)
  {
    var a, b := "0" + Zeros(k), Zeros(k + 1);
    assert |a| == |b|;
    forall i | 0 <= i < |a|
      ensures a[i] == b[i]
    {
    }
  }

  /** One more leading zero in front of a padded string. */
  lemma ZerosPrepend(k: nat, s: string)
    ensures "0" + (Zeros(k) + s) == Zeros(k + 1) + s
  {
    ZerosCons(k);
    assert "0" + (Zeros(k) + s) == ("0" + Zeros(k)) + s;
  }

  lemma ZerosThenBits(z: string, b: string)
    requires forall i :: 0 <= i < |z| ==> z[i] == '0'
    requires IsBits(b)
    ensures IsBits(z + b)
  {
    forall i | 0 <= i < |z + b| ensures IsBit((z + b)[i]) {
      if i < |z| { assert (z + b)[i] == z[i]; } else { assert (z + b)[i] == b[i - |z|]; }
    }
  }

  /** `s` with '0' characters prepended up to width `w`; unchanged when already that long. */
  function PadLeft(s: string, w: nat): (r: string)
    ensures |r| == if |s| < w then w else |s|
    ensures r[|r| - |s|..] == s
    ensures forall i :: 0 <= i < |r| - |s| ==> r[i] == '0'
  {
    if |s| < w then Zeros(w - |s|) + s else s
  }

  /** Left-padding the shortest binary rendering to width w gives the w-bit rendering. */
  lemma PadBinary(n: nat, w: nat)
    requires 1 <= w && n < Pow2(w)
    ensures PadLeft(ToBinary(n), w) == Bits(n, w)
  {
    ToBinaryLength(n, w);
    var b := ToBinary(n);
    var z := Zeros(w - |b|);
    var s := z + b;
    assert PadLeft(b, w) == s;
    assert |s| == w;
    BinDecAppend(z, b);
    var shifted := BinDec(z) * Pow2(|b|);
    assert shifted == 0 by { assert BinDec(z) == 0; }
    assert BinDec(s) == n;
    ZerosThenBits(z, b);
    BitsOfValue(s);
    assert Bits(BinDec(s), |s|) == s;
  }

  // ------------------------------------------------------------ hexadecimal

  predicate IsHexDigit(c: char) { '0' <= c <= '9' || 'a' <= c <= 'f' }

  function HexDigitValue(c: char): (d: nat)
    requires IsHexDigit(c)
    ensures d < 16
  {
    if '0' <= c <= '9' then c as int - '0' as int else c as int - 'a' as int + 10
  }

  function HexDigitChar(d: nat): (c: char)
    requires d < 16
    ensures IsHexDigit(c) && HexDigitValue(c) == d
  {
    if d < 10 then ('0' as int + d) as char else ('a' as int + d - 10) as char
  }

  /** The value of a lower-case hexadecimal numeral (hexdec). */
  function HexValue(s: string): nat
    requires forall i :: 0 <= i < |s| ==> IsHexDigit(s[i])
  {
    if s == [] then 0 else HexValue(s[..|s| - 1]) * 16 + HexDigitValue(s[|s| - 1])
  }

  /** The shortest lower-case hexadecimal rendering of `v` (dechex). */
  function HexText(v: nat): (s: string)
    ensures |s| >= 1 && forall i :: 0 <= i < |s| ==> IsHexDigit(s[i])
    ensures HexValue(s) == v
    ensures s[0] == '0' ==> s == "0"
  {
    if v < 16 then [HexDigitChar(v)]
    else
      var prefix := HexText(v / 16);
      var s := prefix + [HexDigitChar(v % 16)];
      assert s[..|s| - 1] == prefix;
      s
  }

  /** A 16-bit value takes one to four hexadecimal digits. */
  lemma {:induction false} HexTextLength(v: nat, w: nat)
    requires 1 <= w && v < Pow2(4 * w)
    ensures |HexText(v)| <= w
  {
    if v >= 16 {
      assert Pow2(4) == 16;
      assert w >= 2;
      Pow2Add(4, 4 * (w - 1));
      assert 4 + 4 * (w - 1) == 4 * w;
      assert v / 16 < Pow2(4 * (w - 1));
      HexTextLength(v / 16, w - 1);
    }
  }
}
