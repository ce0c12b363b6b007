/**
 * The dotted-quad text form of an IPv4 address: four octets separated by '.',
 * each octet written by the grammar 25[0-5]|2[0-4]\d|1\d\d|[1-9]\d|\d of
 * helpers/IP.php:34 (decimal 0..255, no leading zero). This is also the model
 * of filter_var(_, FILTER_VALIDATE_IP, FILTER_FLAG_IPV4).
 */
module Ipv4Text {
  import opened Numerals

  const TwoTo32: nat := 4294967296

  /** One octet, alternative by alternative as the grammar lists them. */
  predicate IsOctetText(d: string)
  {
    || (|d| == 3 && d[0] == '2' && d[1] == '5' && '0' <= d[2] <= '5')
    || (|d| == 3 && d[0] == '2' && '0' <= d[1] <= '4' && IsDigit(d[2]))
    || (|d| == 3 && d[0] == '1' && IsDigit(d[1]) && IsDigit(d[2]))
    || (|d| == 2 && '1' <= d[0] <= '9' && IsDigit(d[1]))
    || (|d| == 1 && IsDigit(d[0]))
  }

  lemma DecTextSmall(v: nat)
    requires v < 1000
    ensures v < 10 ==> DecText(v) == [DigitChar(v)]
    ensures 10 <= v < 100 ==> DecText(v) == [DigitChar(v / 10), DigitChar(v % 10)]
    ensures 100 <= v ==> DecText(v) == [DigitChar(v / 100), DigitChar(v / 10 % 10), DigitChar(v % 10)]
  {
    if v >= 100 {
      assert DecText(v / 10) == [DigitChar(v / 100), DigitChar(v / 10 % 10)];
    }
  }

  lemma DecValueSmall(d: string)
    requires IsDecimal(d) && 1 <= |d| <= 3
    ensures |d| == 1 ==> DecValue(d) == DigitValue(d[0])
    ensures |d| == 2 ==> DecValue(d) == 10 * DigitValue(d[0]) + DigitValue(d[1])
    ensures |d| == 3 ==> DecValue(d) == 100 * DigitValue(d[0]) + 10 * DigitValue(d[1]) + DigitValue(d[2])
  {
    if |d| == 3 {
      assert DecValue(d[..2]) == 10 * DigitValue(d[0]) + DigitValue(d[1]) by {
        assert d[..2][..1] == d[..1];
      }
    }
  }

  /** Every number below 256 is printed as a word of the octet grammar. */
  lemma OctetTextOfValue(v: nat)
    requires v < 256
    ensures IsOctetText(DecText(v))
  {
    DecTextSmall(v);
  }

  /** Every word of the octet grammar is the decimal text of a number below 256. */
  lemma OctetTextValue(d: string)
    requires IsOctetText(d)
    ensures IsCanonicalDecimal(d) && DecValue(d) < 256 && DecText(DecValue(d)) == d
  {
    DecValueSmall(d);
    DecTextOfValue(d);
  }

  // ------------------------------------------------------ separator splitting

  /** `s` cut at every `sep` (PHP's explode). */
  function Split(s: string, sep: char): (parts: seq<string>)
    ensures |parts| >= 1
  {
    if s == [] then [""]
    else
      var rest := Split(s[1..], sep);
      if s[0] == sep then [""] + rest else [[s[0]] + rest[0]] + rest[1..]
  }

  /** `parts` joined with `sep` (PHP's implode). */
  function Join(parts: seq<string>, sep: char): string
    requires |parts| >= 1
  {
    if |parts| == 1 then parts[0] else parts[0] + [sep] + Join(parts[1..], sep)
  }

  lemma {:induction false} JoinSplit(s: string, sep: char)
    ensures Join(Split(s, sep), sep) == s
  {
    if s != [] {
      var rest := Split(s[1..], sep);
      JoinSplit(s[1..], sep);
      if s[0] == sep {
        assert ([""] + rest)[1..] == rest;
      } else {
        var parts := [[s[0]] + rest[0]] + rest[1..];
        assert parts[1..] == rest[1..];
        if |rest| > 1 {
          assert Join(rest, sep) == rest[0] + [sep] + Join(rest[1..], sep);
        }
      }
    }
  }

  lemma {:induction false} SplitNoSep(x: string, sep: char)
    requires sep !in x
    ensures Split(x, sep) == [x]
  {
    if x != [] {
      assert x[0] in x;
      assert forall c :: c in x[1..] ==> c in x;
      SplitNoSep(x[1..], sep);
      assert [x[0]] + x[1..] == x;
    }
  }

  lemma {:induction false} SplitAtSep(x: string, sep: char, y: string)
    requires sep !in x
    ensures Split(x + [sep] + y, sep) == [x] + Split(y, sep)
  {
    if x == [] {
      assert x + [sep] + y == [sep] + y;
      assert ([sep] + y)[1..] == y;
    } else {
      assert x[0] in x;
      assert forall c :: c in x[1..] ==> c in x;
      assert (x + [sep] + y)[1..] == x[1..] + [sep] + y;
      SplitAtSep(x[1..], sep, y);
      assert [x[0]] + x[1..] == x;
    }
  }

  /** Splitting a join of separator-free parts gives the parts back. */
  lemma {:induction false} SplitJoin(parts: seq<string>, sep: char)
    requires |parts| >= 1
    requires forall k :: 0 <= k < |parts| ==> sep !in parts[k]
    ensures Split(Join(parts, sep), sep) == parts
  {
    if |parts| == 1 {
      SplitNoSep(parts[0], sep);
    } else {
      SplitJoin(parts[1..], sep);
      SplitAtSep(parts[0], sep, Join(parts[1..], sep));
    }
  }

  /** Joining one more part appends the separator and the part. */
  lemma {:induction false} JoinAppend(parts: seq<string>, x: string, sep: char)
    requires |parts| >= 1
    ensures Join(parts + [x], sep) == Join(parts, sep) + [sep] + x
  {
    if |parts| > 1 {
      assert (parts + [x])[1..] == parts[1..] + [x];
      JoinAppend(parts[1..], x, sep);
    }
  }

  // ----------------------------------------------------------- dotted quads

  /** `t` matches the whole dotted-quad grammar. */
  predicate IsIpv4Text(t: string)
  {
    var parts := Split(t, '.');
    |parts| == 4 && forall k :: 0 <= k < 4 ==> IsOctetText(parts[k])
  }

  /** The 32-bit value a.2^24 + b.2^16 + c.2^8 + d of the text a.b.c.d. */
  function Ipv4Value(t: string): nat
    requires IsIpv4Text(t)
  {
    var p := Split(t, '.');
    ((DecValue(p[0]) * 256 + DecValue(p[1])) * 256 + DecValue(p[2])) * 256 + DecValue(p[3])
  }

  /** The dotted quad of a 32-bit value, most significant octet first (long2ip). */
  function DottedQuad(v: nat): string
    requires v < TwoTo32
  {
    Join([DecText(v / 256 / 256 / 256), DecText(v / 256 / 256 % 256),
          DecText(v / 256 % 256), DecText(v % 256)], '.')
  }

  lemma DecTextNoDot(v: nat)
    ensures '.' !in DecText(v)
  {
    var s := DecText(v);
    assert forall i :: 0 <= i < |s| ==> s[i] != '.' by {
      assert IsDecimal(s);
    }
  }

  /** Printing a 32-bit value and validating and reading the text gives the value back. */
  lemma DottedQuadValue(v: nat)
    requires v < TwoTo32
    ensures IsIpv4Text(DottedQuad(v)) && Ipv4Value(DottedQuad(v)) == v
  {
    var a, b, c, d := v / 256 / 256 / 256, v / 256 / 256 % 256, v / 256 % 256, v % 256;
    var parts := [DecText(a), DecText(b), DecText(c), DecText(d)];
    DecTextNoDot(a); DecTextNoDot(b); DecTextNoDot(c); DecTextNoDot(d);
    SplitJoin(parts, '.');
    OctetTextOfValue(a); OctetTextOfValue(b); OctetTextOfValue(c); OctetTextOfValue(d);
  }

  /** Reading a valid dotted quad and printing the value gives the text back. */
  lemma Ipv4ValueText(t: string)
    requires IsIpv4Text(t)
    ensures Ipv4Value(t) < TwoTo32 && DottedQuad(Ipv4Value(t)) == t
  {
    var p := Split(t, '.');
    OctetTextValue(p[0]); OctetTextValue(p[1]); OctetTextValue(p[2]); OctetTextValue(p[3]);
    var a, b, c, d := DecValue(p[0]), DecValue(p[1]), DecValue(p[2]), DecValue(p[3]);
    var v := Ipv4Value(t);
    assert v / 256 == (a * 256 + b) * 256 + c && v % 256 == d;
    assert v / 256 / 256 == a * 256 + b && v / 256 % 256 == c;
    assert v / 256 / 256 / 256 == a && v / 256 / 256 % 256 == b;
    assert p == [p[0], p[1], p[2], p[3]];
    JoinSplit(t, '.');
  }

  /** Joining decimal parts with '.' uses only digits and dots. */
  lemma {:induction false} JoinDotsChars(parts: seq<string>)
    requires |parts| >= 1
    requires forall k :: 0 <= k < |parts| ==> IsDecimal(parts[k])
    ensures forall i :: 0 <= i < |Join(parts, '.')| ==> IsDigit(Join(parts, '.')[i]) || Join(parts, '.')[i] == '.'
  {
    if |parts| > 1 {
      JoinDotsChars(parts[1..]);
      var head, tail := parts[0], Join(parts[1..], '.');
      assert Join(parts, '.') == head + "." + tail;
      forall i | 0 <= i < |Join(parts, '.')|
        ensures IsDigit(Join(parts, '.')[i]) || Join(parts, '.')[i] == '.'
      {
        if i > |head| {
          assert Join(parts, '.')[i] == tail[i - |head| - 1];
        }
      }
    }
  }

  /** A dotted quad is written with digits and dots only. */
  lemma Ipv4TextChars(t: string)
    requires IsIpv4Text(t)
    ensures forall i :: 0 <= i < |t| ==> IsDigit(t[i]) || t[i] == '.'
  {
    var p := Split(t, '.');
    forall k | 0 <= k < |p|
      ensures IsDecimal(p[k])
    {
      OctetTextValue(p[k]);
    }
    JoinDotsChars(p);
    JoinSplit(t, '.');
  }
}
