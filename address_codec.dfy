/**
 * The address codec of helpers/IP.php: validation and family detection, and
 * the conversions between address text, big-endian bit strings and unsigned
 * integers for IPv4 and IPv6.
 *
 * The IPv6 text routines the PHP runtime provides (filter_var's IPv6 check,
 * inet_pton and inet_ntop, which follow RFC 4291 section 2.2 and RFC 5952
 * section 4) are not modelled; every operation receives them as a value of
 * type Inet6. The integers of the source (gmp values, "%u" strings) are nats.
 */
module AddressCodec {
  import opened Wrappers
  import opened Numerals
  import opened Ipv4Text

  /** The class constants IP::V4 and IP::V6 as the result of version(). */
  datatype Family = V4 | V6

  const KindV4 := "v4"
  const KindV6 := "v6"
  const KindAll := "all"
  const BadKindMessage := "Bad type of ip validator! See class const."

  /**
   * The runtime's IPv6 routines: `isIpv6` is filter_var(_, FILTER_VALIDATE_IP,
   * FILTER_FLAG_IPV6) !== false, `pton` is inet_pton and `ntop` is inet_ntop,
   * with None standing for their `false` result.
   */
  datatype Inet6 = Inet6(
    isIpv6: string -> bool,
    pton: string -> Option<seq<byte>>,
    ntop: seq<byte> -> Option<string>)

  // ------------------------------------------------------------- validation

  /**
   * validate($ip, $type): an exception for any type other than 'v4', 'v6' and
   * 'all'; otherwise whether the text is an address of the requested family.
   */
  function Validate(net: Inet6, ip: string, kind: string): (r: Result<bool, string>)
    ensures r.Failure? <==> kind != KindV4 && kind != KindV6 && kind != KindAll
    ensures r.Failure? ==> r.error == BadKindMessage
    ensures r.Success? ==> r.value == ((kind != KindV6 && IsIpv4Text(ip)) || (kind != KindV4 && net.isIpv6(ip)))
  {
    if kind == KindAll then Success(IsIpv4Text(ip) || net.isIpv6(ip))
    else if kind == KindV4 then Success(IsIpv4Text(ip))
    else if kind == KindV6 then Success(net.isIpv6(ip))
    else Failure(BadKindMessage)
  }

  /** validateV4: never throws, and accepts exactly the dotted quads. */
  function ValidateV4(net: Inet6, ip: string): (r: bool)
    ensures r <==> IsIpv4Text(ip)
  {
    Validate(net, ip, KindV4).value
  }

  /** validateV6: never throws, and accepts exactly what the runtime accepts as IPv6. */
  function ValidateV6(net: Inet6, ip: string): (r: bool)
    ensures r <==> net.isIpv6(ip)
  {
    Validate(net, ip, KindV6).value
  }

  /** version(): IPv4 is tried first, so a dotted quad is never classed as IPv6. */
  function Version(net: Inet6, ip: string): (r: Option<Family>)
    ensures r == Some(V4) <==> IsIpv4Text(ip)
    ensures r == Some(V6) <==> !IsIpv4Text(ip) && net.isIpv6(ip)
    ensures r == None <==> !IsIpv4Text(ip) && !net.isIpv6(ip)
  {
    if ValidateV4(net, ip) then Some(V4)
    else if ValidateV6(net, ip) then Some(V6)
    else None
  }

  // ------------------------------------------------------------------- IPv4

  /** long2ip on 64-bit PHP: htonl keeps the low 32 bits of the integer. */
  function Long2Ip(x: int): string
  {
    DottedQuad(x % TwoTo32)
  }

  /** ipv4ToLong: 0 for invalid text, otherwise the unsigned 32-bit value of the quad. */
  function Ipv4ToLong(net: Inet6, ip: string): (r: nat)
    ensures r < TwoTo32
    ensures !IsIpv4Text(ip) ==> r == 0
    ensures IsIpv4Text(ip) ==> DottedQuad(r) == ip
  {
    if ValidateV4(net, ip) then Ipv4ValueText(ip); Ipv4Value(ip) else 0
  }

  /**
   * longToIpv4: "0.0.0.0" for 0; otherwise long2ip of -(4294967295 - (n - 1)),
   * which is n - 2^32 and so names the same 32-bit pattern as n.
   */
  function LongToIpv4(n: nat): (r: string)
    ensures r == DottedQuad(n % TwoTo32)
    ensures n < TwoTo32 ==> IsIpv4Text(r) && Ipv4Value(r) == n
  {
    DottedQuadValue(n % TwoTo32);
    if n != 0 then
      TwosComplement(n);
      Long2Ip(-(4294967295 - (n - 1)))
    else
      ZeroQuad();
      "0.0.0.0"
  }

  /** -(4294967295 - (n - 1)) is n - 2^32, the same value modulo 2^32. */
  lemma TwosComplement(n: nat)
    requires n >= 1
    ensures -(4294967295 - (n - 1)) == n - TwoTo32
    ensures (-(4294967295 - (n - 1))) % TwoTo32 == n % TwoTo32
  {
  }

  lemma ZeroQuad()
    ensures DottedQuad(0) == "0.0.0.0"
  {
    assert DecText(0) == "0";
    assert DottedQuad(0) == Join(["0", "0", "0", "0"], '.');
  }

  lemma AllOnesQuad()
    ensures DottedQuad(4294967295) == "255.255.255.255"
  {
    var m: nat := 4294967295;
    assert m / 256 / 256 / 256 == 255 && m / 256 / 256 % 256 == 255;
    assert m / 256 % 256 == 255 && m % 256 == 255;
    assert DecText(255) == "255" by {
      DecTextSmall(255);
      assert DigitChar(2) == '2' && DigitChar(5) == '5';
    }
    assert DottedQuad(m) == Join(["255", "255", "255", "255"], '.');
  }

  lemma Ipv4Boundaries()
    ensures LongToIpv4(0) == "0.0.0.0"
    ensures LongToIpv4(4294967295) == "255.255.255.255"
  {
    ZeroQuad();
    AllOnesQuad();
  }

  /** Integer to text and back, for every valid dotted quad. */
  lemma Ipv4TextRoundTrip(net: Inet6, t: string)
    requires IsIpv4Text(t)
    ensures LongToIpv4(Ipv4ToLong(net, t)) == t
  {
    var v := Ipv4ToLong(net, t);
    assert v % TwoTo32 == v;
    assert LongToIpv4(v) == DottedQuad(v);
  }

  /** Text to integer and back, for every 32-bit value. */
  lemma Ipv4LongRoundTrip(net: Inet6, n: nat)
    requires n < TwoTo32
    ensures Ipv4ToLong(net, LongToIpv4(n)) == n
  {
    var t := LongToIpv4(n);
    assert IsIpv4Text(t) && Ipv4Value(t) == n;
  }

  // ------------------------------------------------------ IPv6 bytes and bits

  /** `ord($ipPton[$k])`: byte k of the inet_pton result, 0 when it failed or is too short. */
  function ByteAt(p: Option<seq<byte>>, k: nat): byte
  {
    if p.Some? && k < |p.value| then p.value[k] else 0
  }

  /** The sixteen bytes the source reads from an inet_pton result. */
  function Block(p: Option<seq<byte>>): (bs: seq<byte>)
    ensures |bs| == 16
    ensures p.Some? && |p.value| == 16 ==> bs == p.value
  {
    seq(16, k requires 0 <= k < 16 => ByteAt(p, k))
  }

  /** Value of a byte string, most significant byte first (network order). */
  function BytesValue(bs: seq<byte>): (v: nat)
    ensures v < Pow2(8 * |bs|)
  {
    if bs == [] then 0
    else
      var rest := BytesValue(bs[1..]);
      ByteShift(bs[0], rest, |bs| - 1);
      bs[0] * Pow2(8 * (|bs| - 1)) + rest
  }

  /** A byte placed above k bytes' worth of value fits in k + 1 bytes. */
  lemma ByteShift(b: byte, rest: nat, k: nat)
    requires rest < Pow2(8 * k)
    ensures b * Pow2(8 * k) + rest < Pow2(8 * (k + 1))
  {
    Pow2Byte();
    Pow2Add(8, 8 * k);
    assert 8 + 8 * k == 8 * (k + 1);
    ShiftAdd(b, rest, 256, Pow2(8 * k));
  }

  /** Each byte as exactly eight binary digits (sprintf "%08b"), in order. */
  function ByteBits(bs: seq<byte>): (s: string)
    ensures |s| == 8 * |bs|
  {
    Pow2Byte();
    if bs == [] then "" else Bits(bs[0], 8) + ByteBits(bs[1..])
  }

  /** One more leading byte: eight more leading digits. */
  lemma ByteBitsStep(bs: seq<byte>)
    requires bs != [] && ByteBits(bs[1..]) == Bits(BytesValue(bs[1..]), 8 * (|bs| - 1))
    ensures ByteBits(bs) == Bits(BytesValue(bs), 8 * |bs|)
  {
    Pow2Byte();
    var rest, width := BytesValue(bs[1..]), 8 * (|bs| - 1);
    assert BytesValue(bs) == bs[0] * Pow2(width) + rest;
    BitsSplitAt(BytesValue(bs), bs[0], 8, rest, width);
    assert 8 + width == 8 * |bs|;
  }

  /** The byte-by-byte expansion is the fixed-width binary rendering of the bytes' value. */
  lemma {:induction false} ByteBitsValue(bs: seq<byte>)
    ensures ByteBits(bs) == Bits(BytesValue(bs), 8 * |bs|)
  {
    if bs != [] {
      ByteBitsValue(bs[1..]);
      ByteBitsStep(bs);
    }
  }

  /** Byte k occupies positions 8k .. 8k+7 of the expansion. */
  lemma {:induction false} ByteBitsAt(bs: seq<byte>, k: nat)
    requires k < |bs|
    ensures Pow2(8) == 256 && ByteBits(bs)[8 * k..8 * k + 8] == Bits(bs[k], 8)
  {
    Pow2Byte();
    if k > 0 {
      ByteBitsAt(bs[1..], k - 1);
      assert ByteBits(bs)[8 * k..8 * k + 8] == ByteBits(bs[1..])[8 * (k - 1)..8 * (k - 1) + 8];
    }
  }

  /**
   * The loop shared by ipv6ToLong and ip2bin: bytes 15 down to 0 of the
   * inet_pton result, each rendered in eight binary digits, prepended in turn.
   */
  method PtonBits(ipPton: Option<seq<byte>>) returns (bin: string)
    ensures |bin| == 128 && IsBits(bin)
    ensures bin == Bits(BytesValue(Block(ipPton)), 128)
    ensures forall k :: 0 <= k < 16 ==> bin[8 * k..8 * k + 8] == Bits(ByteAt(ipPton, k), 8)
  {
    Pow2Byte();
    ghost var block := Block(ipPton);
    var bits := 15;
    bin := "";
    while bits >= 0
      invariant -1 <= bits <= 15
      invariant bin == ByteBits(block[bits + 1..])
    {
      assert block[bits..][1..] == block[bits + 1..];
      bin := Bits(ByteAt(ipPton, bits), 8) + bin;
      bits := bits - 1;
    }
    assert bits == -1;
    assert block[0..] == block;
    assert bin == ByteBits(block);
    assert |bin| == 128;
    ByteBitsValue(block);
    forall k | 0 <= k < 16
      ensures bin[8 * k..8 * k + 8] == Bits(ByteAt(ipPton, k), 8)
    {
      ByteBitsAt(block, k);
    }
  }

  /** The value ipv6ToLong gives: 0 for invalid text, else the address bytes read big-endian. */
  function Ipv6Value(net: Inet6, ip: string): nat
  {
    if net.isIpv6(ip) then BytesValue(Block(net.pton(ip))) else 0
  }

  /** ipv6ToLong. */
  method Ipv6ToLong(net: Inet6, ipv6: string) returns (n: nat)
    ensures n == Ipv6Value(net, ipv6)
    ensures n < Pow2(128)
    ensures !net.isIpv6(ipv6) ==> n == 0
  {
    if !ValidateV6(net, ipv6) {
      return 0;
    }
    var ipPton := net.pton(ipv6);
    var ipv6long := PtonBits(ipPton);
    n := BinDec(ipv6long);
  }

  /** With a sound inet_pton, the value of a valid IPv6 text is that of its sixteen bytes. */
  lemma Ipv6ValueBytes(net: Inet6, ip: string)
    requires PtonSound(net) && net.isIpv6(ip)
    ensures Ipv6Value(net, ip) == BytesValue(net.pton(ip).value)
  {
  }

  // --------------------------------------------------- IPv6 groups and text

  /** Group g of a bit string: the value of its characters 16g .. 16g+15 (bindec of substr). */
  function Groups(bin: string, m: nat): (gs: seq<nat>)
    requires |bin| >= 16 * m
    ensures |gs| == m
  {
    seq(m, g requires 0 <= g < m => BinDec(bin[16 * g..16 * g + 16]))
  }

  /** Each group in lower-case hex (dechex) followed by ':'. */
  function Terminated(ws: seq<nat>): (s: string)
    ensures ws != [] ==> |s| >= 1
  {
    if ws == [] then "" else Terminated(ws[..|ws| - 1]) + HexText(ws[|ws| - 1]) + ":"
  }

  /** One more group: its hex and a ':' appended. */
  lemma TerminatedStep(ws: seq<nat>, k: nat)
    requires k < |ws|
    ensures Terminated(ws[..k + 1]) == Terminated(ws[..k]) + HexText(ws[k]) + ":"
  {
    assert ws[..k + 1][..k] == ws[..k];
  }

  /** The uncompressed colon form h0:h1:...: the groups in hex, without the final ':'. */
  function FullForm(ws: seq<nat>): string
    requires ws != []
  {
    var s := Terminated(ws);
    s[..|s| - 1]
  }

  /**
   * The group loop shared by longToIpv6 and bin2ip: eight 16-character slices,
   * each read in binary and appended in hex with a ':', then the last ':' cut.
   */
  method ColonHex(bin: string) returns (text: string)
    requires |bin| >= 128
    ensures text == FullForm(Groups(bin, 8))
  {
    ghost var gs := Groups(bin, 8);
    var bits := 0;
    var ipv6 := "";
    while bits <= 7
      invariant 0 <= bits <= 8
      invariant ipv6 == Terminated(gs[..bits])
    {
      TerminatedStep(gs, bits);
      var binPart := bin[bits * 16..bits * 16 + 16];
      assert gs[bits] == BinDec(binPart);
      ipv6 := ipv6 + HexText(BinDec(binPart)) + ":";
      bits := bits + 1;
    }
    assert gs[..8] == gs;
    text := ipv6[..|ipv6| - 1];
  }

  /** The big-endian 16-bit words of n, m of them. */
  function Words(n: nat, m: nat): (ws: seq<nat>)
    ensures |ws| == m && forall g :: 0 <= g < m ==> ws[g] < 65536
  {
    if m == 0 then [] else Words(n / 65536, m - 1) + [n % 65536]
  }

  /** Value of 16-bit words, most significant first. */
  function WordsValue(ws: seq<nat>): nat
  {
    if ws == [] then 0 else WordsValue(ws[..|ws| - 1]) * 65536 + ws[|ws| - 1]
  }

  /** Splitting off the low 16-bit word of an (16m)-bit number. */
  lemma WordSplit(n: nat, m: nat)
    requires m >= 1 && n < Pow2(16 * m)
    ensures n / 65536 < Pow2(16 * (m - 1)) && n % 65536 < Pow2(16)
    ensures (n / 65536) * Pow2(16) + n % 65536 == n
  {
    Pow2Word();
    Pow2Add(16 * (m - 1), 16);
    assert 16 * (m - 1) + 16 == 16 * m;
    var hi := n / 65536;
    if hi >= Pow2(16 * (m - 1)) {
      MulMonotone(Pow2(16 * (m - 1)), hi, 65536);
      assert false;
    }
  }

  /** The words of n read back as a number give n. */
  lemma {:induction false} WordsOfValue(n: nat, m: nat)
    requires n < Pow2(16 * m)
    ensures WordsValue(Words(n, m)) == n
  {
    if m > 0 {
      WordSplit(n, m);
      Pow2Word();
      WordsOfValue(n / 65536, m - 1);
      assert Words(n, m)[..m - 1] == Words(n / 65536, m - 1);
    }
  }

  /** Appending sixteen characters appends one group. */
  lemma GroupsAppend(prefix: string, suffix: string, m: nat)
    requires m >= 1 && |prefix| == 16 * (m - 1) && |suffix| == 16
    ensures Groups(prefix + suffix, m) == Groups(prefix, m - 1) + [BinDec(suffix)]
  {
    var bin := prefix + suffix;
    forall g | 0 <= g < m
      ensures Groups(bin, m)[g] == (Groups(prefix, m - 1) + [BinDec(suffix)])[g]
    {
      if g < m - 1 {
        assert bin[16 * g..16 * g + 16] == prefix[16 * g..16 * g + 16];
      } else {
        assert bin[16 * g..16 * g + 16] == suffix;
      }
    }
  }

  /** The 16m-bit rendering of n ends with the 16-bit rendering of its low word. */
  lemma BitsWordSplit(n: nat, m: nat)
    requires m >= 1 && n < Pow2(16 * m)
    ensures n / 65536 < Pow2(16 * (m - 1)) && n % 65536 < Pow2(16)
    ensures Bits(n, 16 * m) == Bits(n / 65536, 16 * (m - 1)) + Bits(n % 65536, 16)
  {
    WordSplit(n, m);
    BitsSplitAt(n, n / 65536, 16 * (m - 1), n % 65536, 16);
    assert 16 * (m - 1) + 16 == 16 * m;
  }

  lemma GroupsOfBitsStep(n: nat, m: nat)
    requires m >= 1 && n < Pow2(16 * m)
    requires n / 65536 < Pow2(16 * (m - 1))
    requires Groups(Bits(n / 65536, 16 * (m - 1)), m - 1) == Words(n / 65536, m - 1)
    ensures Groups(Bits(n, 16 * m), m) == Words(n, m)
  {
    BitsWordSplit(n, m);
    var prefix, suffix := Bits(n / 65536, 16 * (m - 1)), Bits(n % 65536, 16);
    GroupsAppend(prefix, suffix, m);
  }

  /** The groups of the 16m-bit rendering of n are the words of n. */
  lemma {:induction false} GroupsOfBits(n: nat, m: nat)
    requires n < Pow2(16 * m)
    ensures Groups(Bits(n, 16 * m), m) == Words(n, m)
  {
    if m > 0 {
      WordSplit(n, m);
      GroupsOfBits(n / 65536, m - 1);
      GroupsOfBitsStep(n, m);
    }
  }

  /** inet_ntop(inet_pton(text)): the runtime's canonical form of the text, if it parses. */
  function Reformat(net: Inet6, text: string): Option<string>
  {
    match net.pton(text)
    case None => None
    case Some(bytes) => net.ntop(bytes)
  }

  /** longToIpv6's result: binary of n, left-padded to 128 digits, grouped, joined, canonicalised. */
  function LongToIpv6Spec(net: Inet6, long: nat): Option<string>
  {
    Reformat(net, FullForm(Groups(PadLeft(ToBinary(long), 128), 8)))
  }

  /** The zero-padding loop shared by longToIpv6 and bin2ip: pad times, prepend "0". */
  method PrependZeros(bin: string, pad: nat) returns (out: string)
    ensures out == Zeros(pad) + bin
  {
    out := bin;
    var i := 1;
    while i <= pad
      invariant 1 <= i <= pad + 1
      invariant out == Zeros(i - 1) + bin
    {
      ZerosPrepend(i - 1, bin);
      out := "0" + out;
      i := i + 1;
    }
  }

  /** Padding the shortest binary of n < 2^128 to 128 digits and grouping it gives the words of n. */
  lemma PaddedGroups(n: nat)
    requires n < Pow2(128)
    ensures Groups(PadLeft(ToBinary(n), 128), 8) == Words(n, 8)
  {
    PadBinary(n, 128);
    GroupsOfBits(n, 8);
  }

  /** longToIpv6. */
  method LongToIpv6(net: Inet6, long: nat) returns (r: Option<string>)
    ensures r == LongToIpv6Spec(net, long)
    ensures long < Pow2(128) ==> r == Reformat(net, FullForm(Words(long, 8)))
  {
    var bin := ToBinary(long);
    if |bin| < 128 {
      bin := PrependZeros(bin, 128 - |bin|);
    }
    assert bin == PadLeft(ToBinary(long), 128);
    var text := ColonHex(bin);
    r := Reformat(net, text);
    if long < Pow2(128) {
      PaddedGroups(long);
    }
  }

  // ------------------------------------------------------ ip2bin and bin2ip

  /** ip2bin's result. */
  function Ip2BinSpec(net: Inet6, ip: string): Option<string>
  {
    match Version(net, ip)
    case None => None
    case Some(V4) => Some(ToBinary(Ipv4Value(ip)))
    case Some(V6) =>
      if net.pton(ip).None? then None else Some(Bits(Ipv6Value(net, ip), 128))
  }

  /** ip2bin. */
  method Ip2Bin(net: Inet6, ip: string) returns (r: Option<string>)
    ensures r == Ip2BinSpec(net, ip)
    ensures Version(net, ip) == None ==> r == None
    ensures Version(net, ip) == Some(V4) ==> r.Some? && BinDec(r.value) == Ipv4ToLong(net, ip)
    ensures Version(net, ip) == Some(V6) ==> (r.None? <==> net.pton(ip).None?)
    ensures Version(net, ip) == Some(V6) && r.Some? ==>
      |r.value| == 128 && IsBits(r.value) && BinDec(r.value) == Ipv6Value(net, ip)
  {
    var version := Version(net, ip);
    if version.Some? {
      if version.value == V4 {
        return Some(ToBinary(Ipv4Value(ip)));
      } else {
        var ipPton := net.pton(ip);
        if ipPton.None? {
          return None;
        }
        var ipBin := PtonBits(ipPton);
        return Some(ipBin);
      }
    }
    return None;
  }

  /** bin2ip's result, by length only. */
  function Bin2IpSpec(net: Inet6, bin: string): Option<string>
  {
    if |bin| <= 32 then Some(Long2Ip(BinDec(bin)))
    else if |bin| != 128 then None
    else Reformat(net, FullForm(Groups(bin, 8)))
  }

  /** A string of at most 32 digits is read by long2ip as the dotted quad of its value. */
  lemma ShortBinQuad(bin: string)
    requires |bin| <= 32
    ensures BinDec(bin) < TwoTo32
    ensures IsIpv4Text(Long2Ip(BinDec(bin))) && Ipv4Value(Long2Ip(BinDec(bin))) == BinDec(bin)
  {
    var v := BinDec(bin);
    ShortBinBound(bin);
    Long2IpSmall(v);
    DottedQuadValue(v);
  }

  /** long2ip of a value below 2^32 is its dotted quad. */
  lemma Long2IpSmall(v: nat)
    requires v < TwoTo32
    ensures Long2Ip(v) == DottedQuad(v)
  {
    assert v % TwoTo32 == v;
  }

  lemma ShortBinBound(bin: string)
    requires |bin| <= 32
    ensures BinDec(bin) < TwoTo32
  {
    BinDecBound(bin);
    Pow2Mono(|bin|, 32);
    Pow2Quad();
  }

  /** The groups of 128 binary digits are the words of their value. */
  lemma BitsGroups(bin: string)
    requires |bin| == 128 && IsBits(bin)
    ensures Groups(bin, 8) == Words(BinDec(bin), 8)
  {
    BitsOfValue(bin);
    GroupsOfBits(BinDec(bin), 8);
  }

  /** bin2ip. */
  method Bin2Ip(net: Inet6, bin: string) returns (r: Option<string>)
    ensures r == Bin2IpSpec(net, bin)
    ensures |bin| <= 32 ==> r.Some? && IsIpv4Text(r.value) && Ipv4Value(r.value) == BinDec(bin)
    ensures 32 < |bin| && |bin| != 128 ==> r == None
    ensures |bin| == 128 && IsBits(bin) ==> r == Reformat(net, FullForm(Words(BinDec(bin), 8)))
  {
    if |bin| <= 32 {
      ShortBinQuad(bin);
      return Some(Long2Ip(BinDec(bin)));
    }
    if |bin| != 128 {
      return None;
    }
    var padded := PrependZeros(bin, 128 - |bin|);
    assert padded == bin;
    var text := ColonHex(padded);
    r := Reformat(net, text);
    if IsBits(bin) {
      BitsGroups(bin);
    }
  }

  lemma {:induction false} Pow2Mono(a: nat, b: nat)
    requires a <= b
    ensures Pow2(a) <= Pow2(b)
  {
    if a < b {
      Pow2Mono(a, b - 1);
    }
  }

  // -------------------------------------------------------------- round trips

  /** What the real inet_pton does for every text filter_var accepts as IPv6: sixteen bytes. */
  ghost predicate PtonSound(net: Inet6)
  {
    forall t :: net.isIpv6(t) ==> net.pton(t).Some? && |net.pton(t).value| == 16
  }

  /** One field of the colon form: one to four lower-case hexadecimal digits. */
  predicate IsHexField(f: string)
  {
    1 <= |f| <= 4 && forall i :: 0 <= i < |f| ==> IsHexDigit(f[i])
  }

  /**
   * `text` cut at ':' is |ws| hexadecimal fields whose values are ws, in order:
   * the uncompressed form of RFC 4291 section 2.2 when ws are eight 16-bit words.
   */
  predicate ReadsAsWords(text: string, ws: seq<nat>)
  {
    var fields := Split(text, ':');
    |fields| == |ws| && forall g :: 0 <= g < |ws| ==> IsHexField(fields[g]) && HexValue(fields[g]) == ws[g]
  }

  /**
   * What the real inet_pton does for the uncompressed form: text of eight hex
   * fields with values g0 .. g7 gives the sixteen bytes whose big-endian
   * 16-bit words are g0 .. g7.
   */
  ghost predicate ReadsFullForm(net: Inet6)
  {
    forall text: string, b: seq<byte> ::
      |b| == 16 && ReadsAsWords(text, Words(BytesValue(b), 8)) ==> net.pton(text) == Some(b)
  }

  /** The hex of each word, in order. */
  function HexFields(ws: seq<nat>): (fs: seq<string>)
    ensures |fs| == |ws|
  {
    seq(|ws|, g requires 0 <= g < |ws| => HexText(ws[g]))
  }

  /** The text the group loop builds ends in ':', which FullForm cuts. */
  lemma TerminatedColon(ws: seq<nat>)
    requires ws != []
    ensures Terminated(ws) == FullForm(ws) + ":"
  {
  }

  /** One more word: ':' and its hex appended. */
  lemma FullFormStep(ws: seq<nat>)
    requires |ws| >= 2
    ensures FullForm(ws) == FullForm(ws[..|ws| - 1]) + ":" + HexText(ws[|ws| - 1])
  {
    var init, h := ws[..|ws| - 1], HexText(ws[|ws| - 1]);
    TerminatedColon(init);
    var t := Terminated(ws);
    assert t == FullForm(init) + ":" + h + ":";
    assert t[..|t| - 1] == FullForm(init) + ":" + h;
  }

  lemma HexFieldsStep(ws: seq<nat>)
    requires ws != []
    ensures HexFields(ws) == HexFields(ws[..|ws| - 1]) + [HexText(ws[|ws| - 1])]
  {
  }

  /** The group loop's text is the hex of the words joined by ':'. */
  lemma {:induction false} FullFormJoin(ws: seq<nat>)
    requires ws != []
    ensures FullForm(ws) == Join(HexFields(ws), ':')
  {
    if |ws| == 1 {
      assert Terminated(ws) == Terminated([]) + HexText(ws[0]) + ":";
    } else {
      var init := ws[..|ws| - 1];
      FullFormJoin(init);
      FullFormStep(ws);
      HexFieldsStep(ws);
      JoinAppend(HexFields(init), HexText(ws[|ws| - 1]), ':');
    }
  }

  /** Cutting the group loop's text at ':' gives back each word's hex. */
  lemma FullFormSplits(ws: seq<nat>)
    requires ws != []
    ensures Split(FullForm(ws), ':') == HexFields(ws)
  {
    var fs := HexFields(ws);
    forall g | 0 <= g < |fs|
      ensures ':' !in fs[g]
    {
      assert forall i :: 0 <= i < |fs[g]| ==> IsHexDigit(fs[g][i]);
    }
    FullFormJoin(ws);
    SplitJoin(fs, ':');
  }

  /** The group loop's text of 16-bit words reads back as those words. */
  lemma FullFormReads(ws: seq<nat>)
    requires ws != [] && forall g :: 0 <= g < |ws| ==> ws[g] < 65536
    ensures ReadsAsWords(FullForm(ws), ws)
  {
    FullFormSplits(ws);
    Pow2Word();
    forall g | 0 <= g < |ws|
      ensures IsHexField(HexText(ws[g]))
    {
      HexTextLength(ws[g], 4);
    }
  }

  /** For valid IPv6 text, longToIpv6(ipv6ToLong(t)) is the runtime's canonical form of t. */
  lemma Ipv6LongRoundTrip(net: Inet6, t: string)
    requires PtonSound(net) && ReadsFullForm(net) && net.isIpv6(t)
    ensures LongToIpv6Spec(net, Ipv6Value(net, t)) == Reformat(net, t)
  {
    var b := net.pton(t).value;
    var n := BytesValue(b);
    assert Ipv6Value(net, t) == n;
    PadBinary(n, 128);
    GroupsOfBits(n, 8);
    FullFormReads(Words(n, 8));
    PtonReadsWords(net, FullForm(Words(n, 8)), b);
  }

  /** For valid IPv6 text, ip2bin gives 128 digits and bin2ip of them the canonical form of t. */
  lemma Ipv6BinRoundTrip(net: Inet6, t: string)
    requires PtonSound(net) && ReadsFullForm(net) && Version(net, t) == Some(V6)
    ensures Ip2BinSpec(net, t).Some? && |Ip2BinSpec(net, t).value| == 128
    ensures Bin2IpSpec(net, Ip2BinSpec(net, t).value) == Reformat(net, t)
  {
    var b := net.pton(t).value;
    var n := BytesValue(b);
    var bin := Bits(n, 128);
    assert Ip2BinSpec(net, t) == Some(bin);
    GroupsOfBits(n, 8);
    FullFormReads(Words(n, 8));
    PtonReadsWords(net, FullForm(Words(n, 8)), b);
  }

  /** For a valid dotted quad, ip2bin gives at most 32 digits and bin2ip of them the same text. */
  lemma Ipv4BinRoundTrip(net: Inet6, t: string)
    requires IsIpv4Text(t)
    ensures Ip2BinSpec(net, t).Some? && |Ip2BinSpec(net, t).value| <= 32
    ensures Bin2IpSpec(net, Ip2BinSpec(net, t).value) == Some(t)
  {
    Ipv4ValueText(t);
    var v := Ipv4Value(t);
    assert Ip2BinSpec(net, t) == Some(ToBinary(v));
    Pow2Quad();
    ToBinaryLength(v, 32);
    assert BinDec(ToBinary(v)) == v;
    assert v % TwoTo32 == v;
  }

  /** A 128-digit string of zeros is the all-zero address (printed "::" by inet_ntop). */
  lemma Bin2IpAllZeros(net: Inet6)
    requires ReadsFullForm(net)
    ensures Bin2IpSpec(net, Zeros(128)) == net.ntop(seq(16, k => 0))
  {
    var zero: seq<byte> := seq(16, k => 0);
    var text := FullForm(Words(0, 8));
    ZerosText(net);
    assert BytesValue(zero) == 0 by {
      ZeroBytes(zero);
    }
    FullFormReads(Words(0, 8));
    PtonReadsWords(net, text, zero);
  }

  /** ReadsFullForm for one text and one block of bytes. */
  lemma PtonReadsWords(net: Inet6, text: string, b: seq<byte>)
    requires ReadsFullForm(net) && |b| == 16 && ReadsAsWords(text, Words(BytesValue(b), 8))
    ensures net.pton(text) == Some(b)
  {
  }

  /** 128 zeros are grouped as the eight words of 0. */
  lemma ZerosText(net: Inet6)
    ensures Bin2IpSpec(net, Zeros(128)) == Reformat(net, FullForm(Words(0, 8)))
  {
    Pow2Word();
    assert Zeros(128) == Bits(0, 128) by {
      BitsOfValue(Zeros(128));
    }
    GroupsOfBits(0, 8);
  }

  lemma {:induction false} ZeroBytes(bs: seq<byte>)
    requires forall k :: 0 <= k < |bs| ==> bs[k] == 0
    ensures BytesValue(bs) == 0
  {
    if bs != [] {
      ZeroBytes(bs[1..]);
    }
  }
}
