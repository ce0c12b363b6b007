/**
 * The line scanner of localIpsV4 (helpers/IP.php:21-45) and the lookup of
 * localIpV4 (helpers/IP.php:52-57). The output of the interface-listing
 * command is passed in as its lines. The three line patterns are written as
 * hand-made matchers, each with a declarative reading of what a match is.
 */
module InterfaceScanner {
  import opened Wrappers
  import opened Numerals
  import opened Ipv4Text

  /** The name in force before any header line; while it is, keys get the line index appended. */
  const Placeholder: string := "interface"
  const LinkMarker: string := "Link"
  const LabelledPrefix: string := "inet addr:"
  const BarePrefix: string := "inet "

  /** PCRE's \s: space, tab, line feed, vertical tab, form feed, carriage return. */
  predicate IsSpace(c: char)
  {
    c == ' ' || c == '\t' || c == '\n' || c as int == 11 || c as int == 12 || c == '\r'
  }

  /** The character classes the patterns repeat. */
  datatype CharClass = NameChars | Digits | Blanks | QuadChars

  predicate InClass(c: char, cls: CharClass)
  {
    match cls
    case NameChars => 'a' <= c <= 'z' || IsDigit(c)
    case Digits => IsDigit(c)
    case Blanks => IsSpace(c)
    case QuadChars => IsDigit(c) || c == '.'
  }

  /** End of the longest run of `cls` characters of `s` starting at `i`. */
  function RunEnd(s: string, i: nat, cls: CharClass): (j: nat)
    requires i <= |s|
    ensures i <= j <= |s|
    ensures forall k :: i <= k < j ==> InClass(s[k], cls)
    ensures j == |s| || !InClass(s[j], cls)
    decreases |s| - i
  {
    if i < |s| && InClass(s[i], cls) then RunEnd(s, i + 1, cls) else i
  }

  /** A run that is followed by something outside the class is the longest run. */
  lemma {:induction false} RunEndAt(s: string, i: nat, cls: CharClass, j: nat)
    requires i <= j <= |s|
    requires forall k :: i <= k < j ==> InClass(s[k], cls)
    requires j == |s| || !InClass(s[j], cls)
    ensures RunEnd(s, i, cls) == j
    decreases j - i
  {
    if i < j {
      RunEndAt(s, i + 1, cls, j);
    }
  }

  // ------------------------------------------------------------ header lines

  /** The captures of ^([a-z0-9]+)(:\d{1,2})?\s+Link: the name, and the alias ("" when absent). */
  datatype HeaderMatch = HeaderMatch(name: string, alias: string)

  /** At `i`: at least one \s, then "Link". */
  predicate SpacesThenLink(line: string, i: nat)
    requires i <= |line|
  {
    var j := RunEnd(line, i, Blanks);
    i < j && |LinkMarker| <= |line| - j && line[j..j + |LinkMarker|] == LinkMarker
  }

  /**
   * The header pattern, anchored at the start of the line. The name is the
   * whole leading [a-z0-9] run (a shorter one would be followed by a name
   * character, which neither ':' nor \s matches). After a ':' the digit run
   * must have one or two digits and be followed by \s.
   */
  function MatchHeader(line: string): Option<HeaderMatch>
  {
    var t := RunEnd(line, 0, NameChars);
    if t == 0 then None
    else if t < |line| && line[t] == ':' then
      var d := RunEnd(line, t + 1, Digits);
      if t + 1 < d <= t + 3 && SpacesThenLink(line, d) then Some(HeaderMatch(line[..t], line[t..d]))
      else None
    else if SpacesThenLink(line, t) then Some(HeaderMatch(line[..t], ""))
    else None
  }

  predicate IsToken(s: string)
  {
    |s| >= 1 && forall k :: 0 <= k < |s| ==> InClass(s[k], NameChars)
  }

  predicate IsAlias(s: string)
  {
    s == [] || (2 <= |s| <= 3 && s[0] == ':' && forall k :: 1 <= k < |s| ==> IsDigit(s[k]))
  }

  predicate IsBlank(s: string)
  {
    |s| >= 1 && forall k :: 0 <= k < |s| ==> IsSpace(s[k])
  }

  /** `line` read as name token, alias, blanks, "Link" and whatever follows. */
  predicate HeaderParts(line: string, token: string, alias: string, blank: string, rest: string)
  {
    IsToken(token) && IsAlias(alias) && IsBlank(blank) && line == token + alias + blank + LinkMarker + rest
  }

  /** A string is the concatenation of its pieces between cut points. */
  lemma Cut(s: string, a: nat, b: nat, c: nat, d: nat)
    requires a <= b <= c <= d <= |s|
    ensures s == s[..a] + s[a..b] + s[b..c] + s[c..d] + s[d..]
  {
  }

  /** The two captures of a header match lie side by side at the start of the line. */
  lemma HeaderCaptures(line: string)
    requires MatchHeader(line).Some?
    ensures var h := MatchHeader(line).value;
      |h.name| + |h.alias| <= |line| && line[..|h.name|] == h.name &&
      line[|h.name|..|h.name| + |h.alias|] == h.alias &&
      IsToken(h.name) && IsAlias(h.alias) && SpacesThenLink(line, |h.name| + |h.alias|)
  {
  }

  /** Captures side by side, then blanks and "Link": a reading of the line by the pattern. */
  lemma CapturesReading(line: string, name: string, alias: string)
    requires |name| + |alias| <= |line| && line[..|name|] == name
    requires line[|name|..|name| + |alias|] == alias
    requires IsToken(name) && IsAlias(alias) && SpacesThenLink(line, |name| + |alias|)
    ensures exists blank, rest :: HeaderParts(line, name, alias, blank, rest)
  {
    var t, d := |name|, |name| + |alias|;
    var j := RunEnd(line, d, Blanks);
    var blank, rest := line[d..j], line[j + |LinkMarker|..];
    assert IsBlank(blank);
    Cut(line, t, d, j, j + |LinkMarker|);
    assert HeaderParts(line, name, alias, blank, rest);
  }

  /** A header match is a reading of the line by the pattern. */
  lemma HeaderSound(line: string)
    requires MatchHeader(line).Some?
    ensures exists blank, rest :: HeaderParts(line, MatchHeader(line).value.name, MatchHeader(line).value.alias, blank, rest)
  {
    var h := MatchHeader(line).value;
    HeaderCaptures(line);
    CapturesReading(line, h.name, h.alias);
  }

  /** Every reading of the line by the pattern is the one the matcher finds. */
  lemma HeaderComplete(line: string, token: string, alias: string, blank: string, rest: string)
    requires HeaderParts(line, token, alias, blank, rest)
    ensures MatchHeader(line) == Some(HeaderMatch(token, alias))
  {
    var t, d := |token|, |token| + |alias|;
    var j := d + |blank|;
    assert line[..t] == token;
    assert line[t..d] == alias;
    assert line[d..j] == blank;
    assert line[j..j + |LinkMarker|] == LinkMarker;
    assert line[d] == blank[0];
    assert line[j] == 'L';
    if alias == [] {
      RunEndAt(line, 0, NameChars, t);
    } else {
      assert line[t] == ':';
      RunEndAt(line, 0, NameChars, t);
      RunEndAt(line, t + 1, Digits, d);
    }
    RunEndAt(line, d, Blanks, j);
  }

  // ----------------------------------------------------------- address lines

  /** At position `p`: the tag, then the longest [0-9.] run, a dotted quad, then a \s character. */
  predicate AddressAt(line: string, tag: string, p: nat)
  {
    p + |tag| <= |line| && line[p..p + |tag|] == tag &&
    var e := RunEnd(line, p + |tag|, QuadChars);
    e < |line| && IsSpace(line[e]) && IsIpv4Text(line[p + |tag|..e])
  }

  /** The dotted quad captured at `p`. */
  function QuadAt(line: string, tag: string, p: nat): string
    requires AddressAt(line, tag, p)
  {
    line[p + |tag|..RunEnd(line, p + |tag|, QuadChars)]
  }

  /** The leftmost position at or after `from` where the address pattern matches. */
  function FirstAddress(line: string, tag: string, from: nat): (r: Option<nat>)
    requires from <= |line|
    ensures r.Some? ==> from <= r.value <= |line| && AddressAt(line, tag, r.value)
    ensures r.Some? ==> forall p :: from <= p < r.value ==> !AddressAt(line, tag, p)
    ensures r.None? ==> forall p :: from <= p <= |line| ==> !AddressAt(line, tag, p)
    decreases |line| - from
  {
    if AddressAt(line, tag, from) then Some(from)
    else if from == |line| then None
    else FirstAddress(line, tag, from + 1)
  }

  /**
   * The unanchored patterns tag(QUAD)\s of helpers/IP.php:34 and :37. Only
   * a quad followed by \s can end the match, and its characters are all
   * [0-9.], so the capture at a position is the longest [0-9.] run there.
   */
  function MatchAddress(line: string, tag: string): (r: Option<string>)
    ensures r.Some? ==> IsIpv4Text(r.value)
  {
    match FirstAddress(line, tag, 0)
    case None => None
    case Some(p) => Some(QuadAt(line, tag, p))
  }

  /** `line` read as anything, the tag, a dotted quad, a \s character and anything. */
  predicate AddressParts(line: string, tag: string, before: string, quad: string, sp: char, rest: string)
  {
    IsIpv4Text(quad) && IsSpace(sp) && line == before + tag + quad + [sp] + rest
  }

  /** Where the pieces of a reading sit in the line. */
  lemma PartsSlices(line: string, tag: string, before: string, quad: string, sp: char, rest: string)
    requires line == before + tag + quad + [sp] + rest
    ensures |before| + |tag| + |quad| < |line|
    ensures line[|before|..|before| + |tag|] == tag
    ensures line[|before| + |tag|..|before| + |tag| + |quad|] == quad
    ensures line[|before| + |tag| + |quad|] == sp
  {
  }

  /** A piece written with digits and dots is a run of quad characters in the line. */
  lemma QuadRun(line: string, q: nat, quad: string)
    requires q + |quad| <= |line| && line[q..q + |quad|] == quad
    requires forall i :: 0 <= i < |quad| ==> IsDigit(quad[i]) || quad[i] == '.'
    ensures forall k :: q <= k < q + |quad| ==> InClass(line[k], QuadChars)
  {
    forall k | q <= k < q + |quad|
      ensures InClass(line[k], QuadChars)
    {
      assert line[k] == quad[k - q];
    }
  }

  /** Every reading of the line by the pattern is a match position of the matcher. */
  lemma PartsAt(line: string, tag: string, before: string, quad: string, sp: char, rest: string)
    requires AddressParts(line, tag, before, quad, sp, rest)
    ensures AddressAt(line, tag, |before|) && QuadAt(line, tag, |before|) == quad
  {
    var q := |before| + |tag|;
    var e := q + |quad|;
    PartsSlices(line, tag, before, quad, sp, rest);
    Ipv4TextChars(quad);
    QuadRun(line, q, quad);
    RunEndAt(line, q, QuadChars, e);
  }

  /** A line cut around one character. */
  lemma CutAround(line: string, p: nat, q: nat, e: nat)
    requires p <= q <= e < |line|
    ensures line == line[..p] + line[p..q] + line[q..e] + [line[e]] + line[e + 1..]
  {
    Cut(line, p, q, e, e + 1);
    assert line[e..e + 1] == [line[e]];
  }

  /** Every match position of the matcher is a reading of the line by the pattern. */
  lemma AtParts(line: string, tag: string, p: nat)
    requires AddressAt(line, tag, p)
    ensures AddressParts(line, tag, line[..p], QuadAt(line, tag, p), line[RunEnd(line, p + |tag|, QuadChars)],
                         line[RunEnd(line, p + |tag|, QuadChars) + 1..])
  {
    var q := p + |tag|;
    var e := RunEnd(line, q, QuadChars);
    CutAround(line, p, q, e);
  }

  /** A match is a reading of the line by the pattern. */
  lemma AddressSound(line: string, tag: string)
    requires MatchAddress(line, tag).Some?
    ensures exists before, sp, rest :: AddressParts(line, tag, before, MatchAddress(line, tag).value, sp, rest)
  {
    var p := FirstAddress(line, tag, 0).value;
    AtParts(line, tag, p);
  }

  /** The match is the leftmost reading of the line by the pattern. */
  lemma AddressLeftmost(line: string, tag: string, before: string, quad: string, sp: char, rest: string)
    requires AddressParts(line, tag, before, quad, sp, rest)
    requires forall b, q, c, r :: AddressParts(line, tag, b, q, c, r) ==> |before| <= |b|
    ensures MatchAddress(line, tag) == Some(quad)
  {
    PartsAt(line, tag, before, quad, sp, rest);
    var first := FirstAddress(line, tag, 0);
    var p := first.value;
    AtParts(line, tag, p);
    assert |line[..p]| == p;
    assert p == |before|;
  }

  /** No match: the line has no reading by the pattern. */
  lemma AddressAbsent(line: string, tag: string)
    requires MatchAddress(line, tag).None?
    ensures forall b, q, c, r :: !AddressParts(line, tag, b, q, c, r)
  {
    forall b, q, c, r | AddressParts(line, tag, b, q, c, r)
      ensures false
    {
      PartsAt(line, tag, b, q, c, r);
    }
  }

  // ----------------------------------------------------------------- scanning

  /** What a line contributes: a new interface name, an address, or nothing. */
  datatype LineKind = Header(name: string) | Address(quad: string) | Other

  /** The if / elseif / elseif of the loop body: header first, then the labelled form, then the bare one. */
  function Classify(line: string): (k: LineKind)
    ensures k.Address? ==> IsIpv4Text(k.quad)
  {
    match MatchHeader(line)
    case Some(h) => Header(h.name + h.alias)
    case None =>
      match MatchAddress(line, LabelledPrefix)
      case Some(q) => Address(q)
      case None =>
        match MatchAddress(line, BarePrefix)
        case Some(q) => Address(q)
        case None => Other
  }

  /** The loop's variables: $ifName, $i and $localAddrs. */
  datatype Scan = Scan(ifName: string, index: nat, addrs: map<string, string>)

  /** The key an address is stored under. */
  function KeyFor(ifName: string, i: nat): string
  {
    if ifName == Placeholder then Placeholder + DecText(i) else ifName
  }

  /** One pass of the loop body, on the line's classification. */
  function Step(s: Scan, kind: LineKind): Scan
  {
    match kind
    case Header(n) => Scan(n, s.index + 1, s.addrs)
    case Address(q) => Scan(s.ifName, s.index + 1, s.addrs[KeyFor(s.ifName, s.index) := q])
    case Other => Scan(s.ifName, s.index + 1, s.addrs)
  }

  /** The variables after the loop has consumed lines of the given kinds. */
  function Fold(kinds: seq<LineKind>): Scan
  {
    if kinds == [] then Scan(Placeholder, 0, map[])
    else Step(Fold(kinds[..|kinds| - 1]), kinds[|kinds| - 1])
  }

  /** The classification of every line. */
  function Kinds(lines: seq<string>): seq<LineKind>
  {
    seq(|lines|, j requires 0 <= j < |lines| => Classify(lines[j]))
  }

  /** The variables after the loop has consumed `lines`. */
  function Run(lines: seq<string>): Scan
  {
    Fold(Kinds(lines))
  }

  /** localIpsV4 on the lines of the command's output. */
  method LocalIpsV4(lines: seq<string>) returns (localAddrs: map<string, string>)
    ensures localAddrs == Run(lines).addrs
    ensures lines == [] ==> localAddrs == map[]
  {
    ghost var kinds := Kinds(lines);
    localAddrs := map[];
    var ifName := Placeholder;
    var i := 0;
    while i < |lines|
      invariant 0 <= i <= |lines|
      invariant Fold(kinds[..i]) == Scan(ifName, i, localAddrs)
    {
      assert kinds[..i + 1][..i] == kinds[..i];
      assert kinds[i] == Classify(lines[i]);
      var str := lines[i];
      var header := MatchHeader(str);
      if header.Some? {
        ifName := header.value.name;
        if |header.value.alias| > 0 {
          ifName := ifName + header.value.alias;
        }
      } else {
        var labelled := MatchAddress(str, LabelledPrefix);
        if labelled.Some? {
          localAddrs := localAddrs[KeyFor(ifName, i) := labelled.value];
        } else {
          var bare := MatchAddress(str, BarePrefix);
          if bare.Some? {
            localAddrs := localAddrs[KeyFor(ifName, i) := bare.value];
          }
        }
      }
      i := i + 1;
    }
    assert kinds[..|lines|] == kinds;
  }

  // ------------------------------------------------------ what the scan keeps

  /** The counter counts every line. */
  lemma {:induction false} FoldIndex(kinds: seq<LineKind>)
    ensures Fold(kinds).index == |kinds|
  {
    if kinds != [] {
      FoldIndex(kinds[..|kinds| - 1]);
    }
  }

  lemma PrefixOfPrefix(kinds: seq<LineKind>, j: nat)
    requires j < |kinds|
    ensures kinds[..j + 1][..j] == kinds[..j] && kinds[..j + 1][j] == kinds[j]
  {
  }

  /** Before any header line, the current name is the placeholder. */
  lemma {:induction false} NameWithoutHeader(kinds: seq<LineKind>, j: nat)
    requires j <= |kinds|
    requires forall k :: 0 <= k < j ==> !kinds[k].Header?
    ensures Fold(kinds[..j]).ifName == Placeholder
  {
    if j > 0 {
      NameWithoutHeader(kinds, j - 1);
      PrefixOfPrefix(kinds, j - 1);
    }
  }

  /** After a header line, the current name is its name until the next header line. */
  lemma {:induction false} NameAfterHeader(kinds: seq<LineKind>, h: nat, j: nat)
    requires h < j <= |kinds|
    requires kinds[h].Header?
    requires forall k :: h < k < j ==> !kinds[k].Header?
    ensures Fold(kinds[..j]).ifName == kinds[h].name
  {
    PrefixOfPrefix(kinds, j - 1);
    if j - 1 > h {
      NameAfterHeader(kinds, h, j - 1);
    }
  }

  /** Line `j` is an address line that stores under `key`. */
  predicate Writes(kinds: seq<LineKind>, j: nat, key: string)
  {
    j < |kinds| && kinds[j].Address? && KeyFor(Fold(kinds[..j]).ifName, j) == key
  }

  /** Whether a line stores under a key does not depend on the lines after it. */
  lemma WritesInit(kinds: seq<LineKind>, j: nat, key: string)
    requires j < |kinds| - 1
    ensures Writes(kinds[..|kinds| - 1], j, key) == Writes(kinds, j, key)
  {
    assert kinds[..|kinds| - 1][..j] == kinds[..j];
  }

  /** The last line, if it stores under `key`, sets it. */
  lemma LastLineWrites(kinds: seq<LineKind>, key: string)
    requires kinds != [] && Writes(kinds, |kinds| - 1, key)
    ensures key in Fold(kinds).addrs && Fold(kinds).addrs[key] == kinds[|kinds| - 1].quad
  {
    FoldIndex(kinds[..|kinds| - 1]);
  }

  /** The last line, if it does not store under `key`, leaves it as it was. */
  lemma LastLineKeeps(kinds: seq<LineKind>, key: string)
    requires kinds != [] && !Writes(kinds, |kinds| - 1, key)
    ensures var before := Fold(kinds[..|kinds| - 1]).addrs;
      (key in Fold(kinds).addrs <==> key in before) &&
      (key in before ==> Fold(kinds).addrs[key] == before[key])
  {
    var init := kinds[..|kinds| - 1];
    FoldIndex(init);
    var st, kind := Fold(init), kinds[|kinds| - 1];
    assert Fold(kinds) == Step(st, kind);
    if kind.Address? {
      var written := KeyFor(st.ifName, st.index);
      assert written != key;
      assert Fold(kinds).addrs == st.addrs[written := kind.quad];
    } else {
      assert Fold(kinds).addrs == st.addrs;
    }
  }

  /** A key holds the address of the last line that stores under it. */
  lemma {:induction false} LastWriteWins(kinds: seq<LineKind>, j: nat, key: string)
    requires Writes(kinds, j, key)
    requires forall j2 :: j < j2 < |kinds| ==> !Writes(kinds, j2, key)
    ensures key in Fold(kinds).addrs && Fold(kinds).addrs[key] == kinds[j].quad
  {
    var n := |kinds| - 1;
    if j == n {
      LastLineWrites(kinds, key);
    } else {
      var init := kinds[..n];
      WritesInit(kinds, j, key);
      forall j2 | j < j2 < |init|
        ensures !Writes(init, j2, key)
      {
        WritesInit(kinds, j2, key);
      }
      LastWriteWins(init, j, key);
      LastLineKeeps(kinds, key);
    }
  }

  /** A key no line stores under is absent. */
  lemma {:induction false} NeverWritten(kinds: seq<LineKind>, key: string)
    requires forall j :: 0 <= j < |kinds| ==> !Writes(kinds, j, key)
    ensures key !in Fold(kinds).addrs
  {
    if kinds != [] {
      var init := kinds[..|kinds| - 1];
      forall j | 0 <= j < |init|
        ensures !Writes(init, j, key)
      {
        WritesInit(kinds, j, key);
      }
      NeverWritten(init, key);
      LastLineKeeps(kinds, key);
    }
  }

  /** Only addresses of address lines are stored. */
  lemma {:induction false} StoredQuads(kinds: seq<LineKind>)
    requires forall j :: 0 <= j < |kinds| && kinds[j].Address? ==> IsIpv4Text(kinds[j].quad)
    ensures forall key :: key in Fold(kinds).addrs ==> IsIpv4Text(Fold(kinds).addrs[key])
  {
    if kinds != [] {
      StoredQuads(kinds[..|kinds| - 1]);
    }
  }

  lemma PlaceholderKeysDiffer(i: nat, j: nat)
    requires i != j
    ensures Placeholder + DecText(i) != Placeholder + DecText(j)
  {
    var a, b := Placeholder + DecText(i), Placeholder + DecText(j);
    assert a[|Placeholder|..] == DecText(i);
    assert b[|Placeholder|..] == DecText(j);
    assert DecValue(DecText(i)) != DecValue(DecText(j));
  }

  /** With no header line at all, every address is kept, under "interface" and its line index. */
  lemma NoHeaderKeepsEveryAddress(kinds: seq<LineKind>, j: nat)
    requires forall k :: 0 <= k < |kinds| ==> !kinds[k].Header?
    requires j < |kinds| && kinds[j].Address?
    ensures Placeholder + DecText(j) in Fold(kinds).addrs
    ensures Fold(kinds).addrs[Placeholder + DecText(j)] == kinds[j].quad
  {
    var key := Placeholder + DecText(j);
    NameWithoutHeader(kinds, j);
    forall j2 | j < j2 < |kinds|
      ensures !Writes(kinds, j2, key)
    {
      NameWithoutHeader(kinds, j2);
      PlaceholderKeysDiffer(j2, j);
    }
    LastWriteWins(kinds, j, key);
  }

  // ----------------------------------------------------------------- lookup

  /** localIpV4: the address stored under the name, or null (None) for a name never stored. */
  method LocalIpV4(lines: seq<string>, ifName: string) returns (ip: Option<string>)
    ensures ip.Some? <==> ifName in Run(lines).addrs
    ensures ip.Some? ==> ip.value == Run(lines).addrs[ifName] && IsIpv4Text(ip.value)
    ensures (forall j :: 0 <= j < |lines| ==> !Writes(Kinds(lines), j, ifName)) ==> ip == None
  {
    var ips := LocalIpsV4(lines);
    ghost var kinds := Kinds(lines);
    StoredQuads(kinds);
    if forall j :: 0 <= j < |lines| ==> !Writes(kinds, j, ifName) {
      NeverWritten(kinds, ifName);
    }
    ip := if ifName in ips then Some(ips[ifName]) else None;
  }
}
