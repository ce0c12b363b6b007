# php-ip-helper address codec and interface scanner, in Dafny

This project models `helpers/IP.php`, the IP helper class of the kfosoft
PHP helper library, and proves properties of the model:

- **Validation and family detection** (`validate`, `validateV4`,
  `validateV6`, `version`): an unknown validator type is an error; IPv4 is
  tried before IPv6.
- **IPv4 conversions** (`ipv4ToLong`, `longToIpv4`): dotted quad to the
  unsigned 32-bit value and back, including the two's-complement expression
  `-(4294967295 - (n - 1))` that `longToIpv4` hands to `long2ip`.
- **IPv6 conversions** (`ipv6ToLong`, `longToIpv6`): the sixteen address bytes
  expanded to 128 binary digits and read as an integer; the integer padded to
  128 digits, cut into eight 16-bit groups and written in hex.
- **Bit strings** (`ip2bin`, `bin2ip`): the binary form of either family, and
  the dispatch of `bin2ip` on length alone.
- **Interface scanning** (`localIpsV4`, `localIpV4`): the loop that reads the
  lines of the interface-listing output, keeps the current interface name and
  line counter, and stores each address line's dotted quad in a map.

Files:

- `wrappers.dfy`: `Option` and `Result`.
- `numerals.dfy`: powers of two and decimal, binary and hexadecimal numerals.
  These replace `sprintf`, `bindec`, `dechex`, `base_convert` and the `gmp_*`
  calls.
- `ipv4_text.dfy`: splitting and joining at a separator (`explode`/`implode`),
  and the dotted-quad grammar of `helpers/IP.php:34`. It serves as
  the model of PHP's IPv4 validation and of `ip2long`/`long2ip`.
- `address_codec.dfy`: the codec.
- `interface_scanner.dfy`: the scanner.

The runtime's IPv6 routines (`filter_var` with `FILTER_FLAG_IPV6`,
`inet_pton`, `inet_ntop`) are not re-implemented. Each operation takes them
as a parameter of type `Inet6`. Two predicates state what the real routines
do. Only `Ipv6ValueBytes`, the IPv6 round-trip lemmas and `Bin2IpAllZeros`
assume them:

- `PtonSound`: `inet_pton` gives sixteen bytes for every text the IPv6
  filter accepts.
- `ReadsFullForm`: text that splits at ':' into eight fields, each one to four
  lower-case hex digits with values g0 .. g7, is read by `inet_pton` as the
  sixteen bytes whose big-endian 16-bit words are g0 .. g7. This is the
  uncompressed form of section 2.2 of RFC 4291. The predicate is stated on
  that reading (`ReadsAsWords`), not on the text the model builds. The lemma
  `FullFormReads` proves that the group loop's text has that reading.

Loops the source writes out twice are one method here:

- `PtonBits`: the byte loop of `ipv6ToLong` and `ip2bin`.
- `ColonHex`: the group loop of `longToIpv6` and `bin2ip`.
- `PrependZeros`: the padding loop of the same two functions.

`localIpsV4`'s loop is the method `LocalIpsV4`. It is proved equal to
`Run(lines)`. `Run` classifies every line (`Kinds`: header, address or
other, by the three patterns in their `elseif` order) and folds the loop
body `Step` over the classifications (`Fold`). The lemmas about the map's
contents are stated on `Fold`, so they hold for `Run(lines)` with
`Kinds(lines)` as the classifications.

## Model

| member | source | states |
|---|---|---|
| AddressCodec.Validate | helpers/IP.php:66-83 | fails, with the class's message, exactly when the type is none of "v4", "v6", "all"; otherwise true iff the text is a dotted quad (unless the type is "v6") or an IPv6 address (unless the type is "v4") |
| AddressCodec.ValidateV4 | helpers/IP.php:91-94 | never fails; true exactly for valid dotted quads |
| AddressCodec.ValidateV6 | helpers/IP.php:102-105 | never fails; true exactly for what the runtime's IPv6 filter accepts |
| AddressCodec.Version | helpers/IP.php:250-259 | total: V4 iff dotted quad, V6 iff IPv6 and not a dotted quad, none iff neither; so a dotted quad is never V6 |
| AddressCodec.Ipv4ToLong | helpers/IP.php:112-121 | result below 2^32; 0 for invalid text; for valid text the dotted quad of the result is the text itself |
| AddressCodec.LongToIpv4 | helpers/IP.php:128-138 | the result is the dotted quad of n mod 2^32; for n < 2^32 it is a valid dotted quad whose value is n |
| AddressCodec.TwosComplement | helpers/IP.php:134 | -(4294967295 - (n - 1)) is n - 2^32, so it equals n modulo 2^32 |
| AddressCodec.Ipv4Boundaries | helpers/IP.php:128-138 | 0 gives "0.0.0.0" and 2^32 - 1 gives "255.255.255.255" |
| AddressCodec.Ipv4TextRoundTrip | helpers/IP.php:112-138 | longToIpv4(ipv4ToLong(t)) == t for every valid dotted quad t |
| AddressCodec.Ipv4LongRoundTrip | helpers/IP.php:112-138 | ipv4ToLong(longToIpv4(n)) == n for every n < 2^32 |
| AddressCodec.Block | helpers/IP.php:150-158 | the loop reads sixteen bytes, and they are the inet_pton result when that has sixteen |
| AddressCodec.BytesValue | helpers/IP.php:150-160 | the big-endian value of k bytes is below 2^(8k) |
| AddressCodec.ByteBitsValue | helpers/IP.php:154-158 | the bytes, each written in exactly 8 binary digits, form the fixed-width binary of their big-endian value |
| AddressCodec.ByteBitsAt | helpers/IP.php:154-158 | byte k occupies digits 8k .. 8k+7 |
| AddressCodec.PtonBits | helpers/IP.php:152-158 | 128 binary digits, equal to the 128-digit binary of the bytes' value; byte k is at digits 8k .. 8k+7 |
| AddressCodec.Ipv6ToLong | helpers/IP.php:145-161 | 0 for invalid text; otherwise the value of the sixteen bytes read big-endian, always below 2^128 |
| AddressCodec.Ipv6ValueBytes | helpers/IP.php:145-160 | with a sound inet_pton, the value of valid IPv6 text is the value of its sixteen address bytes |
| AddressCodec.ColonHex | helpers/IP.php:177-185 | the text is the eight groups of 16 digits, each read in binary and written in hex, joined by ':' |
| AddressCodec.FullFormJoin | helpers/IP.php:177-185 | the text the loop builds (hex and ':' per group, the last ':' cut) is the groups' hex joined by ':' |
| AddressCodec.FullFormSplits | helpers/IP.php:177-185 | cutting that text at ':' gives back each group's hex, in order |
| AddressCodec.FullFormReads | helpers/IP.php:177-185 | for 16-bit groups, that text is eight fields of one to four hex digits whose values are the groups, the reading `inet_pton` is assumed to accept |
| AddressCodec.WordsOfValue | helpers/IP.php:177-183 | the m big-endian 16-bit words of n < 2^(16m) reconstruct n |
| AddressCodec.GroupsOfBits | helpers/IP.php:177-183 | group g of the 16m-digit binary of n is the g-th 16-bit word of n |
| AddressCodec.PrependZeros | helpers/IP.php:171-176 | prepending "0" pad times yields pad zeros followed by the input |
| AddressCodec.PaddedGroups | helpers/IP.php:170-183 | for n < 2^128, the left-padded binary cut into eight groups gives the eight words of n |
| AddressCodec.LongToIpv6 | helpers/IP.php:168-186 | the canonical form (inet_ntop of inet_pton) of the colon-hex text of the padded binary; for n < 2^128, of the colon-hex text of n's eight 16-bit words |
| AddressCodec.Ip2Bin | helpers/IP.php:193-215 | false when version fails; for IPv4 a binary numeral whose value is ipv4ToLong; for IPv6 false iff inet_pton fails, else 128 digits whose value is ipv6ToLong |
| AddressCodec.Long2IpSmall | helpers/IP.php:225 | long2ip of a value below 2^32 is its dotted quad |
| AddressCodec.ShortBinQuad | helpers/IP.php:224-226 | at most 32 digits have a value below 2^32, and long2ip of it is a valid dotted quad with that value |
| AddressCodec.BitsGroups | helpers/IP.php:234-240 | the eight groups of 128 binary digits are the eight 16-bit words of their value |
| AddressCodec.Bin2Ip | helpers/IP.php:222-243 | length <= 32: the dotted quad of the value; length 33..127 or over 128: false; length 128: the canonical form of the colon-hex text of its eight 16-character groups, which for a string of '0' and '1' are the eight words of its value |
| AddressCodec.Ipv6LongRoundTrip | helpers/IP.php:145-186 | longToIpv6(ipv6ToLong(t)) is the runtime's canonical form of valid IPv6 text t |
| AddressCodec.Ipv6BinRoundTrip | helpers/IP.php:193-243 | for IPv6 text t, ip2bin gives 128 digits and bin2ip of them is the canonical form of t |
| AddressCodec.Ipv4BinRoundTrip | helpers/IP.php:193-226 | for a dotted quad t, ip2bin gives at most 32 digits and bin2ip of them is t again |
| AddressCodec.Bin2IpAllZeros | helpers/IP.php:222-243 | 128 zeros are decoded as the all-zero IPv6 address |
| Ipv4Text.OctetTextOfValue | helpers/IP.php:34 | every number below 256 is printed as a word of the octet grammar |
| Ipv4Text.OctetTextValue | helpers/IP.php:34 | every word of the octet grammar is the canonical decimal of a number below 256 |
| Ipv4Text.DottedQuadValue | helpers/IP.php:134 | long2ip's text of a 32-bit value is a valid dotted quad that reads back as that value |
| Ipv4Text.Ipv4ValueText | helpers/IP.php:117 | the value ip2long reads from a dotted quad is below 2^32, and printing it gives the text back |
| Ipv4Text.Ipv4TextChars | helpers/IP.php:34 | a dotted quad uses only digits and dots |
| Numerals.DecText | helpers/IP.php:117 | sprintf "%u" gives a canonical decimal numeral with the value |
| Numerals.DecTextOfValue | helpers/IP.php:117 | a canonical decimal numeral is the printing of its own value |
| Numerals.BinDecBound | helpers/IP.php:225 | the value of k binary digits is below 2^k |
| Numerals.Bits | helpers/IP.php:155 | sprintf "%08b" of a value below 2^w: w binary digits with that value |
| Numerals.BitsOfValue | helpers/IP.php:160 | a binary string of width w is the w-digit rendering of its value |
| Numerals.BinDecAppend | helpers/IP.php:156 | reading a concatenation: the prefix's value shifted by the suffix's width plus the suffix's value |
| Numerals.ToBinary | helpers/IP.php:197 | base_convert to base 2: binary digits with the value and no leading zero except for "0" itself |
| Numerals.ToBinaryLength | helpers/IP.php:170-171 | a value below 2^w has at most w binary digits |
| Numerals.PadLeft | helpers/IP.php:171-176 | the padded text has the requested width, ends with the input, and starts with zeros only |
| Numerals.PadBinary | helpers/IP.php:170-176 | the shortest binary of n, left-padded to w >= its length, is the w-digit rendering of n |
| Numerals.HexText | helpers/IP.php:181 | dechex: lower-case hex digits with the value and no leading zero except for "0" itself |
| Numerals.HexTextLength | helpers/IP.php:181 | a value below 2^(4w) takes at most w hex digits; `FullFormReads` applies it with w = 4 to each 16-bit group |
| InterfaceScanner.HeaderSound | helpers/IP.php:29-33 | a header match is a reading of the line as [a-z0-9]+, an optional ':' with one or two digits, one or more \s, "Link", anything |
| InterfaceScanner.HeaderComplete | helpers/IP.php:29-33 | every such reading of the line is the one matched, so the captured name and alias are unique |
| InterfaceScanner.FirstAddress | helpers/IP.php:34-39 | the leftmost position at which the address pattern matches, or none if it matches nowhere |
| InterfaceScanner.MatchAddress | helpers/IP.php:34-39 | a captured address is a valid dotted quad |
| InterfaceScanner.AddressSound | helpers/IP.php:34-39 | a match is a reading of the line as anything, the label, a dotted quad, one \s, anything |
| InterfaceScanner.AddressLeftmost | helpers/IP.php:34-39 | the capture is the dotted quad of the leftmost such reading |
| InterfaceScanner.AddressAbsent | helpers/IP.php:34-39 | no match means the line has no such reading |
| InterfaceScanner.Classify | helpers/IP.php:29-40 | a line classed as an address carries a valid dotted quad |
| InterfaceScanner.LocalIpsV4 | helpers/IP.php:21-45 | the loop's map is that of the fold of the line step over all lines; empty input gives an empty map |
| InterfaceScanner.FoldIndex | helpers/IP.php:41 | the counter advances on every line |
| InterfaceScanner.NameWithoutHeader | helpers/IP.php:25-33 | before any header line the current name is "interface" |
| InterfaceScanner.NameAfterHeader | helpers/IP.php:29-33 | after a header line the current name is its name plus alias, until the next header line |
| InterfaceScanner.LastWriteWins | helpers/IP.php:34-39 | a key holds the address of the last line that stores under it |
| InterfaceScanner.NeverWritten | helpers/IP.php:34-39 | a key no line stores under is absent from the map |
| InterfaceScanner.StoredQuads | helpers/IP.php:34-39 | only captured addresses are stored, so when every address line carries a valid dotted quad (as `Classify` ensures) every stored value is one |
| InterfaceScanner.NoHeaderKeepsEveryAddress | helpers/IP.php:36-39 | without any header line, every address line j is kept under "interface" followed by j |
| InterfaceScanner.LocalIpV4 | helpers/IP.php:52-57 | the address stored under the name, or null exactly when the name is absent, which it is when no line stored under it |

## Left out

- The call `shell_exec($ifconfig)` and the default `/sbin/ifconfig` path (helpers/IP.php:23, 54) are process I/O. `LocalIpsV4` and `LocalIpV4` take the output lines as a parameter. Splitting the output at `PHP_EOL` is therefore not modelled.
- The internals of the runtime's IPv6 filter, `inet_pton` and `inet_ntop` are foreign C routines. Their full RFC 4291 section 2.2 parse and RFC 5952 section 4 compression are not re-verified. They are the `Inet6` parameter. `Ipv6ValueBytes`, the IPv6 round trips and `Bin2IpAllZeros` assume `PtonSound` and `ReadsFullForm` of them.
- PHP's IPv4 validation is modelled by the octet grammar of helpers/IP.php:34. Any surrounding whitespace the runtime's filter may trim is not accepted by the model.
- `gmp_*`, `base_convert`, `bindec`, `dechex` and `sprintf` are replaced by exact conversions on `nat`. `base_convert`'s loss of precision through floating point on long inputs is out of scope.
- PHP type juggling is not modelled: `trim`, the loose `$number != '0'`, a non-numeric `$number` or `$long`, `int|string` results, and the loose comparison of `switch ($type)`. Integers are `nat`, validator types are strings, and `false`/`null` results are `None`.
- Non-binary characters in `bin2ip`'s input are skipped when its value is read, as `base_convert` and `bindec` do. A digit string is not checked further.
- AddressCodec.Bin2Ip: lengths and slices count characters, while PHP's `strlen` and `substr` count bytes. The two agree on ASCII input, and a binary string is ASCII. Input with a multi-byte character differs: 31 '0' followed by "é" is 33 bytes, so PHP returns false, but it is 32 characters, so the model returns "0.0.0.0".
- AddressCodec.LongToIpv4: `$number` is an unbounded `nat`, not PHP's native 64-bit integer. For n >= 2^63, `$number - 1` overflows to a float and `long2ip` receives a rounded value; for example n = 2^63 + 1 gives "0.0.0.0" in PHP and "0.0.0.1" in the model. For larger n PHP 8's `long2ip` raises a TypeError. The contract's dotted-quad guarantees are stated for n < 2^32, the address range.
- AddressCodec.Validate: the default argument `$type = self::ALL` (helpers/IP.php:66) is not modelled; the type is always passed.
- `ip2long` and `long2ip` follow 64-bit PHP. On 32-bit PHP, `ip2long` can be negative and `sprintf("%u")` reinterprets it; that platform is not modelled.
- AddressCodec.LongToIpv6: for n >= 2^128 the contract only says that the first 128 binary digits are grouped (what `substr` reads); no lemma describes that result further.
- When inet_pton fails on text the filter accepted, `ipv6ToLong` reads zeros for the missing bytes (`ord` of a missing character). The model follows that and does not rule the case out. `Ipv6ValueBytes`, the IPv6 round trips and `Bin2IpAllZeros` assume `PtonSound`, which excludes it.
- The PCRE engine is replaced by hand-written matchers for the three line patterns (helpers/IP.php:29, 34, 37). Each comes with lemmas relating it to a declarative reading of its pattern.
- PHP arrays keep insertion order, and a numeric-string key such as "123" becomes an integer key. The model uses a `map<string, string>`, so it keeps neither the order nor that key conversion. Lookups give the same answers.
