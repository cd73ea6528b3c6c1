# SOCKS 4 / 4A wire codec

This project models the wire codec of a small SOCKS 4 proxy server written
in Go (package `socks4`, file `common.go`), and proves properties of it.
The codec has two operations:

- `ParseRequest` decodes a client request that is already fully buffered.
  A request is either SOCKS 4 (`VN CD DSTPORT DSTIP USERID NUL`) or the
  SOCKS 4A host-name extension (`DSTIP = 0.0.0.x`, x non-zero, followed by
  `USERID NUL DOMAIN NUL`). The result is a `Request` or one of four errors.
- `Reply.ToBytes` encodes the server's reply. It writes `0x00`, the status
  byte sanitised to one of 0x5a–0x5d, the port big-endian, and the IPv4
  address when the reply has one.

Modules:

- `Wrappers` (`wrappers.dfy`): `Option` and `Result`.
- `Bytes` (`bytes.dfy`): the `byte` type. It also models the pieces of Go's
  `bytes` and `encoding/binary` packages that the codec calls: `Split` on a
  one-byte separator, its inverse `Join`, the helpers `Count` and
  `IndexOf`, and big-endian 16-bit fields.
- `Decimal` (`decimal.dfy`): `strconv.Itoa` on non-negative values. Its
  partner is `Value`, which reads a numeral back.
- `IPv4` (`ipv4.dfy`): the parts of `net.IP` the codec uses:
  - `net.IPv4` (the 16-byte IPv4-mapped form);
  - `IP.To4`;
  - the dotted-decimal `String` of an IPv4 address, with `ParseDottedQuad`
    as its partner.
- `Socks4` (`socks4.dfy`): the protocol constants, `Request`, `ParseRequest`,
  `Reply` and `ToBytes`. It also holds the request layouts of the SOCKS 4
  protocol document and its 4A note (`Frame4`, `Frame4A`), the 8-byte reply
  a client reads (`DecodeReply`), and the lemmas that connect them.

Go strings are byte strings, so `Address` and `UserId` are `seq<byte>`.
`':'`, `'.'` and the digits are their ASCII codes. A `net.IP` is its byte
slice, and a nil IP is the empty sequence.

Three places where the code departs from the protocol text. The model follows the code:

- The SOCKS 4 protocol lays a reply out as 8 bytes. The code writes only 4
  bytes when the IP has no IPv4 form. See "Findings" below.
- The SOCKS 4A note lays the tail out as `USERID NUL DOMAIN NUL`. The code
  accepts any NUL-free bytes after the second NUL and ignores them
  (`ParsedFrame4A`, `ParseFrame4A`).
- The protocol ends a SOCKS 4 USERID with a NUL. The code never checks the
  last byte: it drops that byte whatever it is, and it keeps any NULs
  inside the user id. So `04 01 00 50 07 07 07 07 41 42` is accepted with
  user id `A`, and `… 41 00 42 00` gives user id `A NUL B`
  (`ParsedFrame4`, `ParseFrame4`, `LiteralIgnoresLastByte`).

## Model

| member | source | states |
|---|---|---|
| `Socks4.ParseRequest` | common.go:39-83 | Fewer than 9 bytes gives InvalidRequest. A bad version gives InvalidVersion whatever the command. A bad command gives InvalidCommand. A 4A request fails exactly when `b[8:]` does not hold exactly two NULs. Success holds iff all checks pass. On success: version is 4, `Cmd == b[1]` ∈ {CONNECT, BIND}, `Port == b[2]*256+b[3] < 65536`, and `IsV4A` holds iff DSTIP is 0.0.0.x with x ≠ 0 |
| `Socks4.ParseFrame4` | common.go:74-80 | A SOCKS 4 frame (header, any user id, NUL) with a non-sentinel DSTIP decodes to its command and port. Its address is the dotted DSTIP, ":" and the decimal port. Its user id is returned unchanged, NULs included |
| `Socks4.ParseFrame4A` | common.go:63-73 | A 4A frame whose user id, domain and trailing bytes are NUL-free decodes with `IsV4A`. Its user id comes back, and its address is domain, ":", decimal port, whatever the trailing bytes are |
| `Socks4.ParsedFrame4` | common.go:74-80 | Every accepted SOCKS 4 message is the header of its own fields, then the user id, then one last byte. That byte is dropped whatever its value. The address is the dotted DSTIP plus the port |
| `Socks4.ParsedFrame4A` | common.go:63-73 | Every accepted 4A message is a 4A frame of its split pieces: the NUL-free user id (the bytes before the first NUL), the NUL-free domain, and NUL-free ignored trailing bytes. The address is domain ":" port |
| `Socks4.LiteralIgnoresLastByte` | common.go:79 | Replacing the last byte of an accepted SOCKS 4 request by any byte leaves the result unchanged |
| `Socks4.AddressRecovery` | common.go:71-78 | Reading the decoded address at its last colon (the model's own reading, not `net.SplitHostPort`) gives the host and the port's numeral back. The host is the 4A domain or the dotted DSTIP, and the dotted DSTIP parses back to the four DSTIP bytes |
| `Socks4.JoinHostPort` | common.go:73 | `x + ":" + strconv.Itoa(Port)` (also line 78): the host, a colon, then the port's numeral, which holds no colon, so the colon after the host is the last one |
| `Socks4.SplitHostPortJoin` | common.go:73-78 | The address joined with `+` is unambiguous to the model's own last-colon reading `SplitHostPort`: "host:port" splits back at its last colon into the host and the port's numeral, whatever colons the host holds. Go's `net.SplitHostPort` agrees with this reading only for hosts without ':' and brackets (see "Left out") |
| `Socks4.IsSentinel` | common.go:63 | The 4A test holds exactly when DSTIP is `0.0.0.x` with x ≠ 0 |
| `Socks4.SentinelWithoutHostIsRejected` | common.go:63-69 | The 9-byte BIND request `04 02 00 00 00 00 00 01 00` has DSTIP 0.0.0.1, so it takes the 4A path. Its tail `[0]` splits into 2 pieces, so it fails with the 4A error |
| `Socks4.IsReplyCode` | common.go:96-97 | The four valid reply codes are exactly the bytes 0x5a to 0x5d |
| `Socks4.MessageHeader` | common.go:46-60 | A version-4 message opens with the 8-byte header built from its own CD, DSTPORT and DSTIP |
| `Socks4.SanitizeCd` | common.go:95-101 | The status sent is always one of 0x5a–0x5d. A valid code is kept, and any other becomes 0x5b |
| `Socks4.SanitizeIdempotent` | common.go:95-101 | Sanitising a sanitised status changes nothing |
| `Socks4.ToBytes` | common.go:93-108 | Byte 0 is 0. Byte 1 is the sanitised code. Bytes 2–3 decode to `Port mod 65536`. The length is 8 with bytes 4–7 equal to `IP.To4()` when the IP has an IPv4 form, else 4 |
| `Socks4.ReplyRoundTrip` | common.go:93-108 | When the IP has an IPv4 form, a client reading the 8-byte reply gets the sanitised code, the truncated port and the address |
| `Socks4.ReplyWithoutIPv4IsShort` | common.go:105-106 | A reply whose IP has no IPv4 form (nil included) cannot be read as an 8-byte reply |
| `Socks4.FirstBindReplyIsShort` | server.go:203 | The first BIND reply, which carries no IP, is exactly `[0, 0x5a]` plus the port: 4 bytes |
| `Socks4.ToBytesPadded` | common.go:93-108 | The repaired encoder: always 8 bytes. The first 4 bytes are those of `ToBytes`, and DSTIP is `IP.To4()` or 0.0.0.0 |
| `Socks4.PaddedReplyRoundTrip` | common.go:93-108 | Every padded reply reads back as its sanitised code, its truncated port, and its address or 0.0.0.0 |
| `Socks4.PaddedAgrees` | common.go:105-107 | For an IP with an IPv4 form, the repaired encoder writes exactly what `ToBytes` writes |
| `Bytes.Split` | common.go:66 | `bytes.Split` on one separator byte: one piece more than there are separators, no piece holds the separator, and joining the pieces gives the input back |
| `Bytes.SplitJoin` | common.go:66-67 | Splitting undoes joining when no part holds the separator |
| `Bytes.Count` | common.go:66-67 | The separator count is zero iff the separator is absent |
| `Bytes.CountIsMultiplicity` | common.go:66-67 | The count is the separator's multiplicity in the multiset of the input's bytes |
| `Bytes.CountConcat` | common.go:66-67 | Counting distributes over concatenation |
| `Bytes.IndexOf` | common.go:66 | The index is the first occurrence of the separator, or the length when there is none |
| `Bytes.IndexOfAt` | common.go:66 | A position holding the byte, with no earlier occurrence, is the first index |
| `Bytes.LastIndexOf` | server.go:180 | Used for the model's last-colon reading of the address that `net.Dial` consumes. That reading agrees with `net.SplitHostPort` only for hosts without ':' and brackets. The index is the last occurrence of the byte, or -1 when there is none |
| `Bytes.LastIndexOfAt` | server.go:180 | Used for the model's last-colon reading of the address that `net.Dial` consumes. In `prefix + [c] + suffix` with `c` not in `suffix`, the last `c` is at `|prefix|` |
| `Bytes.Uint16` | common.go:60 | `binary.BigEndian.Uint16` yields a value below 65536 |
| `Bytes.Uint16Encodes` | common.go:60 | Re-encoding a decoded port gives back bytes 2–3 |
| `Bytes.BigEndian16` | common.go:103 | `binary.BigEndian.AppendUint16(b, uint16(r.Port))` appends exactly two bytes |
| `Bytes.BigEndian16Decodes` | common.go:103 | `AppendUint16(uint16(Port))` decodes back to `Port mod 65536`, negative ports included |
| `Decimal.Itoa` | common.go:73 | `strconv.Itoa` of a non-negative value is a non-empty string of ASCII digits |
| `Decimal.ItoaValue` | common.go:78 | `Itoa(n)` is a canonical numeral (no leading zero) whose value is `n` |
| `Decimal.ValueItoa` | common.go:78 | Every canonical numeral is `Itoa` of its own value |
| `Decimal.ItoaInjective` | common.go:73 | Different ports have different numerals |
| `IPv4.To4` | common.go:105 | `IP.To4()` is present exactly when the IP is 4 bytes long, or 16 bytes long with the IPv4-mapped prefix `::ffff:`. When present it is the last four bytes. Every other IP, nil and real IPv6 included, gives nil |
| `IPv4.FromQuad` | common.go:77 | `net.IPv4(b[4], b[5], b[6], b[7])` is a 16-byte IP whose 4-byte form is the four DSTIP bytes |
| `IPv4.DottedQuad` | common.go:77 | The dotted-decimal text of an address is 7 to 15 bytes long and holds only digits and dots |
| `IPv4.String` | common.go:77 | `IP.String()` of an IPv4 address is text that parses back as its 4-byte form |
| `IPv4.To4Quad` | common.go:77 | Both a 4-byte address and its `net.IPv4` 16-byte form have the address as their 4-byte form |
| `IPv4.DottedQuadSplits` | common.go:77 | The dotted text splits on '.' into the four octets' numerals |
| `IPv4.DottedQuadRoundTrip` | common.go:77 | Parsing the dotted text of an address gives the address back |
| `IPv4.DottedQuadInjective` | common.go:77 | Different addresses print differently |

## Findings

| source | as written | input that shows it | evidently intended | confidence | as-written member | corrected member |
|---|---|---|---|---|---|---|
| common.go:105-106 | When `IP.To4()` is nil, no DSTIP is appended, so the reply is 4 bytes long | `Reply{Cd: Granted, Port: p}`, the first BIND reply at server.go:203. The reject replies at server.go:136 and server.go:146 are built the same way | Every SOCKS 4 reply is 8 bytes, with DSTIP 0.0.0.0 when there is no address | medium; not executed | `Socks4.ReplyWithoutIPv4IsShort` | `Socks4.PaddedReplyRoundTrip` |

## Left out

- server.go is not part of this model: the accept loop, shutdown, connection handling, CONNECT/BIND establishment, the 120 s BIND timeout and the relay. These are network I/O and goroutine concurrency.
- cmd/main.go, `NewServer` and `WithLogger`: startup and logger configuration. Logging calls are left out as well.
- `net.Dial`'s own parsing of the address, and `net.ResolveTCPAddr`. Both are foreign library behaviour; `SplitHostPort` (the last colon) is only a reading used to state what the address holds.
- `Socks4.SplitHostPortJoin`: states the model's last-colon reading, not Go's `net.SplitHostPort`. Go rejects a host without brackets that holds a ':' ("too many colons"), and strips `[...]` from a bracketed host. Because common.go:73 joins with `+` rather than `net.JoinHostPort`, a 4A domain holding ':' (for example `::1`, giving the address `::1:80`) yields an address that `net.Dial` refuses. The model does not capture that refusal.
- `Socks4.ParseRequest`: on an error, Go also returns the partly filled `Request`. Callers ignore it (server.go:127-130), so the model returns only the error.
- `IPv4.To4`: only the cases Go's `To4` distinguishes by length and IPv4-mapped prefix are modelled. `IP.String` is modelled only for addresses with an IPv4 form, the only ones `ParseRequest` prints.
- `Decimal.Itoa`: modelled for non-negative values only. Ports decoded from two bytes are never negative.
- `Reply.Port` is Go's 64-bit `int`. It is modelled as an unbounded integer, because only its low 16 bits are used (`uint16(r.Port)`), and those are the same either way.
- The error strings themselves are not modelled. Each of the four errors is a constructor of `ParseError`.
