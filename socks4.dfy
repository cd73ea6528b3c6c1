/**
 * The SOCKS 4 wire codec: decoding a client's request (the SOCKS 4 form
 * and its SOCKS 4A host-name extension) and encoding the server's reply.
 * Go strings are byte strings, so the request's address and user id are
 * byte sequences here.
 */
module Socks4 {
  import opened Wrappers
  import opened Bytes
  import opened Decimal
  import opened IPv4

  const Version4: byte := 0x04

  const CmdConnect: byte := 0x01
  const CmdBind: byte := 0x02

  /** Request granted. */
  const Granted: byte := 0x5a
  /** Request rejected or failed. */
  const RejectOrFailure: byte := 0x5b
  /** Request rejected because the server cannot reach identd on the client. */
  const RejectNoIdentd: byte := 0x5c
  /** Request rejected because identd reported a different user id. */
  const RejectWrongUserId: byte := 0x5d

  const NullByte: byte := 0x00

  /** ASCII ':'. */
  const Colon: byte := 0x3a

  predicate IsCommand(c: byte) {
    c == CmdConnect || c == CmdBind
  }

  /** The four reply codes are exactly the bytes 0x5a to 0x5d. */
  function IsReplyCode(c: byte): (b: bool)
    ensures b <==> 0x5a <= c <= 0x5d
  {
    c == Granted || c == RejectOrFailure || c == RejectNoIdentd || c == RejectWrongUserId
  }

  // ---------------------------------------------------------------------
  // Requests
  // ---------------------------------------------------------------------

  /** A request sent by a client. */
  datatype Request = Request(
    version: byte,        // SOCKS request version
    cmd: byte,            // operation command
    port: nat,            // target port
    address: seq<byte>,   // "host:port", host an IPv4 address or a 4A domain name
    isV4A: bool,          // whether the request uses the SOCKS 4A form
    userId: seq<byte>)    // the user id the client reports

  /** The four errors `ParseRequest` can return, in the order it checks for them. */
  datatype ParseError =
    | InvalidRequest      // fewer than 9 bytes
    | InvalidVersion      // VN is not 4
    | InvalidCommand      // CD is neither CONNECT nor BIND
    | InvalidRequest4A    // a 4A request whose tail is not USERID NUL DOMAIN NUL

  /** DSTIP 0.0.0.x with x non-zero marks a SOCKS 4A request. */
  function IsSentinel(ip: seq<byte>): (b: bool)
    requires |ip| == 4
    ensures b <==> ip == [0, 0, 0, ip[3]] && ip[3] != 0
  {
    ip[0] == 0 && ip[1] == 0 && ip[2] == 0 && ip[3] != 0
  }

  /**
   * "host:port" with the port in decimal: the host, then a colon, then
   * the port's numeral, which holds no colon, so the colon after the host
   * is the last one.
   */
  function JoinHostPort(host: seq<byte>, port: nat): (a: seq<byte>)
    ensures |a| > |host| && a[..|host|] == host && a[|host|] == Colon
    ensures a[|host| + 1..] == Itoa(port) && Colon !in a[|host| + 1..]
  {
    var a := host + [Colon] + Itoa(port);
    assert a[|host| + 1..] == Itoa(port);
    a
  }

  /** Reads "host:port" back at its last colon. */
  function SplitHostPort(address: seq<byte>): Option<(seq<byte>, seq<byte>)>
  {
    var i := LastIndexOf(address, Colon);
    if i < 0 then None else Some((address[..i], address[i + 1..]))
  }

  /** The host and the port's numeral are recovered from "host:port", whatever the host holds. */
  lemma SplitHostPortJoin(host: seq<byte>, port: nat)
    ensures SplitHostPort(JoinHostPort(host, port)) == Some((host, Itoa(port)))
  {
    var digits := Itoa(port);
    var a := JoinHostPort(host, port);
    assert a == host + [Colon] + digits;
    LastIndexOfAt(host, Colon, digits);
  }

  /** The messages `ParseRequest` accepts. */
  predicate Accepted(b: seq<byte>) {
    && |b| >= 9
    && b[0] == Version4
    && IsCommand(b[1])
    && (IsSentinel(b[4..8]) ==> Count(b[8..], NullByte) == 2)
  }

  /**
   * Decodes a fully buffered client message. The length, the version and
   * the command are checked in that order, so the first failing check
   * decides the error. A 4A request is accepted exactly when its tail
   * holds two NUL bytes; a SOCKS 4 request is accepted whatever its tail.
   */
  function ParseRequest(b: seq<byte>): (r: Result<Request, ParseError>)
    ensures |b| < 9 ==> r == Failure(InvalidRequest)
    ensures |b| >= 9 && b[0] != Version4 ==> r == Failure(InvalidVersion)
    ensures |b| >= 9 && b[0] == Version4 && !IsCommand(b[1]) ==> r == Failure(InvalidCommand)
    ensures r == Failure(InvalidRequest4A) <==>
      |b| >= 9 && b[0] == Version4 && IsCommand(b[1]) && IsSentinel(b[4..8]) && Count(b[8..], NullByte) != 2
    ensures r.Success? <==> Accepted(b)
    ensures r.Success? ==>
      && r.value.version == Version4
      && r.value.cmd == b[1] && IsCommand(r.value.cmd)
      && r.value.port == b[2] as nat * 256 + b[3] as nat && r.value.port < 0x1_0000
      && r.value.isV4A == IsSentinel(b[4..8])
  {
    if |b| < 9 then
      Failure(InvalidRequest)
    else if b[0] != Version4 then
      Failure(InvalidVersion)
    else if b[1] != CmdConnect && b[1] != CmdBind then
      Failure(InvalidCommand)
    else
      var port := Uint16(b[2], b[3]);
      if b[4] == 0 && b[5] == 0 && b[6] == 0 && b[7] != 0 then
        var bs := Split(b[8..], NullByte);
        if |bs| != 3 then
          Failure(InvalidRequest4A)
        else
          Success(Request(Version4, b[1], port, JoinHostPort(bs[1], port), true, bs[0]))
      else
        To4Quad(b[4..8]);
        var ip := String(FromQuad(b[4..8]));
        Success(Request(Version4, b[1], port, JoinHostPort(ip, port), false, b[8..|b| - 1]))
  }

  /** The fixed eight bytes that open every request: VN, CD, DSTPORT, DSTIP. */
  function Header(cmd: byte, port: nat, ip: seq<byte>): (h: seq<byte>)
    requires |ip| == 4
    ensures |h| == 8
  {
    [Version4, cmd] + BigEndian16(port) + ip
  }

  /** A SOCKS 4 request as the protocol lays it out: the header, USERID, NUL. */
  function Frame4(cmd: byte, port: nat, ip: seq<byte>, userId: seq<byte>): seq<byte>
    requires |ip| == 4
  {
    Header(cmd, port, ip) + userId + [NullByte]
  }

  /**
   * A SOCKS 4A request: the header with DSTIP 0.0.0.x, USERID, NUL, the
   * host name, NUL, and then any NUL-free bytes, which the decoder skips.
   */
  function Frame4A(cmd: byte, port: nat, x: byte, userId: seq<byte>, domain: seq<byte>, trailer: seq<byte>): seq<byte>
  {
    Header(cmd, port, [0, 0, 0, x]) + Tail4A(userId, domain, trailer)
  }

  /** What follows the header of a SOCKS 4A request. */
  function Tail4A(userId: seq<byte>, domain: seq<byte>, trailer: seq<byte>): seq<byte>
  {
    userId + [NullByte] + domain + [NullByte] + trailer
  }

  /** What the decoder reads from a message that opens with a header. */
  lemma HeaderFields(cmd: byte, port: nat, ip: seq<byte>, rest: seq<byte>)
    requires port < 0x1_0000 && |ip| == 4
    ensures var b := Header(cmd, port, ip) + rest;
      && b[0] == Version4 && b[1] == cmd && Uint16(b[2], b[3]) == port
      && b[4..8] == ip && b[8..] == rest
  {
    var be := BigEndian16(port);
    BigEndian16Decodes(port);
    var h := Header(cmd, port, ip);
    assert h == [Version4, cmd, be[0], be[1]] + ip;
    assert h[4..8] == ip;
    var b := h + rest;
    assert b[..8] == h && b[8..] == rest;
    assert b[0] == Version4 && b[1] == cmd && b[2] == be[0] && b[3] == be[1];
  }

  /** A message with version 4 opens with the header of its own CD, DSTPORT and DSTIP. */
  lemma MessageHeader(b: seq<byte>)
    requires |b| >= 8 && b[0] == Version4
    ensures b[..8] == Header(b[1], Uint16(b[2], b[3]), b[4..8])
  {
    Uint16Encodes(b[2], b[3]);
  }

  /** A version-4 message of 9 bytes or more is its header, the bytes up to the last, and the last byte. */
  lemma MessageLayout(b: seq<byte>)
    requires |b| >= 9 && b[0] == Version4
    ensures b == Header(b[1], Uint16(b[2], b[3]), b[4..8]) + b[8..|b| - 1] + [b[|b| - 1]]
  {
    MessageHeader(b);
    assert b == b[..8] + b[8..|b| - 1] + [b[|b| - 1]];
  }

  /** A SOCKS 4 request decodes to its command, port, dotted address and user id, whatever bytes the user id holds. */
  lemma ParseFrame4(cmd: byte, port: nat, ip: seq<byte>, userId: seq<byte>)
    requires IsCommand(cmd) && port < 0x1_0000 && |ip| == 4 && !IsSentinel(ip)
    ensures ParseRequest(Frame4(cmd, port, ip, userId))
         == Success(Request(Version4, cmd, port, JoinHostPort(DottedQuad(ip), port), false, userId))
  {
    var b := Frame4(cmd, port, ip, userId);
    HeaderFields(cmd, port, ip, userId + [NullByte]);
    assert b == Header(cmd, port, ip) + (userId + [NullByte]);
    assert b[8..|b| - 1] == userId;
    To4Quad(ip);
  }

  /** A SOCKS 4A request decodes to its command, port, host name and user id. */
  lemma ParseFrame4A(cmd: byte, port: nat, x: byte, userId: seq<byte>, domain: seq<byte>, trailer: seq<byte>)
    requires IsCommand(cmd) && port < 0x1_0000 && x != 0
    requires NullByte !in userId && NullByte !in domain && NullByte !in trailer
    ensures ParseRequest(Frame4A(cmd, port, x, userId, domain, trailer))
         == Success(Request(Version4, cmd, port, JoinHostPort(domain, port), true, userId))
  {
    var tail := Tail4A(userId, domain, trailer);
    var b := Frame4A(cmd, port, x, userId, domain, trailer);
    HeaderFields(cmd, port, [0, 0, 0, x], tail);
    Join3(userId, domain, trailer, NullByte);
    SplitJoin([userId, domain, trailer], NullByte);
    assert Split(b[8..], NullByte) == [userId, domain, trailer];
  }

  /**
   * Every accepted SOCKS 4 request is a header followed by the user id
   * and one final byte, which is dropped whether or not it is NUL; the
   * address is the dotted DSTIP and the port.
   */
  lemma ParsedFrame4(b: seq<byte>)
    requires ParseRequest(b).Success? && !ParseRequest(b).value.isV4A
    ensures var r := ParseRequest(b).value;
      && b == Header(r.cmd, r.port, b[4..8]) + r.userId + [b[|b| - 1]]
      && r.address == JoinHostPort(DottedQuad(b[4..8]), r.port)
  {
    var r := ParseRequest(b).value;
    assert r.cmd == b[1] && r.port == Uint16(b[2], b[3]) && r.userId == b[8..|b| - 1];
    MessageLayout(b);
    To4Quad(b[4..8]);
  }

  /**
   * Every accepted SOCKS 4A request is a 4A frame: the user id, then the
   * host name, each NUL-free and NUL-terminated, then NUL-free bytes that
   * the address ignores.
   */
  lemma ParsedFrame4A(b: seq<byte>)
    requires ParseRequest(b).Success? && ParseRequest(b).value.isV4A
    ensures var r := ParseRequest(b).value;
      var parts := Split(b[8..], NullByte);
      && |parts| == 3
      && b == Frame4A(r.cmd, r.port, b[7], r.userId, parts[1], parts[2])
      && r.address == JoinHostPort(parts[1], r.port)
      && NullByte !in r.userId && NullByte !in parts[1] && NullByte !in parts[2]
  {
    var r := ParseRequest(b).value;
    var parts := Split(b[8..], NullByte);
    assert |parts| == 3 && r.userId == parts[0] && r.address == JoinHostPort(parts[1], r.port);
    assert b[8..] == Tail4A(parts[0], parts[1], parts[2]) by {
      assert parts == [parts[0], parts[1], parts[2]];
      Join3(parts[0], parts[1], parts[2], NullByte);
    }
    MessageHeader(b);
    assert b[4..8] == [0, 0, 0, b[7]];
    assert b == b[..8] + b[8..];
  }

  /**
   * DSTIP 0.0.0.1 selects the 4A form even without a host name, so the
   * 9-byte BIND request `04 02 00 00 00 00 00 01 00` is a malformed 4A request.
   */
  lemma SentinelWithoutHostIsRejected()
    ensures ParseRequest([4, 2, 0, 0, 0, 0, 0, 1, 0]) == Failure(InvalidRequest4A)
  {
    var b: seq<byte> := [4, 2, 0, 0, 0, 0, 0, 1, 0];
    assert b[4..8] == [0, 0, 0, 1];
    assert b[8..] == [NullByte];
    assert Count([NullByte], NullByte) == 1;
  }

  /** The last byte of a SOCKS 4 request never reaches the decoded request. */
  lemma LiteralIgnoresLastByte(b: seq<byte>, t: byte)
    requires ParseRequest(b).Success? && !ParseRequest(b).value.isV4A
    ensures ParseRequest(b[..|b| - 1] + [t]) == ParseRequest(b)
  {
    var b' := b[..|b| - 1] + [t];
    assert b'[..8] == b[..8];
    assert b'[8..|b'| - 1] == b[8..|b| - 1];
  }

  /**
   * The target can be read back from the decoded address: the host is
   * the 4A host name or the dotted DSTIP, which parses back to the four
   * DSTIP bytes, and the port's numeral follows the last colon.
   */
  lemma AddressRecovery(b: seq<byte>)
    requires ParseRequest(b).Success?
    ensures var r := ParseRequest(b).value;
      var host := if r.isV4A then Split(b[8..], NullByte)[1] else DottedQuad(b[4..8]);
      && SplitHostPort(r.address) == Some((host, Itoa(r.port)))
      && (!r.isV4A ==> ParseDottedQuad(host) == Some(b[4..8]))
  {
    var r := ParseRequest(b).value;
    if r.isV4A {
      ParsedFrame4A(b);
      SplitHostPortJoin(Split(b[8..], NullByte)[1], r.port);
    } else {
      ParsedFrame4(b);
      SplitHostPortJoin(DottedQuad(b[4..8]), r.port);
      DottedQuadRoundTrip(b[4..8]);
    }
  }

  // ---------------------------------------------------------------------
  // Replies
  // ---------------------------------------------------------------------

  /** A reply from the server; `ip` is the Go `net.IP` slice, nil being empty. */
  datatype Reply = Reply(cd: byte, port: int, ip: seq<byte>)

  /** Any code other than the four reply codes is sent as RejectOrFailure. */
  function SanitizeCd(cd: byte): (s: byte)
    ensures IsReplyCode(s)
    ensures IsReplyCode(cd) ==> s == cd
    ensures !IsReplyCode(cd) ==> s == RejectOrFailure
  {
    if cd != Granted && cd != RejectOrFailure && cd != RejectNoIdentd && cd != RejectWrongUserId then
      RejectOrFailure
    else
      cd
  }

  lemma SanitizeIdempotent(cd: byte)
    ensures SanitizeCd(SanitizeCd(cd)) == SanitizeCd(cd)
  {
  }

  /**
   * `Reply.ToBytes`: a zero byte, the sanitised code, the port's low 16
   * bits big-endian, and the 4-byte view of the IP when it has one. An IP
   * without one (nil included) is left out, so the reply is 4 bytes long.
   */
  function ToBytes(r: Reply): (out: seq<byte>)
    ensures |out| == if To4(r.ip).Some? then 8 else 4
    ensures out[0] == 0 && out[1] == SanitizeCd(r.cd)
    ensures Uint16(out[2], out[3]) == r.port % 0x1_0000
    ensures To4(r.ip).Some? ==> out[4..] == To4(r.ip).value
  {
    var ip := To4(r.ip);
    [0, SanitizeCd(r.cd)] + BigEndian16(r.port) + (if ip.Some? then ip.value else [])
  }

  /** The fields a client reads from an 8-byte reply. */
  datatype ReplyView = ReplyView(cd: byte, port: nat, ip: seq<byte>)

  /** A client's reading of a reply: exactly 8 bytes, VN 0, CD, DSTPORT, DSTIP. */
  function DecodeReply(bs: seq<byte>): Option<ReplyView>
  {
    if |bs| == 8 && bs[0] == 0 then Some(ReplyView(bs[1], Uint16(bs[2], bs[3]), bs[4..])) else None
  }

  /** A reply whose IP has a 4-byte view reads back as its sanitised code, truncated port and address. */
  lemma ReplyRoundTrip(r: Reply)
    requires To4(r.ip).Some?
    ensures DecodeReply(ToBytes(r)) == Some(ReplyView(SanitizeCd(r.cd), r.port % 0x1_0000, To4(r.ip).value))
  {
  }

  /** A reply without an IPv4 address, like the first BIND reply, is too short for a client to read. */
  lemma ReplyWithoutIPv4IsShort(r: Reply)
    requires To4(r.ip).None?
    ensures DecodeReply(ToBytes(r)) == None
  {
  }

  /** The first BIND reply carries no IP: four bytes instead of eight. */
  lemma FirstBindReplyIsShort(port: int)
    ensures ToBytes(Reply(Granted, port, [])) == [0, Granted] + BigEndian16(port)
  {
  }

  /** The unspecified address 0.0.0.0. */
  const Unspecified: seq<byte> := [0, 0, 0, 0]

  /**
   * The reply as the protocol lays it out: always 8 bytes, with DSTIP
   * 0.0.0.0 when the IP has no 4-byte view.
   */
  function ToBytesPadded(r: Reply): (out: seq<byte>)
    ensures |out| == 8
    ensures out[..4] == ToBytes(r)[..4]
    ensures out[4..] == To4(r.ip).GetOr(Unspecified)
  {
    var ip := To4(r.ip);
    [0, SanitizeCd(r.cd)] + BigEndian16(r.port) + ip.GetOr(Unspecified)
  }

  /** Every padded reply reads back; the address is 0.0.0.0 when the IP had no 4-byte view. */
  lemma PaddedReplyRoundTrip(r: Reply)
    ensures DecodeReply(ToBytesPadded(r)) == Some(ReplyView(SanitizeCd(r.cd), r.port % 0x1_0000, To4(r.ip).GetOr(Unspecified)))
  {
  }

  /** Padding changes nothing for a reply that has an IPv4 address. */
  lemma PaddedAgrees(r: Reply)
    requires To4(r.ip).Some?
    ensures ToBytesPadded(r) == ToBytes(r)
  {
  }
}
