/**
 * The parts of Go's `net.IP` that the SOCKS 4 codec uses: the 16-byte
 * form built by `net.IPv4`, the 4-byte view `To4`, and the dotted-decimal
 * text `String` prints for an IPv4 address. An IP is its byte slice; a
 * nil IP is the empty sequence.
 */
module IPv4 {
  import opened Wrappers
  import opened Bytes
  import opened Decimal

  /** ASCII '.'. */
  const Dot: byte := 0x2e

  /** The twelve bytes that precede an IPv4 address held in a 16-byte IP. */
  const V4InV6Prefix: seq<byte> := [0, 0, 0, 0, 0, 0, 0, 0, 0, 0, 0xff, 0xff]

  /** `net.IPv4(q[0], q[1], q[2], q[3])`: the 16-byte IPv4-mapped form. */
  function FromQuad(q: seq<byte>): (ip: seq<byte>)
    requires |q| == 4
    ensures |ip| == 16 && To4(ip) == Some(q)
  {
    assert (V4InV6Prefix + q)[..12] == V4InV6Prefix;
    V4InV6Prefix + q
  }

  /**
   * `ip.To4()`: the 4-byte form of an IPv4 address, or nothing (Go's nil)
   * when `ip` is neither 4 bytes long nor an IPv4-mapped 16-byte address.
   */
  function To4(ip: seq<byte>): (r: Option<seq<byte>>)
    ensures r.Some? <==> |ip| == 4 || (|ip| == 16 && ip[..12] == V4InV6Prefix)
    ensures r.Some? ==> r.value == ip[|ip| - 4..]
  {
    if |ip| == 4 then Some(ip)
    else if |ip| == 16 && ip[..12] == V4InV6Prefix then Some(ip[12..])
    else None
  }

  /** Both forms of an IPv4 address have the same 4-byte view. */
  lemma To4Quad(q: seq<byte>)
    requires |q| == 4
    ensures To4(q) == Some(q) && To4(FromQuad(q)) == Some(q)
  {
    assert FromQuad(q)[..12] == V4InV6Prefix;
  }

  /** Dotted-decimal text of a 4-byte address: "a.b.c.d". */
  function DottedQuad(q: seq<byte>): (s: seq<byte>)
    requires |q| == 4
    ensures 7 <= |s| <= 15
    ensures forall i :: 0 <= i < |s| ==> IsDigit(s[i]) || s[i] == Dot
  {
    ItoaOctetLength(q[0] as nat);
    ItoaOctetLength(q[1] as nat);
    ItoaOctetLength(q[2] as nat);
    ItoaOctetLength(q[3] as nat);
    Itoa(q[0] as nat) + [Dot] + Itoa(q[1] as nat) + [Dot] + Itoa(q[2] as nat) + [Dot] + Itoa(q[3] as nat)
  }

  /** `ip.String()` for an address that has a 4-byte view: text that reads back as that view. */
  function String(ip: seq<byte>): (s: seq<byte>)
    requires To4(ip).Some?
    ensures ParseDottedQuad(s) == To4(ip)
  {
    DottedQuadRoundTrip(To4(ip).value);
    DottedQuad(To4(ip).value)
  }

  /** The numeral of one octet, if `s` is a canonical numeral below 256. */
  function ParseOctet(s: seq<byte>): Option<byte>
  {
    if Canonical(s) && Value(s) < 256 then Some(Value(s) as byte) else None
  }

  /** Reads dotted-decimal text back into a 4-byte address. */
  function ParseDottedQuad(s: seq<byte>): Option<seq<byte>>
  {
    ParseOctets(Split(s, Dot))
  }

  /** Four octet numerals as a 4-byte address, if there are four and each is one. */
  function ParseOctets(parts: seq<seq<byte>>): Option<seq<byte>>
  {
    if |parts| == 4 && forall k :: 0 <= k < 4 ==> ParseOctet(parts[k]).Some? then
      Some([ParseOctet(parts[0]).value, ParseOctet(parts[1]).value, ParseOctet(parts[2]).value, ParseOctet(parts[3]).value])
    else
      None
  }

  lemma NoDotInNumeral(s: seq<byte>)
    requires AllDigits(s)
    ensures Dot !in s
  {
  }

  /** The dotted-decimal text splits on '.' into the four octets' numerals. */
  lemma {:induction false} DottedQuadSplits(q: seq<byte>)
    requires |q| == 4
    ensures Split(DottedQuad(q), Dot) == [Itoa(q[0] as nat), Itoa(q[1] as nat), Itoa(q[2] as nat), Itoa(q[3] as nat)]
  {
    var parts := [Itoa(q[0] as nat), Itoa(q[1] as nat), Itoa(q[2] as nat), Itoa(q[3] as nat)];
    forall k | 0 <= k < 4 ensures Dot !in parts[k] {
      NoDotInNumeral(parts[k]);
    }
    assert Join(parts[3..], Dot) == parts[3];
    assert Join(parts[2..], Dot) == parts[2] + [Dot] + parts[3] by {
      assert parts[2..][1..] == parts[3..];
    }
    assert Join(parts[1..], Dot) == parts[1] + [Dot] + parts[2] + [Dot] + parts[3] by {
      assert parts[1..][1..] == parts[2..];
    }
    assert Join(parts, Dot) == DottedQuad(q);
    SplitJoin(parts, Dot);
  }

  /** The numeral of an octet reads back as that octet. */
  lemma OctetRoundTrip(x: byte)
    ensures ParseOctet(Itoa(x as nat)) == Some(x)
  {
    ItoaValue(x as nat);
  }

  /** The numerals of four octets read back as those octets. */
  lemma ParseOctetNumerals(q: seq<byte>)
    requires |q| == 4
    ensures ParseOctets([Itoa(q[0] as nat), Itoa(q[1] as nat), Itoa(q[2] as nat), Itoa(q[3] as nat)]) == Some(q)
  {
    var parts := [Itoa(q[0] as nat), Itoa(q[1] as nat), Itoa(q[2] as nat), Itoa(q[3] as nat)];
    OctetRoundTrip(q[0]);
    OctetRoundTrip(q[1]);
    OctetRoundTrip(q[2]);
    OctetRoundTrip(q[3]);
    assert forall k :: 0 <= k < 4 ==> ParseOctet(parts[k]) == Some(q[k]);
    assert [q[0], q[1], q[2], q[3]] == q;
  }

  /** Reading the dotted-decimal text of an address gives the address back. */
  lemma DottedQuadRoundTrip(q: seq<byte>)
    requires |q| == 4
    ensures ParseDottedQuad(DottedQuad(q)) == Some(q)
  {
    DottedQuadSplits(q);
    ParseOctetNumerals(q);
  }

  /** Different addresses print differently. */
  lemma DottedQuadInjective(p: seq<byte>, q: seq<byte>)
    requires |p| == 4 && |q| == 4
    requires DottedQuad(p) == DottedQuad(q)
    ensures p == q
  {
    DottedQuadRoundTrip(p);
    DottedQuadRoundTrip(q);
  }
}
