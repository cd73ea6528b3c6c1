/**
 * Byte strings and the parts of Go's `bytes` and `encoding/binary`
 * packages that the SOCKS 4 codec relies on.
 */
module Bytes {

  /** An octet, as Go's `byte`. */
  newtype byte = x: int | 0 <= x < 256

  /** Number of occurrences of `c` in `s` (`bytes.Count` for a one-byte separator). */
  function Count(s: seq<byte>, c: byte): (n: nat)
    ensures n <= |s|
    ensures n == 0 <==> c !in s
  {
    if s == [] then 0
    else
      assert s == [s[0]] + s[1..];
      (if s[0] == c then 1 else 0) + Count(s[1..], c)
  }

  /** The count is the byte's multiplicity in the multiset of the sequence's elements. */
  lemma {:induction false} CountIsMultiplicity(s: seq<byte>, c: byte)
    ensures Count(s, c) == multiset(s)[c]
  {
    if s != [] {
      assert s == [s[0]] + s[1..];
      assert multiset(s) == multiset([s[0]]) + multiset(s[1..]);
      CountIsMultiplicity(s[1..], c);
    }
  }

  lemma {:induction false} CountConcat(a: seq<byte>, b: seq<byte>, c: byte)
    ensures Count(a + b, c) == Count(a, c) + Count(b, c)
  {
    if a == [] {
      assert a + b == b;
    } else {
      assert (a + b)[1..] == a[1..] + b;
      CountConcat(a[1..], b, c);
    }
  }

  /** Index of the first `c` in `s`, or `|s|` when `s` holds none. */
  function IndexOf(s: seq<byte>, c: byte): (i: nat)
    ensures i <= |s|
    ensures i < |s| ==> s[i] == c
    ensures forall k :: 0 <= k < i ==> s[k] != c
  {
    if s == [] then 0
    else if s[0] == c then 0
    else 1 + IndexOf(s[1..], c)
  }

  /** Index of the last `c` in `s`, or -1 when `s` holds none. */
  function LastIndexOf(s: seq<byte>, c: byte): (i: int)
    ensures -1 <= i < |s|
    ensures 0 <= i ==> s[i] == c
    ensures forall k :: i < k < |s| ==> s[k] != c
  {
    if s == [] then -1
    else if s[|s| - 1] == c then |s| - 1
    else LastIndexOf(s[..|s| - 1], c)
  }

  /** The first occurrence of `c` is at `j` when `s[j] == c` and no earlier byte is `c`. */
  lemma IndexOfAt(s: seq<byte>, c: byte, j: nat)
    requires j <= |s|
    requires j < |s| ==> s[j] == c
    requires c !in s[..j]
    ensures IndexOf(s, c) == j
  {
    assert forall k :: 0 <= k < j ==> s[k] == s[..j][k];
  }

  /** The last `c` in `prefix + [c] + suffix` is the separator when `suffix` holds none. */
  lemma {:induction false} LastIndexOfAt(prefix: seq<byte>, c: byte, suffix: seq<byte>)
    requires c !in suffix
    ensures LastIndexOf(prefix + [c] + suffix, c) == |prefix|
    decreases |suffix|
  {
    var s := prefix + [c] + suffix;
    if suffix != [] {
      var shorter := suffix[..|suffix| - 1];
      assert s[|s| - 1] == suffix[|suffix| - 1];
      assert s[..|s| - 1] == prefix + [c] + shorter;
      LastIndexOfAt(prefix, c, shorter);
    }
  }

  /** Concatenation of `parts` with `sep` between neighbours (`bytes.Join`). */
  function Join(parts: seq<seq<byte>>, sep: byte): seq<byte>
  {
    if |parts| == 0 then []
    else if |parts| == 1 then parts[0]
    else parts[0] + [sep] + Join(parts[1..], sep)
  }

  /**
   * `bytes.Split(s, []byte{sep})`: the pieces of `s` between the
   * occurrences of `sep`. There is one piece more than there are
   * separators, no piece holds the separator, and joining the pieces
   * gives back `s`.
   */
  function Split(s: seq<byte>, sep: byte): (parts: seq<seq<byte>>)
    ensures |parts| == Count(s, sep) + 1
    ensures forall k :: 0 <= k < |parts| ==> sep !in parts[k]
    ensures Join(parts, sep) == s
    decreases |s|
  {
    var i := IndexOf(s, sep);
    if i == |s| then
      [s]
    else
      var rest := Split(s[i + 1..], sep);
      CountAt(s, sep, i);
      JoinCons(s[..i], rest, sep);
      [s[..i]] + rest
  }

  /** Cutting `s` at its first separator `i` removes exactly one separator. */
  lemma CountAt(s: seq<byte>, sep: byte, i: nat)
    requires i < |s| && s[i] == sep && sep !in s[..i]
    ensures Count(s, sep) == Count(s[i + 1..], sep) + 1
    ensures s == s[..i] + [sep] + s[i + 1..]
  {
    assert s == s[..i] + [sep] + s[i + 1..];
    CountConcat(s[..i] + [sep], s[i + 1..], sep);
    CountConcat(s[..i], [sep], sep);
  }

  /** Joining a part in front of a non-empty list puts one separator between them. */
  lemma JoinCons(p: seq<byte>, rest: seq<seq<byte>>, sep: byte)
    requires |rest| > 0
    ensures Join([p] + rest, sep) == p + [sep] + Join(rest, sep)
  {
    assert ([p] + rest)[0] == p;
    assert ([p] + rest)[1..] == rest;
  }

  lemma Join3(a: seq<byte>, b: seq<byte>, c: seq<byte>, sep: byte)
    ensures Join([a, b, c], sep) == a + [sep] + b + [sep] + c
  {
    assert [b, c][1..] == [c];
    assert Join([b, c], sep) == b + [sep] + c;
    assert [a, b, c][1..] == [b, c];
  }

  /** Splitting at a separator at `i` that no earlier byte matches gives the bytes before it, then the split of the rest. */
  lemma SplitAt(s: seq<byte>, sep: byte, i: nat)
    requires i < |s| && s[i] == sep && sep !in s[..i]
    ensures Split(s, sep) == [s[..i]] + Split(s[i + 1..], sep)
  {
    IndexOfAt(s, sep, i);
  }

  /** Splitting undoes joining when no part holds the separator. */
  lemma {:induction false} SplitJoin(parts: seq<seq<byte>>, sep: byte)
    requires |parts| > 0
    requires forall k :: 0 <= k < |parts| ==> sep !in parts[k]
    ensures Split(Join(parts, sep), sep) == parts
  {
    var p := parts[0];
    if |parts| == 1 {
      assert p[..|p|] == p;
      IndexOfAt(p, sep, |p|);
    } else {
      var tail := parts[1..];
      var t := Join(tail, sep);
      var s := p + [sep] + t;
      assert parts == [p] + tail;
      JoinCons(p, tail, sep);
      assert Join(parts, sep) == s;
      assert s[..|p|] == p;
      assert s[|p| + 1..] == t;
      SplitAt(s, sep, |p|);
      SplitJoin(tail, sep);
    }
  }

  /** `binary.BigEndian.Uint16`: the value of a two-byte big-endian field. */
  function Uint16(hi: byte, lo: byte): (v: nat)
    ensures v < 0x1_0000
  {
    hi as nat * 256 + lo as nat
  }

  /**
   * `binary.BigEndian.AppendUint16(nil, uint16(v))`: Go's conversion to
   * `uint16` keeps the low 16 bits, which for every int (negative ones
   * included, in two's complement) is the Euclidean remainder mod 65536.
   */
  function BigEndian16(v: int): (b: seq<byte>)
    ensures |b| == 2
  {
    var w := v % 0x1_0000;
    [(w / 256) as byte, (w % 256) as byte]
  }

  /** Decoding an encoded 16-bit field gives back the truncated value. */
  lemma BigEndian16Decodes(v: int)
    ensures Uint16(BigEndian16(v)[0], BigEndian16(v)[1]) == v % 0x1_0000
  {
  }

  /** Encoding a decoded 16-bit field gives back the two bytes. */
  lemma Uint16Encodes(hi: byte, lo: byte)
    ensures BigEndian16(Uint16(hi, lo)) == [hi, lo]
  {
  }
}
