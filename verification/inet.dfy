/** Java's `InetAddress` values as the source sees them: the raw network-order bytes of an
    IPv4 or IPv6 address (Java bytes are signed), the address classes the source tests, and
    the dotted-quad text `Inet4Address.getHostAddress` returns. */
module Inet {
  import opened Wrappers
  import opened Strings
  import opened Decimal

  /** A Java `byte`: a two's-complement value in -128..127. */
  type JByte = b: int | -128 <= b < 128

  type Bytes4 = s: seq<JByte> | |s| == 4 witness [0, 0, 0, 0]

  type Bytes16 = s: seq<JByte> | |s| == 16 witness [0, 0, 0, 0, 0, 0, 0, 0, 0, 0, 0, 0, 0, 0, 0, 0]

  /** `b.toInt() and 0xff`: the unsigned value with the same low eight bits. */
  function Unsigned(b: JByte): (u: int)
    ensures 0 <= u < 256
    ensures (u - b) % 256 == 0
    ensures Signed(u) == b
  {
    if b < 0 then b + 256 else b
  }

  /** The Java byte whose low eight bits are `u`. */
  function Signed(u: int): JByte
    requires 0 <= u < 256
  {
    if u >= 128 then u - 256 else u
  }

  datatype InetAddress = Inet4(v4: Bytes4) | Inet6(v6: Bytes16)

  /** `Inet4Address.isLoopbackAddress`: the 127.0.0.0/8 block. */
  predicate IsLoopback4(b: Bytes4) {
    b[0] == 127
  }

  /** `Inet6Address.isLoopbackAddress`: `::1` (section 2.5.3 of RFC 4291). */
  predicate IsLoopback6(b: Bytes16) {
    (forall i :: 0 <= i < 15 ==> b[i] == 0) && b[15] == 1
  }

  /** `Inet6Address.isAnyLocalAddress`: the unspecified address `::` (section 2.5.2 of
      RFC 4291). */
  predicate IsUnspecified6(b: Bytes16) {
    forall i :: 0 <= i < 16 ==> b[i] == 0
  }

  /** `Inet6Address.isMulticastAddress`: ff00::/8 (section 2.7 of RFC 4291). */
  predicate IsMulticast6(b: Bytes16) {
    Unsigned(b[0]) == 0xff
  }

  /** `Inet6Address.isLinkLocalAddress`: fe80::/10 (section 2.5.6 of RFC 4291), that is a
      first byte 0xfe and a second byte whose top two bits are 10. */
  predicate IsLinkLocal6(b: Bytes16) {
    Unsigned(b[0]) == 0xfe && Unsigned(b[1]) / 64 == 2
  }

  /** The four unsigned octets in decimal. */
  function OctetTexts(b: Bytes4): (r: seq<string>)
    ensures |r| == 4
  {
    [NatToDecimal(Unsigned(b[0])), NatToDecimal(Unsigned(b[1])),
     NatToDecimal(Unsigned(b[2])), NatToDecimal(Unsigned(b[3]))]
  }

  /** `Inet4Address.getHostAddress`: the four unsigned octets in decimal, dot-separated. */
  function HostAddress(b: Bytes4): string {
    Join(OctetTexts(b), ".")
  }

  /** Reads one decimal octet back into a Java byte. */
  function ParseOctet(t: string): Option<JByte> {
    if |t| >= 1 && AllDigits(t) && DigitsValue(t) < 256 then Some(Signed(DigitsValue(t))) else None
  }

  /** Reads a dotted quad back into address bytes. */
  function ParseHostAddress(s: string): Option<Bytes4> {
    var parts := Split(s, '.');
    if |parts| != 4 then None
    else
      match (ParseOctet(parts[0]), ParseOctet(parts[1]), ParseOctet(parts[2]), ParseOctet(parts[3]))
      case (Some(o0), Some(o1), Some(o2), Some(o3)) => Some([o0, o1, o2, o3])
      case _ => None
  }

  lemma OctetRoundTrip(x: JByte)
    ensures ParseOctet(NatToDecimal(Unsigned(x))) == Some(x)
    ensures '.' !in NatToDecimal(Unsigned(x)) && ':' !in NatToDecimal(Unsigned(x))
  {
    NatRoundTrip(Unsigned(x));
  }

  /** The host-address text determines the address: it parses back to the same bytes. */
  lemma HostAddressRoundTrip(b: Bytes4)
    ensures ParseHostAddress(HostAddress(b)) == Some(b)
  {
    var parts := OctetTexts(b);
    OctetRoundTrip(b[0]);
    OctetRoundTrip(b[1]);
    OctetRoundTrip(b[2]);
    OctetRoundTrip(b[3]);
    SplitJoin(parts, '.');
    assert [b[0], b[1], b[2], b[3]] == b;
  }

  /** A host address holds only digits and dots. */
  lemma HostAddressAvoids(b: Bytes4, c: char)
    requires !IsDigit(c) && c != '.'
    ensures c !in HostAddress(b)
  {
    var parts := OctetTexts(b);
    forall k | 0 <= k < 4
      ensures c !in parts[k]
    {
      assert AllDigits(parts[k]);
    }
    JoinAvoids(parts, ".", c);
  }
}
