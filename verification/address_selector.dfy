/** `NetUtil.getIPv4Address` and `NetUtil.selectIPv6Address`: scans of the host's network
    interfaces, in enumeration order, for the address to advertise to the portal. */
module AddressSelector {
  import opened Wrappers
  import opened Inet

  /** One entry of `NetworkInterface.getNetworkInterfaces()`. */
  datatype NetworkInterface = NetworkInterface(
    name: string,
    isUp: bool,
    isLoopback: bool,
    addresses: seq<InetAddress>)

  /** Both scans skip interfaces that are down or loopback. */
  predicate IsEligible(i: NetworkInterface) {
    i.isUp && !i.isLoopback
  }

  /** The addresses both scans visit, in visiting order. */
  function EligibleAddresses(ifaces: seq<NetworkInterface>): seq<InetAddress>
    decreases |ifaces|
  {
    if |ifaces| == 0 then []
    else (if IsEligible(ifaces[0]) then ifaces[0].addresses else []) + EligibleAddresses(ifaces[1..])
  }

  // ---------------------------------------------------------------- IPv4

  predicate IsUsableIPv4(a: InetAddress) {
    a.Inet4? && !IsLoopback4(a.v4)
  }

  predicate IsFirstUsableIPv4At(s: seq<InetAddress>, i: int) {
    0 <= i < |s| && IsUsableIPv4(s[i]) && forall j :: 0 <= j < i ==> !IsUsableIPv4(s[j])
  }

  /** The inner loop over one interface's addresses. */
  function FirstIPv4In(addrs: seq<InetAddress>): Option<Bytes4>
    decreases |addrs|
  {
    if |addrs| == 0 then None
    else if IsUsableIPv4(addrs[0]) then Some(addrs[0].v4)
    else FirstIPv4In(addrs[1..])
  }

  /** The outer loop over the interfaces. */
  function FindIPv4(ifaces: seq<NetworkInterface>): Option<Bytes4>
    decreases |ifaces|
  {
    if |ifaces| == 0 then None
    else if !IsEligible(ifaces[0]) then FindIPv4(ifaces[1..])
    else
      match FirstIPv4In(ifaces[0].addresses)
      case Some(a) => Some(a)
      case None => FindIPv4(ifaces[1..])
  }

  /** `getIPv4Address()`: the host address of the first usable IPv4 address, or null. An
      enumeration that is null or throws at the start is the empty list here. */
  function GetIPv4Address(ifaces: seq<NetworkInterface>): Option<string> {
    match FindIPv4(ifaces)
    case Some(b) => Some(HostAddress(b))
    case None => None
  }

  lemma {:induction false} FirstIPv4InConcat(a: seq<InetAddress>, b: seq<InetAddress>)
    ensures FirstIPv4In(a + b) == if FirstIPv4In(a).Some? then FirstIPv4In(a) else FirstIPv4In(b)
    decreases |a|
  {
    if |a| > 0 {
      assert (a + b)[1..] == a[1..] + b;
      FirstIPv4InConcat(a[1..], b);
    } else {
      assert a + b == b;
    }
  }

  /** The nested scan is a scan of the flattened eligible addresses. */
  lemma {:induction false} FindIPv4Flat(ifaces: seq<NetworkInterface>)
    ensures FindIPv4(ifaces) == FirstIPv4In(EligibleAddresses(ifaces))
    decreases |ifaces|
  {
    if |ifaces| > 0 {
      FindIPv4Flat(ifaces[1..]);
      var head := if IsEligible(ifaces[0]) then ifaces[0].addresses else [];
      FirstIPv4InConcat(head, EligibleAddresses(ifaces[1..]));
    }
  }

  lemma {:induction false} FirstIPv4InSpec(s: seq<InetAddress>)
    ensures FirstIPv4In(s).None? <==> forall i :: 0 <= i < |s| ==> !IsUsableIPv4(s[i])
    ensures forall i :: IsFirstUsableIPv4At(s, i) ==> FirstIPv4In(s) == Some(s[i].v4)
    decreases |s|
  {
    if |s| > 0 {
      FirstIPv4InSpec(s[1..]);
      if !IsUsableIPv4(s[0]) {
        forall i | IsFirstUsableIPv4At(s, i)
          ensures FirstIPv4In(s) == Some(s[i].v4)
        {
          assert IsFirstUsableIPv4At(s[1..], i - 1);
        }
        if FirstIPv4In(s).Some? {
          var k :| 0 <= k < |s[1..]| && IsUsableIPv4(s[1..][k]);
          assert IsUsableIPv4(s[k + 1]);
        }
      }
    }
  }

  /** `getIPv4Address` returns null exactly when no eligible interface carries a
      non-loopback IPv4 address, and otherwise the first such address in enumeration order. */
  lemma GetIPv4AddressSpec(ifaces: seq<NetworkInterface>)
    ensures GetIPv4Address(ifaces).None? <==>
      forall i :: 0 <= i < |EligibleAddresses(ifaces)| ==> !IsUsableIPv4(EligibleAddresses(ifaces)[i])
    ensures forall i :: IsFirstUsableIPv4At(EligibleAddresses(ifaces), i) ==>
      GetIPv4Address(ifaces) == Some(HostAddress(EligibleAddresses(ifaces)[i].v4))
  {
    FindIPv4Flat(ifaces);
    FirstIPv4InSpec(EligibleAddresses(ifaces));
  }

  // ---------------------------------------------------------------- IPv6

  /** An IPv6 address the scan does not skip: not loopback, unspecified or multicast. */
  predicate IsIPv6Candidate(a: InetAddress) {
    a.Inet6? && !IsLoopback6(a.v6) && !IsUnspecified6(a.v6) && !IsMulticast6(a.v6)
  }

  /** A global or unique-local candidate: returned as soon as it is seen. */
  predicate IsPreferredIPv6(a: InetAddress) {
    IsIPv6Candidate(a) && !IsLinkLocal6(a.v6)
  }

  /** A link-local candidate: only ever a fallback. */
  predicate IsLinkLocalIPv6(a: InetAddress) {
    IsIPv6Candidate(a) && IsLinkLocal6(a.v6)
  }

  predicate IsFirstPreferredAt(s: seq<InetAddress>, i: int) {
    0 <= i < |s| && IsPreferredIPv6(s[i]) && forall j :: 0 <= j < i ==> !IsPreferredIPv6(s[j])
  }

  predicate IsFirstLinkLocalAt(s: seq<InetAddress>, i: int) {
    0 <= i < |s| && IsLinkLocalIPv6(s[i]) && forall j :: 0 <= j < i ==> !IsLinkLocalIPv6(s[j])
  }

  predicate NoPreferred(s: seq<InetAddress>) {
    forall i :: 0 <= i < |s| ==> !IsPreferredIPv6(s[i])
  }

  predicate NoLinkLocal(s: seq<InetAddress>) {
    forall i :: 0 <= i < |s| ==> !IsLinkLocalIPv6(s[i])
  }

  /** Where the inner loop leaves the scan: a returned address, or the fallback so far. */
  datatype Scan = Found(addr: Bytes16) | Continue(fallback: Option<Bytes16>)

  /** The inner loop over one interface's addresses, carrying `linkLocalFallback`. */
  function ScanIPv6In(addrs: seq<InetAddress>, fallback: Option<Bytes16>): Scan
    decreases |addrs|
  {
    if |addrs| == 0 then Continue(fallback)
    else
      var a := addrs[0];
      if !a.Inet6? || IsLoopback6(a.v6) || IsUnspecified6(a.v6) || IsMulticast6(a.v6) then
        ScanIPv6In(addrs[1..], fallback)
      else if IsLinkLocal6(a.v6) then
        ScanIPv6In(addrs[1..], if fallback.None? then Some(a.v6) else fallback)
      else Found(a.v6)
  }

  /** The outer loop over the interfaces. */
  function ScanIPv6(ifaces: seq<NetworkInterface>, fallback: Option<Bytes16>): Option<Bytes16>
    decreases |ifaces|
  {
    if |ifaces| == 0 then fallback
    else if !IsEligible(ifaces[0]) then ScanIPv6(ifaces[1..], fallback)
    else
      match ScanIPv6In(ifaces[0].addresses, fallback)
      case Found(a) => Some(a)
      case Continue(f) => ScanIPv6(ifaces[1..], f)
  }

  /** `selectIPv6Address()`. */
  function SelectIPv6Address(ifaces: seq<NetworkInterface>): Option<Bytes16> {
    ScanIPv6(ifaces, None)
  }

  function Finish(s: Scan): Option<Bytes16> {
    match s
    case Found(a) => Some(a)
    case Continue(f) => f
  }

  lemma {:induction false} ScanIPv6InConcat(a: seq<InetAddress>, b: seq<InetAddress>, fallback: Option<Bytes16>)
    ensures ScanIPv6In(a + b, fallback) ==
      match ScanIPv6In(a, fallback)
      case Found(x) => Found(x)
      case Continue(f) => ScanIPv6In(b, f)
    decreases |a|
  {
    if |a| == 0 {
      assert a + b == b;
    } else {
      assert (a + b)[0] == a[0];
      assert (a + b)[1..] == a[1..] + b;
      var x := a[0];
      if !x.Inet6? || IsLoopback6(x.v6) || IsUnspecified6(x.v6) || IsMulticast6(x.v6) {
        ScanIPv6InConcat(a[1..], b, fallback);
      } else if IsLinkLocal6(x.v6) {
        ScanIPv6InConcat(a[1..], b, if fallback.None? then Some(x.v6) else fallback);
      }
    }
  }

  /** The nested scan is a scan of the flattened eligible addresses. */
  lemma {:induction false} ScanIPv6Flat(ifaces: seq<NetworkInterface>, fallback: Option<Bytes16>)
    ensures ScanIPv6(ifaces, fallback) == Finish(ScanIPv6In(EligibleAddresses(ifaces), fallback))
    decreases |ifaces|
  {
    if |ifaces| > 0 {
      var head := if IsEligible(ifaces[0]) then ifaces[0].addresses else [];
      ScanIPv6InConcat(head, EligibleAddresses(ifaces[1..]), fallback);
      match ScanIPv6In(head, fallback)
      case Found(x) =>
      case Continue(f) =>
        ScanIPv6Flat(ifaces[1..], f);
    }
  }

  lemma {:induction false} ScanIPv6InSpec(s: seq<InetAddress>, fallback: Option<Bytes16>)
    ensures forall i :: IsFirstPreferredAt(s, i) ==> ScanIPv6In(s, fallback) == Found(s[i].v6)
    ensures NoPreferred(s) && fallback.Some? ==> ScanIPv6In(s, fallback) == Continue(fallback)
    ensures forall i :: NoPreferred(s) && fallback.None? && IsFirstLinkLocalAt(s, i) ==>
      ScanIPv6In(s, fallback) == Continue(Some(s[i].v6))
    ensures NoPreferred(s) && NoLinkLocal(s) ==> ScanIPv6In(s, fallback) == Continue(fallback)
    ensures !NoPreferred(s) ==> ScanIPv6In(s, fallback).Found?
    decreases |s|
  {
    if |s| > 0 {
      var a := s[0];
      var t := s[1..];
      var next := if IsLinkLocalIPv6(a) && fallback.None? then Some(a.v6) else fallback;
      if IsPreferredIPv6(a) {
        assert !NoPreferred(s);
        forall i | IsFirstPreferredAt(s, i)
          ensures ScanIPv6In(s, fallback) == Found(s[i].v6)
        {
          assert i == 0;
        }
      } else {
        ScanIPv6InSpec(t, next);
        assert ScanIPv6In(s, fallback) == ScanIPv6In(t, next);
        forall i | IsFirstPreferredAt(s, i)
          ensures ScanIPv6In(s, fallback) == Found(s[i].v6)
        {
          assert IsFirstPreferredAt(t, i - 1);
        }
        if NoPreferred(s) {
          assert NoPreferred(t) by {
            forall i | 0 <= i < |t| ensures !IsPreferredIPv6(t[i]) {
              assert t[i] == s[i + 1];
            }
          }
          forall i | fallback.None? && IsFirstLinkLocalAt(s, i)
            ensures ScanIPv6In(s, fallback) == Continue(Some(s[i].v6))
          {
            if i > 0 {
              assert IsFirstLinkLocalAt(t, i - 1);
            }
          }
          if NoLinkLocal(s) {
            assert NoLinkLocal(t) by {
              forall i | 0 <= i < |t| ensures !IsLinkLocalIPv6(t[i]) {
                assert t[i] == s[i + 1];
              }
            }
          }
        } else {
          var k :| 0 <= k < |s| && IsPreferredIPv6(s[k]);
          assert !NoPreferred(t) by {
            assert IsPreferredIPv6(t[k - 1]);
          }
        }
      }
    }
  }

  /** `selectIPv6Address` returns the first preferred (non-link-local) candidate in
      enumeration order; failing that, the first link-local candidate; failing that, null. */
  lemma SelectIPv6AddressSpec(ifaces: seq<NetworkInterface>)
    ensures forall i :: IsFirstPreferredAt(EligibleAddresses(ifaces), i) ==>
      SelectIPv6Address(ifaces) == Some(EligibleAddresses(ifaces)[i].v6)
    ensures forall i :: NoPreferred(EligibleAddresses(ifaces)) && IsFirstLinkLocalAt(EligibleAddresses(ifaces), i) ==>
      SelectIPv6Address(ifaces) == Some(EligibleAddresses(ifaces)[i].v6)
    ensures SelectIPv6Address(ifaces).None? <==>
      NoPreferred(EligibleAddresses(ifaces)) && NoLinkLocal(EligibleAddresses(ifaces))
  {
    var s := EligibleAddresses(ifaces);
    ScanIPv6Flat(ifaces, None);
    ScanIPv6InSpec(s, None);
    if NoPreferred(s) && !NoLinkLocal(s) {
      var k :| 0 <= k < |s| && IsLinkLocalIPv6(s[k]);
      var i := FirstLinkLocal(s, k);
      assert ScanIPv6In(s, None) == Continue(Some(s[i].v6));
    }
  }

  /** Some position at or before `k` is the first link-local candidate. */
  lemma {:induction false} FirstLinkLocalExists(s: seq<InetAddress>, k: int)
    requires 0 <= k < |s| && IsLinkLocalIPv6(s[k])
    ensures exists i :: IsFirstLinkLocalAt(s, i)
    decreases k
  {
    if !IsFirstLinkLocalAt(s, k) {
      var j :| 0 <= j < k && IsLinkLocalIPv6(s[j]);
      FirstLinkLocalExists(s, j);
    }
  }

  ghost function FirstLinkLocal(s: seq<InetAddress>, k: int): (i: int)
    requires 0 <= k < |s| && IsLinkLocalIPv6(s[k])
    ensures IsFirstLinkLocalAt(s, i)
  {
    FirstLinkLocalExists(s, k);
    var i :| IsFirstLinkLocalAt(s, i); i
  }
}
