/** `NetUtil.formatIPv6ForURL`: the fully expanded text of an IPv6 address (eight groups
    of four lowercase hex digits, the uncompressed form of section 2.2 of RFC 4291, not the
    compressed form of RFC 5952), with every ':' percent-encoded as "%3A" (section 2.1 of
    RFC 3986), and the decoder that shows the encoding loses nothing. */
module IPv6Url {
  import opened Wrappers
  import opened Strings
  import opened Inet

  const EncodedColon := "%3A"

  predicate IsLowerHex(c: char) {
    '0' <= c <= '9' || 'a' <= c <= 'f'
  }

  function HexDigit(n: int): (c: char)
    requires 0 <= n < 16
    ensures IsLowerHex(c)
  {
    if n < 10 then ('0' as int + n) as char else ('a' as int + n - 10) as char
  }

  function HexValue(c: char): (n: int)
    requires IsLowerHex(c)
    ensures 0 <= n < 16 && HexDigit(n) == c
  {
    if c <= '9' then c as int - '0' as int else c as int - 'a' as int + 10
  }

  /** `String.format("%02x", b.toInt() and 0xff)`: two lowercase hex digits, high nibble first. */
  function Hex2(b: JByte): string {
    var u := Unsigned(b);
    [HexDigit(u / 16), HexDigit(u % 16)]
  }

  /** The group the source emits for bytes 2k and 2k+1. */
  function BytePair(b: seq<JByte>, k: int): string
    requires 0 <= k && 2 * k + 1 < |b|
  {
    Hex2(b[2 * k]) + Hex2(b[2 * k + 1])
  }

  predicate IsHexGroup(g: string) {
    |g| == 4 && forall j :: 0 <= j < 4 ==> IsLowerHex(g[j])
  }

  /** The list `parts` the source loop builds: one group per byte pair, in order. */
  function Groups(b: seq<JByte>): (r: seq<string>)
    requires |b| % 2 == 0
    ensures |r| == |b| / 2
    ensures forall k :: 0 <= k < |r| ==> r[k] == BytePair(b, k)
    decreases |b|
  {
    if |b| == 0 then []
    else
      var rest := Groups(b[2..]);
      assert forall k :: 1 <= k < |rest| + 1 ==> rest[k - 1] == BytePair(b, k) by {
        forall k | 1 <= k < |rest| + 1
          ensures rest[k - 1] == BytePair(b, k)
        {
          assert b[2..][2 * (k - 1)] == b[2 * k];
          assert b[2..][2 * (k - 1) + 1] == b[2 * k + 1];
        }
      }
      [BytePair(b, 0)] + rest
  }

  /** The four characters of group `k` in the encoded text. */
  function GroupAt(s: string, k: int): string
    requires 0 <= k && 7 * k + 4 <= |s|
  {
    s[7 * k..7 * k + 4]
  }

  /** The three characters after group `k` in the encoded text. */
  function SeparatorAt(s: string, k: int): string
    requires 0 <= k && 7 * k + 7 <= |s|
  {
    s[7 * k + 4..7 * k + 7]
  }

  /** `formatIPv6ForURL(addr)`, where `addr` is the address's byte array and None stands for
      a null address (or a null byte array). */
  function FormatIPv6ForUrl(addr: Option<seq<JByte>>): (r: string)
    ensures addr.None? || |addr.value| != 16 ==> r == ""
    ensures addr.Some? && |addr.value| == 16 ==>
      && |r| == 53
      && ':' !in r
      && (forall k :: 0 <= k < 8 ==> GroupAt(r, k) == BytePair(addr.value, k) && IsHexGroup(GroupAt(r, k)))
      && (forall k :: 0 <= k < 7 ==> SeparatorAt(r, k) == EncodedColon)
  {
    match addr
    case None => ""
    case Some(b) =>
      if |b| != 16 then ""
      else
        var gs := Groups(b);
        GroupsAreHex(b);
        ReplaceJoin(gs, ':', EncodedColon);
        JoinedLayout(gs);
        NoColonInJoin(gs);
        ReplaceChar(Join(gs, ":"), ':', EncodedColon)
  }

  lemma GroupsAreHex(b: seq<JByte>)
    requires |b| % 2 == 0
    ensures forall k :: 0 <= k < |Groups(b)| ==> IsHexGroup(Groups(b)[k]) && ':' !in Groups(b)[k]
  {
    forall k | 0 <= k < |Groups(b)|
      ensures IsHexGroup(Groups(b)[k]) && ':' !in Groups(b)[k]
    {
      var g := BytePair(b, k);
      assert forall j :: 0 <= j < 4 ==> IsLowerHex(g[j]);
    }
  }

  /** Four-character groups joined with "%3A" sit at stride seven. */
  lemma {:induction false} JoinedLayout(gs: seq<string>)
    requires |gs| >= 1
    requires forall k :: 0 <= k < |gs| ==> |gs[k]| == 4
    ensures |Join(gs, EncodedColon)| == 7 * |gs| - 3
    ensures forall k :: 0 <= k < |gs| ==> GroupAt(Join(gs, EncodedColon), k) == gs[k]
    ensures forall k :: 0 <= k < |gs| - 1 ==> SeparatorAt(Join(gs, EncodedColon), k) == EncodedColon
    decreases |gs|
  {
    if |gs| > 1 {
      var s := Join(gs, EncodedColon);
      var t := Join(gs[1..], EncodedColon);
      JoinedLayout(gs[1..]);
      assert s == gs[0] + EncodedColon + t;
      forall k | 1 <= k < |gs|
        ensures GroupAt(s, k) == gs[k]
      {
        assert GroupAt(s, k) == GroupAt(t, k - 1);
      }
      forall k | 1 <= k < |gs| - 1
        ensures SeparatorAt(s, k) == EncodedColon
      {
        assert SeparatorAt(s, k) == SeparatorAt(t, k - 1);
      }
    }
  }

  lemma NoColonInJoin(gs: seq<string>)
    requires forall k :: 0 <= k < |gs| ==> ':' !in gs[k]
    ensures ':' !in Join(gs, EncodedColon)
    decreases |gs|
  {
    if |gs| > 1 {
      NoColonInJoin(gs[1..]);
    }
  }

  /** Reads four hex digits back into two bytes. */
  function PairOf(g: string): seq<JByte>
    requires IsHexGroup(g)
  {
    [Signed(HexValue(g[0]) * 16 + HexValue(g[1])), Signed(HexValue(g[2]) * 16 + HexValue(g[3]))]
  }

  /** Reads groups separated by "%3A" back into bytes. */
  function DecodeGroups(s: string): Option<seq<JByte>>
    decreases |s|
  {
    if |s| < 4 || !IsHexGroup(s[..4]) then None
    else if |s| == 4 then Some(PairOf(s))
    else if |s| >= 7 && s[4..7] == EncodedColon then
      match DecodeGroups(s[7..])
      case Some(rest) => Some(PairOf(s[..4]) + rest)
      case None => None
    else None
  }

  /** The inverse of `FormatIPv6ForUrl` on sixteen-byte addresses. */
  function DecodeIPv6Url(s: string): Option<seq<JByte>> {
    match DecodeGroups(s)
    case Some(b) => if |b| == 16 then Some(b) else None
    case None => None
  }

  lemma HexRoundTrip(x: JByte)
    ensures IsLowerHex(Hex2(x)[0]) && IsLowerHex(Hex2(x)[1])
    ensures Signed(HexValue(Hex2(x)[0]) * 16 + HexValue(Hex2(x)[1])) == x
  {
    var u := Unsigned(x);
    assert HexValue(HexDigit(u / 16)) == u / 16;
    assert HexValue(HexDigit(u % 16)) == u % 16;
  }

  lemma PairRoundTrip(b: seq<JByte>)
    requires |b| >= 2
    ensures IsHexGroup(BytePair(b, 0)) && PairOf(BytePair(b, 0)) == b[..2]
  {
    HexRoundTrip(b[0]);
    HexRoundTrip(b[1]);
    var g := BytePair(b, 0);
    assert g[0] == Hex2(b[0])[0] && g[1] == Hex2(b[0])[1];
    assert g[2] == Hex2(b[1])[0] && g[3] == Hex2(b[1])[1];
  }

  lemma {:induction false} DecodeJoinedGroups(b: seq<JByte>)
    requires |b| >= 2 && |b| % 2 == 0
    ensures DecodeGroups(Join(Groups(b), EncodedColon)) == Some(b)
    decreases |b|
  {
    var gs := Groups(b);
    var s := Join(gs, EncodedColon);
    PairRoundTrip(b);
    if |b| == 2 {
      assert s == BytePair(b, 0);
      assert b[..2] == b;
    } else {
      DecodeJoinedGroups(b[2..]);
      assert gs[1..] == Groups(b[2..]);
      var t := Join(gs[1..], EncodedColon);
      assert s == BytePair(b, 0) + EncodedColon + t;
      assert s[..4] == BytePair(b, 0);
      assert s[4..7] == EncodedColon;
      assert s[7..] == t;
      assert b[..2] + b[2..] == b;
    }
  }

  /** Decoding the encoded text recovers the sixteen address bytes. */
  lemma FormatRoundTrip(b: seq<JByte>)
    requires |b| == 16
    ensures DecodeIPv6Url(FormatIPv6ForUrl(Some(b))) == Some(b)
  {
    var gs := Groups(b);
    GroupsAreHex(b);
    ReplaceJoin(gs, ':', EncodedColon);
    DecodeJoinedGroups(b);
  }

  /** Distinct addresses never share an encoded text. */
  lemma FormatInjective(a: seq<JByte>, b: seq<JByte>)
    requires |a| == 16 && |b| == 16
    requires FormatIPv6ForUrl(Some(a)) == FormatIPv6ForUrl(Some(b))
    ensures a == b
  {
    FormatRoundTrip(a);
    FormatRoundTrip(b);
  }

  /** The encoded text holds only lowercase hex digits and the characters of "%3A". */
  lemma FormatAvoids(addr: Option<seq<JByte>>, c: char)
    requires !IsLowerHex(c) && c !in EncodedColon
    ensures c !in FormatIPv6ForUrl(addr)
  {
    if addr.Some? && |addr.value| == 16 {
      var gs := Groups(addr.value);
      GroupsAreHex(addr.value);
      ReplaceJoin(gs, ':', EncodedColon);
      forall k | 0 <= k < |gs|
        ensures c !in gs[k]
      {
        assert IsHexGroup(gs[k]);
      }
      JoinAvoids(gs, EncodedColon, c);
    }
  }
}
