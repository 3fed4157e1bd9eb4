/** `AuthService`'s pure core: the address resolution and URL assembly of `buildUrl`, and
    the body of the scheduled task, which turns one round of network results into exactly
    one log line and one status report. Preferences, interfaces, the HTTP exchange, the
    JSON parser and `URLEncoder` are inputs. */
module AuthCycle {
  import opened Wrappers
  import opened Strings
  import opened KotlinText
  import opened Decimal
  import opened Inet
  import opened AddressSelector
  import opened IPv6Url
  import opened LoginUrl
  import opened PortalResponse

  /** `URLEncoder.encode(s, "UTF-8")`: the encoded text, or None when it throws. */
  type UrlEncoder = string -> Option<string>

  /** `try { URLEncoder.encode(s, "UTF-8") } catch (_: Exception) { s }`. */
  function EncodeOrRaw(encode: UrlEncoder, s: string): (r: string)
    ensures encode(s).Some? ==> r == encode(s).value
    ensures encode(s).None? ==> r == s
  {
    match encode(s)
    case Some(e) => e
    case None => s
  }

  /** The values `buildUrl` works with. The two address overrides are what
      `prefs.getString(key, "")` returned, None standing for null; `ReadSettings` shows that
      preferences never produce a null there. */
  datatype Settings = Settings(
    account: string,
    password: string,
    customIPv4: Option<string>,
    customIPv6: Option<string>)

  /** The contents of the `autoauth_prefs` store: string values by key. A string preference
      cannot hold null, since `putString(key, null)` removes the key. */
  type Preferences = map<string, string>

  /** `prefs.getString(key, default)`: the stored value, or the default when the key is
      absent. */
  function GetString(prefs: Preferences, key: string, default: string): string {
    if key in prefs then prefs[key] else default
  }

  /** The reads at the top of `buildUrl`, every one with default "". */
  function ReadSettings(prefs: Preferences): Settings {
    Settings(
      GetString(prefs, "account", ""),
      GetString(prefs, "password", ""),
      Some(GetString(prefs, "custom_ipv4", "")),
      Some(GetString(prefs, "custom_ipv6", "")))
  }

  /** `finalIPv4`: a non-null override verbatim (even ""), otherwise the detected address,
      or "" when none is found. */
  function ResolveIPv4(custom: Option<string>, ifaces: seq<NetworkInterface>): (r: string)
    ensures custom.Some? ==> r == custom.value
    ensures custom.None? && (forall i :: 0 <= i < |EligibleAddresses(ifaces)| ==> !IsUsableIPv4(EligibleAddresses(ifaces)[i]))
      ==> r == ""
    ensures forall i :: custom.None? && IsFirstUsableIPv4At(EligibleAddresses(ifaces), i) ==>
      r == HostAddress(EligibleAddresses(ifaces)[i].v4)
  {
    GetIPv4AddressSpec(ifaces);
    match custom
    case Some(v) => v
    case None => GetIPv4Address(ifaces).GetOr("")
  }

  /** `finalIPv6Encoded`: a non-null override URL-encoded (or raw when encoding throws),
      otherwise the selected address in the encoded expanded form, or "" when none is
      found. */
  function ResolveIPv6Encoded(custom: Option<string>, ifaces: seq<NetworkInterface>, encode: UrlEncoder): (r: string)
    ensures custom.Some? ==> r == EncodeOrRaw(encode, custom.value)
    ensures custom.None? && SelectIPv6Address(ifaces).None? ==> r == ""
    ensures custom.None? && SelectIPv6Address(ifaces).Some? ==>
      |r| == 53 && DecodeIPv6Url(r) == SelectIPv6Address(ifaces)
  {
    match custom
    case Some(v) => EncodeOrRaw(encode, v)
    case None =>
      var selected := SelectIPv6Address(ifaces);
      if selected.Some? then
        FormatRoundTrip(selected.value);
        FormatIPv6ForUrl(selected)
      else FormatIPv6ForUrl(selected)
  }

  /** `buildUrl()`: the account and password URL-encoded (raw when encoding throws), the
      addresses resolved, all handed to the login-URL builder. */
  function BuildUrl(settings: Settings, ifaces: seq<NetworkInterface>, encode: UrlEncoder): string {
    BuildLoginUrl(
      EncodeOrRaw(encode, settings.account),
      EncodeOrRaw(encode, settings.password),
      ResolveIPv4(settings.customIPv4, ifaces),
      ResolveIPv6Encoded(settings.customIPv6, ifaces, encode))
  }

  /** The account and password as they appear in the URL contain no '&'. */
  predicate CredentialsEncodeCleanly(settings: Settings, encode: UrlEncoder) {
    NoAmpersand(EncodeOrRaw(encode, settings.account)) && NoAmpersand(EncodeOrRaw(encode, settings.password))
  }

  /** Each non-null address override, as it appears in the URL, contains no '&'. */
  predicate AddressesEncodeCleanly(settings: Settings, encode: UrlEncoder) {
    && (settings.customIPv4.Some? ==> NoAmpersand(settings.customIPv4.value))
    && (settings.customIPv6.Some? ==> NoAmpersand(EncodeOrRaw(encode, settings.customIPv6.value)))
  }

  /** The resolved addresses never contain '&': detected addresses are digits and dots or
      hex digits and "%3A", and overrides are clean by assumption. */
  lemma ResolvedAddressesClean(settings: Settings, ifaces: seq<NetworkInterface>, encode: UrlEncoder)
    requires AddressesEncodeCleanly(settings, encode)
    ensures NoAmpersand(ResolveIPv4(settings.customIPv4, ifaces))
    ensures NoAmpersand(ResolveIPv6Encoded(settings.customIPv6, ifaces, encode))
  {
    if settings.customIPv4.None? && GetIPv4Address(ifaces).Some? {
      var b := FindIPv4(ifaces).value;
      HostAddressAvoids(b, '&');
    }
    FormatAvoids(SelectIPv6Address(ifaces), '&');
  }

  /** Each URL parameter reads back from the URL, and each address follows its own setting
      whatever the other one is: a non-null override is used (the IPv6 one encoded), a null
      one is replaced by the detected address. */
  lemma SettingsInUrl(settings: Settings, ifaces: seq<NetworkInterface>, encode: UrlEncoder)
    requires CredentialsEncodeCleanly(settings, encode) && AddressesEncodeCleanly(settings, encode)
    ensures
      var url := BuildUrl(settings, ifaces, encode);
      && QueryParam(url, "user_password") == Some(EncodeOrRaw(encode, settings.password))
      && (settings.customIPv4.Some? ==> QueryParam(url, "wlan_user_ip") == Some(settings.customIPv4.value))
      && (settings.customIPv4.None? ==> QueryParam(url, "wlan_user_ip") == Some(GetIPv4Address(ifaces).GetOr("")))
      && (settings.customIPv6.Some? ==>
            QueryParam(url, "wlan_user_ipv6") == Some(EncodeOrRaw(encode, settings.customIPv6.value)))
      && (settings.customIPv6.None? ==>
            QueryParam(url, "wlan_user_ipv6") == Some(FormatIPv6ForUrl(SelectIPv6Address(ifaces))))
  {
    ResolvedInUrl(settings, ifaces, encode);
  }

  /** The URL reads back to the encoded password and the two resolved addresses. */
  lemma ResolvedInUrl(settings: Settings, ifaces: seq<NetworkInterface>, encode: UrlEncoder)
    requires CredentialsEncodeCleanly(settings, encode) && AddressesEncodeCleanly(settings, encode)
    ensures
      var url := BuildUrl(settings, ifaces, encode);
      && QueryParam(url, "user_password") == Some(EncodeOrRaw(encode, settings.password))
      && QueryParam(url, "wlan_user_ip") == Some(ResolveIPv4(settings.customIPv4, ifaces))
      && QueryParam(url, "wlan_user_ipv6") == Some(ResolveIPv6Encoded(settings.customIPv6, ifaces, encode))
  {
    var ipv4 := ResolveIPv4(settings.customIPv4, ifaces);
    var ipv6 := ResolveIPv6Encoded(settings.customIPv6, ifaces, encode);
    ResolvedAddressesClean(settings, ifaces, encode);
    QueryParamsOfLoginUrl(EncodeOrRaw(encode, settings.account), EncodeOrRaw(encode, settings.password), ipv4, ipv6);
  }

  /** The mixed case: an emptied IPv4 field and an IPv6 setting that is null leave
      `wlan_user_ip` empty while `wlan_user_ipv6` carries the detected address. */
  lemma EmptyIPv4WithDetectedIPv6(account: string, password: string, ifaces: seq<NetworkInterface>, encode: UrlEncoder)
    requires CredentialsEncodeCleanly(Settings(account, password, Some(""), None), encode)
    ensures
      var url := BuildUrl(Settings(account, password, Some(""), None), ifaces, encode);
      && QueryParam(url, "wlan_user_ip") == Some("")
      && QueryParam(url, "wlan_user_ipv6") == Some(FormatIPv6ForUrl(SelectIPv6Address(ifaces)))
  {
    SettingsInUrl(Settings(account, password, Some(""), None), ifaces, encode);
  }

  /** With both overrides null, the URL carries the detected addresses: `wlan_user_ip` is the first
      usable IPv4 address (or empty) and `wlan_user_ipv6` decodes to the selected IPv6
      address (or is empty). */
  lemma AutoDetectedAddressesInUrl(settings: Settings, ifaces: seq<NetworkInterface>, encode: UrlEncoder)
    requires settings.customIPv4.None? && settings.customIPv6.None?
    requires CredentialsEncodeCleanly(settings, encode)
    ensures QueryParam(BuildUrl(settings, ifaces, encode), "wlan_user_ip") == Some(GetIPv4Address(ifaces).GetOr(""))
    ensures QueryParam(BuildUrl(settings, ifaces, encode), "wlan_user_ipv6") ==
      Some(FormatIPv6ForUrl(SelectIPv6Address(ifaces)))
    ensures
      var v6 := QueryParam(BuildUrl(settings, ifaces, encode), "wlan_user_ipv6").value;
      SelectIPv6Address(ifaces).Some? ==> DecodeIPv6Url(v6) == SelectIPv6Address(ifaces)
  {
    SettingsInUrl(settings, ifaces, encode);
    if SelectIPv6Address(ifaces).Some? {
      FormatRoundTrip(SelectIPv6Address(ifaces).value);
    }
  }

  /** Non-null overrides win, even empty ones: an empty IPv4 override leaves `wlan_user_ip`
      empty however many addresses the interfaces carry. */
  lemma OverridesInUrl(settings: Settings, ifaces: seq<NetworkInterface>, encode: UrlEncoder)
    requires settings.customIPv4.Some? && settings.customIPv6.Some?
    requires CredentialsEncodeCleanly(settings, encode)
    requires NoAmpersand(settings.customIPv4.value)
    requires NoAmpersand(EncodeOrRaw(encode, settings.customIPv6.value))
    ensures QueryParam(BuildUrl(settings, ifaces, encode), "wlan_user_ip") == Some(settings.customIPv4.value)
    ensures QueryParam(BuildUrl(settings, ifaces, encode), "wlan_user_ipv6") ==
      Some(EncodeOrRaw(encode, settings.customIPv6.value))
  {
    SettingsInUrl(settings, ifaces, encode);
  }

  /** Because `getString` with a non-null default never returns null, settings read from
      the preferences never reach the detection branches: the URL is the same whatever the
      interfaces carry. */
  lemma PreferencesIgnoreInterfaces(prefs: Preferences, ifaces1: seq<NetworkInterface>,
                                    ifaces2: seq<NetworkInterface>, encode: UrlEncoder)
    ensures BuildUrl(ReadSettings(prefs), ifaces1, encode) == BuildUrl(ReadSettings(prefs), ifaces2, encode)
  {
  }

  /** The settings screen only ever saves the account and the password, so the two address
      keys are absent: `wlan_user_ip` is then empty and `wlan_user_ipv6` is the encoding of
      "", whatever addresses the device has. */
  lemma UnsavedAddressesStayEmpty(prefs: Preferences, ifaces: seq<NetworkInterface>, encode: UrlEncoder)
    requires "custom_ipv4" !in prefs && "custom_ipv6" !in prefs
    requires CredentialsEncodeCleanly(ReadSettings(prefs), encode)
    requires NoAmpersand(EncodeOrRaw(encode, ""))
    ensures QueryParam(BuildUrl(ReadSettings(prefs), ifaces, encode), "wlan_user_ip") == Some("")
    ensures QueryParam(BuildUrl(ReadSettings(prefs), ifaces, encode), "wlan_user_ipv6") == Some(EncodeOrRaw(encode, ""))
  {
    var settings := ReadSettings(prefs);
    assert NoAmpersand(settings.customIPv4.value);
    OverridesInUrl(settings, ifaces, encode);
  }

  // ---------------------------------------------------------------- the scheduled body

  /** The payload of `sendStatus(net, url, summary, running)`. */
  datatype Status = Status(network: string, url: Option<string>, summary: string, running: bool)

  /** What one run of the scheduled task body does, in order. */
  datatype Effect = LogAppend(line: string) | StatusSent(status: Status)

  /** How one run of the scheduled task goes: the network check answers and the login GET is made
      against the interfaces and preferences of the moment, or something in the `try`
      block throws (with an optional message). */
  datatype Round =
    | Ran(netStatus: string, settings: Settings, ifaces: seq<NetworkInterface>, exchange: HttpExchange)
    | Threw(message: Option<string>)

  const ExcerptLength := 120
  const NetworkLabel := "\U{7F51}\U{7EDC}="
  const ResultLabel := " | GET\U{7ED3}\U{679C}="
  const TaskFailedLabel := "\U{4EFB}\U{52A1}\U{5F02}\U{5E38}: "
  const FailedNetwork := "\U{5F02}\U{5E38}"

  /** `result.take(120).replace('\n', ' ')` as it reaches the log. `take` counts UTF-16
      code units; when the cut falls inside a surrogate pair, the high surrogate left over
      is written by the UTF-8 encoder as '?', which is what the excerpt ends with then. */
  function Excerpt(result: string): (r: string)
    ensures |r| <= ExcerptLength && '\n' !in r
    ensures Utf16Length(r) == if Utf16Length(result) < ExcerptLength then Utf16Length(result) else ExcerptLength
    ensures |r| <= |result|
    ensures forall i :: 0 <= i < |r| ==>
      || r[i] == (if result[i] == '\n' then ' ' else result[i])
      || (i == |r| - 1 && r[i] == '?' && Utf16Units(result[i]) == 2)
  {
    var t := Take(result, ExcerptLength);
    ReplaceByChar(t, '\n', ' ');
    SameUnits(ReplaceChar(t, '\n', " "), t);
    ReplaceChar(t, '\n', " ")
  }

  /** `result.lines().firstOrNull() ?: result`: `lines()` is never empty, so this is the
      first line. */
  function StatusSummary(result: string): (r: string)
    ensures IsPrefix(r, result) && '\n' !in r && '\r' !in r
    ensures |r| == |result| || result[|r|] == '\n' || result[|r|] == '\r'
  {
    FirstLine(result);
    Lines(result)[0]
  }

  /** One run of the scheduled body. */
  function RunRound(round: Round, encode: UrlEncoder, parseJson: JsonParser): (effects: seq<Effect>)
    ensures |effects| == 2 && effects[0].LogAppend? && effects[1].StatusSent?
    ensures effects[1].status.running
    ensures round.Threw? <==> effects[1].status.url.None?
  {
    match round
    case Ran(net, settings, ifaces, exchange) =>
      var url := BuildUrl(settings, ifaces, encode);
      var result := PerformGet(exchange, parseJson);
      [LogAppend(LogLine(round, parseJson)), StatusSent(Status(net, Some(url), StatusSummary(result), true))]
    case Threw(m) =>
      [LogAppend(LogLine(round, parseJson)), StatusSent(Status(FailedNetwork, None, m.GetOr(""), true))]
  }

  /** The line a run appends to the log: the network state and the result excerpt, or the
      exception message ("null" when it has none). */
  function LogLine(round: Round, parseJson: JsonParser): string {
    match round
    case Ran(net, _, _, exchange) => NetworkLabel + ResultText(net, exchange, parseJson)
    case Threw(m) => TaskFailedLabel + m.GetOr("null")
  }

  /** What follows the network label in a successful run's log line. */
  function ResultText(net: string, exchange: HttpExchange, parseJson: JsonParser): string {
    net + ResultLabel + Excerpt(PerformGet(exchange, parseJson))
  }

  /** A result without line breaks that fits in 120 UTF-16 code units appears in the log
      line and the status unaltered, and reading it back recovers the HTTP outcome. */
  lemma ShortResultReported(net: string, settings: Settings, ifaces: seq<NetworkInterface>, exchange: HttpExchange,
                            encode: UrlEncoder, parseJson: JsonParser)
    requires
      var result := PerformGet(exchange, parseJson);
      Utf16Length(result) <= ExcerptLength && '\n' !in result && '\r' !in result
    ensures
      var effects := RunRound(Ran(net, settings, ifaces, exchange), encode, parseJson);
      var result := PerformGet(exchange, parseJson);
      && effects[0].line == NetworkLabel + net + ResultLabel + result
      && ReadResult(effects[1].status.summary) == Some(ExpectedOutcome(exchange, parseJson))
  {
    var round := Ran(net, settings, ifaces, exchange);
    var result := PerformGet(exchange, parseJson);
    RanEffects(round, encode, parseJson);
    ShortExcerpt(result);
    assert ResultText(net, exchange, parseJson) == net + ResultLabel + result;
    assert NetworkLabel + (net + ResultLabel + result) == NetworkLabel + net + ResultLabel + result;
    SingleLine(result);
    PerformGetRoundTrip(exchange, parseJson);
  }

  /** Where a successful run's log line and status summary come from. */
  lemma RanEffects(round: Round, encode: UrlEncoder, parseJson: JsonParser)
    requires round.Ran?
    ensures RunRound(round, encode, parseJson)[0].line == NetworkLabel + ResultText(round.netStatus, round.exchange, parseJson)
    ensures RunRound(round, encode, parseJson)[1].status ==
      Status(round.netStatus, Some(BuildUrl(round.settings, round.ifaces, encode)),
             StatusSummary(PerformGet(round.exchange, parseJson)), true)
  {
  }

  /** A result that fits in 120 code units and has no line feed is its own excerpt. */
  lemma ShortExcerpt(result: string)
    requires Utf16Length(result) <= ExcerptLength && '\n' !in result
    ensures Excerpt(result) == result
  {
    TakeCutLength(result, ExcerptLength);
    assert Take(result, ExcerptLength) == result;
    ReplaceAbsent(result, '\n', " ");
  }

  /** The log line alone tells a run that went through from one that threw: it starts
      with the network label exactly when the task ran, and with the task-failure label
      exactly when it threw. */
  lemma LogLineTellsOutcome(round: Round, encode: UrlEncoder, parseJson: JsonParser)
    ensures
      var line := RunRound(round, encode, parseJson)[0].line;
      && (IsPrefix(NetworkLabel, line) <==> round.Ran?)
      && (IsPrefix(TaskFailedLabel, line) <==> round.Threw?)
  {
    assert RunRound(round, encode, parseJson)[0].line == LogLine(round, parseJson);
    match round
    case Ran(net, _, _, exchange) =>
      NetworkLine(ResultText(net, exchange, parseJson));
    case Threw(m) =>
      FailureLine(m.GetOr("null"));
  }

  /** A line built on the network label starts with it and not with the failure label. */
  lemma NetworkLine(rest: string)
    ensures IsPrefix(NetworkLabel, NetworkLabel + rest) && !IsPrefix(TaskFailedLabel, NetworkLabel + rest)
  {
    var line := NetworkLabel + rest;
    assert line[..|NetworkLabel|] == NetworkLabel;
    assert line[0] == NetworkLabel[0] != TaskFailedLabel[0];
  }

  /** A line built on the failure label starts with it and not with the network label. */
  lemma FailureLine(rest: string)
    ensures IsPrefix(TaskFailedLabel, TaskFailedLabel + rest) && !IsPrefix(NetworkLabel, TaskFailedLabel + rest)
  {
    var line := TaskFailedLabel + rest;
    assert line[..|TaskFailedLabel|] == TaskFailedLabel;
    assert line[0] == TaskFailedLabel[0] != NetworkLabel[0];
  }

  /** A run that went through broadcasts its network status and the URL it requested, and
      that URL reads back to the password and the resolved addresses; its log line shows the
      network status. */
  lemma RanReadBack(round: Round, encode: UrlEncoder, parseJson: JsonParser)
    requires round.Ran?
    requires CredentialsEncodeCleanly(round.settings, encode) && AddressesEncodeCleanly(round.settings, encode)
    ensures
      var effects := RunRound(round, encode, parseJson);
      var status := effects[1].status;
      && IsPrefix(NetworkLabel + round.netStatus + ResultLabel, effects[0].line)
      && status.network == round.netStatus
      && status.url.Some?
      && QueryParam(status.url.value, "user_password") == Some(EncodeOrRaw(encode, round.settings.password))
      && QueryParam(status.url.value, "wlan_user_ip") == Some(ResolveIPv4(round.settings.customIPv4, round.ifaces))
      && QueryParam(status.url.value, "wlan_user_ipv6") ==
           Some(ResolveIPv6Encoded(round.settings.customIPv6, round.ifaces, encode))
  {
    RanEffects(round, encode, parseJson);
    ResolvedInUrl(round.settings, round.ifaces, encode);
    NetworkLineShowsStatus(round.netStatus, round.exchange, parseJson);
  }

  /** A successful run's log line begins with the network label, the network status and
      the result label. */
  lemma NetworkLineShowsStatus(net: string, exchange: HttpExchange, parseJson: JsonParser)
    ensures IsPrefix(NetworkLabel + net + ResultLabel, NetworkLabel + ResultText(net, exchange, parseJson))
  {
    LabelledPrefix(net, Excerpt(PerformGet(exchange, parseJson)));
  }

  lemma LabelledPrefix(net: string, rest: string)
    ensures IsPrefix(NetworkLabel + net + ResultLabel, NetworkLabel + (net + ResultLabel + rest))
  {
    var head := NetworkLabel + net + ResultLabel;
    assert NetworkLabel + (net + ResultLabel + rest) == head + rest;
    assert (head + rest)[..|head|] == head;
  }

  /** A run that threw logs the exception message after the failure label ("null" when it
      has none) and broadcasts the failure marker with the message ("" when it has none)
      and no URL. */
  lemma ThrewReadBack(m: Option<string>, encode: UrlEncoder, parseJson: JsonParser)
    ensures
      var effects := RunRound(Threw(m), encode, parseJson);
      var line := effects[0].line;
      && IsPrefix(TaskFailedLabel, line)
      && line[|TaskFailedLabel|..] == m.GetOr("null")
      && effects[1].status.network == FailedNetwork
      && effects[1].status.summary == m.GetOr("")
      && effects[1].status.url.None?
  {
    var line := TaskFailedLabel + m.GetOr("null");
    assert RunRound(Threw(m), encode, parseJson)[0].line == line;
    FailureLine(m.GetOr("null"));
    assert line[|TaskFailedLabel|..] == m.GetOr("null");
  }

  /** The concatenation of `f` over `xs`, in order. */
  function FlatMap<A, B>(xs: seq<A>, f: A -> seq<B>): seq<B>
    decreases |xs|
  {
    if |xs| == 0 then [] else f(xs[0]) + FlatMap(xs[1..], f)
  }

  /** When `f` always yields two elements, the images sit side by side at 2k, 2k+1. */
  lemma {:induction false} FlatMapPairs<A, B>(xs: seq<A>, f: A -> seq<B>)
    requires forall x :: |f(x)| == 2
    ensures |FlatMap(xs, f)| == 2 * |xs|
    ensures forall k :: 0 <= k < |xs| ==> FlatMap(xs, f)[2 * k..2 * k + 2] == f(xs[k])
    decreases |xs|
  {
    if |xs| > 0 {
      var tail := FlatMap(xs[1..], f);
      FlatMapPairs(xs[1..], f);
      var all := FlatMap(xs, f);
      assert all == f(xs[0]) + tail;
      forall k | 0 <= k < |xs|
        ensures all[2 * k..2 * k + 2] == f(xs[k])
      {
        if k > 0 {
          assert all[2 * k..2 * k + 2] == tail[2 * (k - 1)..2 * (k - 1) + 2];
          assert xs[1..][k - 1] == xs[k];
        }
      }
    }
  }

  /** Consecutive runs of the scheduled task. */
  function RunRounds(rounds: seq<Round>, encode: UrlEncoder, parseJson: JsonParser): seq<Effect> {
    FlatMap(rounds, r => RunRound(r, encode, parseJson))
  }

  /** Every run contributes exactly one log line followed by one status report, whether it
      succeeds or throws, so the reports alternate and each run's pair sits at 2k, 2k+1. */
  lemma RunRoundsAlternate(rounds: seq<Round>, encode: UrlEncoder, parseJson: JsonParser)
    ensures |RunRounds(rounds, encode, parseJson)| == 2 * |rounds|
    ensures forall k :: 0 <= k < |rounds| ==>
      RunRounds(rounds, encode, parseJson)[2 * k..2 * k + 2] == RunRound(rounds[k], encode, parseJson)
    ensures forall k :: 0 <= k < |rounds| ==>
      RunRounds(rounds, encode, parseJson)[2 * k].LogAppend? &&
      RunRounds(rounds, encode, parseJson)[2 * k + 1].StatusSent? &&
      RunRounds(rounds, encode, parseJson)[2 * k + 1].status.running
  {
    var f := r => RunRound(r, encode, parseJson);
    forall x
      ensures |f(x)| == 2
    {
      assert f(x) == RunRound(x, encode, parseJson);
    }
    FlatMapPairs(rounds, f);
    var all := RunRounds(rounds, encode, parseJson);
    assert all == FlatMap(rounds, f);
    forall k | 0 <= k < |rounds|
      ensures all[2 * k..2 * k + 2] == RunRound(rounds[k], encode, parseJson)
      ensures all[2 * k].LogAppend? && all[2 * k + 1].StatusSent? && all[2 * k + 1].status.running
    {
      var e := RunRound(rounds[k], encode, parseJson);
      assert f(rounds[k]) == e;
      assert all[2 * k..2 * k + 2] == e;
      assert all[2 * k] == e[0];
      assert all[2 * k + 1] == e[1];
    }
  }
}
