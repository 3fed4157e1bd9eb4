# AutoAuth campus-portal login, modelled in Dafny

AutoAuth is an Android app that keeps a phone logged in to a campus network. Every ten
seconds a background service builds the portal's login URL and sends a GET request to it.
The URL carries the account, the password, and the phone's current IPv4 and IPv6
addresses. The service then summarises the portal's reply, writes one line to a rotating
log file, and broadcasts a status.

This project models that core as pure functions over immutable data:

- `AddressSelector` covers `NetUtil.getIPv4Address` and `NetUtil.selectIPv6Address`. They
  scan a list of network interfaces, and each address is a Java byte array (`Inet`).
- `IPv6Url` covers `NetUtil.formatIPv6ForURL`. It also has a decoder that reads the
  16 bytes back.
- `LoginUrl` covers `NetUtil.buildLoginUrl`. It also has a query-string reader (section
  3.4 of RFC 3986) that reads each parameter back.
- `PortalResponse` covers `AuthService.parsePortalSummary` and the result line of
  `performGet`.
- `AuthCycle` covers the address resolution in `AuthService.buildUrl` and one run of the
  scheduled task. A run yields its two effects: one log append and one status broadcast.
- `LogUtil` covers `append` with its 1 MB rotation, and `readLatest`/`readAll` with their
  byte window, line limit and error messages. Appended text is encoded as UTF-8 (`Utf8`,
  RFC 3629).
- The supporting modules model the Kotlin and Java library behaviour the code relies on:
  - `Strings`, `KotlinText` and `Decimal` cover `lines()`, `indexOf`, `lastIndexOf`,
    `contains(ignoreCase = true)`, `take`, `takeLast` and integer formatting.
  - `Inet` covers `Inet4Address.getHostAddress` and the IPv6 address classes.

Some parts cannot be seen from this code and enter as parameters:
- the network interfaces;
- the HTTP exchange;
- the JSON parser;
- `URLEncoder.encode`;
- the UTF-8 decoder of the log reader;
- the timestamp.

## Model

| member | source | states |
|---|---|---|
| AddressSelector.GetIPv4AddressSpec | app/src/main/java/com/example/autoauth/NetUtil.kt:6-22 | null exactly when no interface that is up and not loopback carries a non-loopback IPv4 address; otherwise the dotted quad of the first such address in enumeration order |
| AddressSelector.FindIPv4Flat | app/src/main/java/com/example/autoauth/NetUtil.kt:9-19 | the nested interface/address loop with early return equals a first-match search over the flattened list of eligible addresses |
| AddressSelector.SelectIPv6AddressSpec | app/src/main/java/com/example/autoauth/NetUtil.kt:24-48 | returns the first non-link-local candidate (not loopback, any-local or multicast) if one exists, even when a link-local candidate comes earlier; otherwise the first link-local candidate; null exactly when there is neither |
| AddressSelector.ScanIPv6Flat | app/src/main/java/com/example/autoauth/NetUtil.kt:28-45 | the nested scan, with its link-local fallback carried across interfaces, equals one scan over the flattened eligible addresses |
| Inet.HostAddressRoundTrip | app/src/main/java/com/example/autoauth/NetUtil.kt:16 | the host-address text of an IPv4 address parses back to the same four bytes, signed Java bytes included |
| IPv6Url.FormatIPv6ForUrl | app/src/main/java/com/example/autoauth/NetUtil.kt:50-63 | "" for a null address or one that is not 16 bytes long; otherwise 53 characters: eight 4-digit lowercase hex groups, one per byte pair and read unsigned, separated by "%3A", with no ':' anywhere |
| IPv6Url.FormatRoundTrip | app/src/main/java/com/example/autoauth/NetUtil.kt:54-62 | decoding the encoded text gives back the 16 address bytes |
| IPv6Url.FormatInjective | app/src/main/java/com/example/autoauth/NetUtil.kt:54-62 | two different addresses never give the same URL text |
| IPv6Url.FormatAvoids | app/src/main/java/com/example/autoauth/NetUtil.kt:59-62 | the text contains only lowercase hex digits and the characters of "%3A", so it never contains '&' or '=' |
| LoginUrl.BuildLoginUrlLayout | app/src/main/java/com/example/autoauth/NetUtil.kt:65-85 | the URL is the fixed base, then '?', then the eleven key=value pairs joined with '&', in a fixed key order, whatever the inputs |
| LoginUrl.ParseQueryRoundTrip | app/src/main/java/com/example/autoauth/NetUtil.kt:71-84 | when no input contains '&', reading the query string back gives exactly the eleven keys in order, each with its value unchanged |
| LoginUrl.QueryParamsOfLoginUrl | app/src/main/java/com/example/autoauth/NetUtil.kt:75-78 | the account (wrapped in "%2C0%2C" and "%40unicom"), the password, the IPv4 text and the encoded IPv6 text can each be read back under their own keys |
| LoginUrl.ConcatQuery | app/src/main/java/com/example/autoauth/NetUtil.kt:72-84 | a '?'-prefixed first pair followed by '&'-prefixed pairs builds '?' plus the pairs joined with '&' |
| LoginUrl.ConcatAmpersands | app/src/main/java/com/example/autoauth/NetUtil.kt:74-83 | appending "&"-prefixed pieces one after another gives the pieces joined with '&' |
| PortalResponse.ComposeSummary | app/src/main/java/com/example/autoauth/AuthService.kt:190-196 | empty exactly when both result and msg are empty; otherwise "result=…" and/or "msg=…", with ", " between them only when both are present |
| PortalResponse.ComposeIsJoinOfClauses | app/src/main/java/com/example/autoauth/AuthService.kt:190-196 | the composed summary is its non-empty clauses joined with ", " |
| PortalResponse.HeuristicVerdicts | app/src/main/java/com/example/autoauth/AuthService.kt:199-205 | each verdict holds exactly when its keyword matches case-insensitively and no earlier keyword does: success, then ok, then error or fail, else "" |
| PortalResponse.HeuristicIsFirstMatch | app/src/main/java/com/example/autoauth/AuthService.kt:199-205 | the `when` block is a first-match search over an ordered table of (keywords, verdict) rules |
| PortalResponse.SuccessOutranksFailure | app/src/main/java/com/example/autoauth/AuthService.kt:200-203 | a body that mentions both "success" and "fail" is reported as a success |
| PortalResponse.HeuristicIgnoresCase | app/src/main/java/com/example/autoauth/AuthService.kt:200-203 | upper-casing the ASCII letters of a body does not change the verdict |
| PortalResponse.ParsePortalSummary | app/src/main/java/com/example/autoauth/AuthService.kt:180-181 | a blank body gives "" |
| PortalResponse.BraceWindow | app/src/main/java/com/example/autoauth/AuthService.kt:182-185 | a JSON candidate exists exactly when the first '{' comes before the last '}' |
| PortalResponse.BracedTextOf | app/src/main/java/com/example/autoauth/AuthService.kt:182-185 | the candidate runs from the first '{' to the last '}', both included |
| PortalResponse.StructuredBranch | app/src/main/java/com/example/autoauth/AuthService.kt:184-196 | when the candidate parses, the summary comes from the object's result/ret_code and msg/message, even when that summary is empty |
| PortalResponse.NoBracePairBranch | app/src/main/java/com/example/autoauth/AuthService.kt:184-205 | without a '{' before a '}', the keyword heuristic decides |
| PortalResponse.UnparsableBranch | app/src/main/java/com/example/autoauth/AuthService.kt:186-205 | when the candidate does not parse, the keyword heuristic decides |
| PortalResponse.JsonpReply | app/src/main/java/com/example/autoauth/AuthService.kt:182-196 | a JSONP reply "dr1005({...})", the callback the login URL asks for, is summarised from the object inside it |
| PortalResponse.JsonpOkReply | app/src/main/java/com/example/autoauth/AuthService.kt:182-196 | example: the reply dr1005({"result":"1","msg":"ok"}) is summarised as "result=1, msg=ok" |
| PortalResponse.PlainTextExample | app/src/main/java/com/example/autoauth/AuthService.kt:180-200 | example: the body "plain text success here" has no JSON candidate and is reported as a successful login |
| PortalResponse.EmptyObjectExample | app/src/main/java/com/example/autoauth/AuthService.kt:184-196 | example: an object with none of the four keys gives "", even when the body says "success" |
| PortalResponse.PerformGetRoundTrip | app/src/main/java/com/example/autoauth/AuthService.kt:154-172 | the result line can be read back into exactly what happened: the status code and the summary, or the exception message ("null" when there is none) |
| PortalResponse.UnreadStreamIgnored | app/src/main/java/com/example/autoauth/AuthService.kt:163-166 | only one stream is read: for a 2xx code the error stream cannot change the result, and for any other code the success stream cannot |
| PortalResponse.HttpLineRoundTrip | app/src/main/java/com/example/autoauth/AuthService.kt:168 | "HTTP <code>", with " \| <summary>" only for a non-empty summary, reads back as the code and the summary |
| PortalResponse.FailedLineRoundTrip | app/src/main/java/com/example/autoauth/AuthService.kt:169-170 | a request-failure line reads back as its message |
| PortalResponse.FailureIsDistinguishable | app/src/main/java/com/example/autoauth/AuthService.kt:154-172 | a line starts with the request-failure prefix exactly when the request threw |
| AuthCycle.ResolveIPv4 | app/src/main/java/com/example/autoauth/AuthService.kt:137-141 | a non-null IPv4 setting is used verbatim, even when empty; a null one falls back to the first detected address's dotted quad, or "" when none is found |
| AuthCycle.ResolveIPv6Encoded | app/src/main/java/com/example/autoauth/AuthService.kt:143-147 | a non-null IPv6 setting is URL-encoded, or kept raw if encoding throws; a null one gives "" when no address is selected, otherwise 53 characters that decode back to the selected address |
| AuthCycle.AutoDetectedAddressesInUrl | app/src/main/java/com/example/autoauth/AuthService.kt:137-151 | when both address settings are null, the URL's wlan_user_ip is the detected IPv4 address (or "") and its wlan_user_ipv6 is the encoded selected IPv6 address |
| AuthCycle.OverridesInUrl | app/src/main/java/com/example/autoauth/AuthService.kt:137-151 | non-null address settings reach the URL unchanged, the IPv6 one after encoding, whatever the interfaces hold |
| AuthCycle.SettingsInUrl | app/src/main/java/com/example/autoauth/AuthService.kt:137-151 | each address parameter follows its own setting whatever the other one is: a non-null IPv4 override is wlan_user_ip unchanged and a null one gives the detected address (or ""); a non-null IPv6 override is wlan_user_ipv6 after encoding and a null one gives the URL form of the selected address; user_password reads back encoded |
| AuthCycle.EmptyIPv4WithDetectedIPv6 | app/src/main/java/com/example/autoauth/AuthService.kt:137-151 | an emptied IPv4 field with a null IPv6 setting sends an empty wlan_user_ip while wlan_user_ipv6 carries the detected address |
| AuthCycle.PreferencesIgnoreInterfaces | app/src/main/java/com/example/autoauth/AuthService.kt:99-147 | settings read with `getString(key, "")` never take the detection branches, so the URL is the same whatever the interfaces carry |
| AuthCycle.UnsavedAddressesStayEmpty | app/src/main/java/com/example/autoauth/AuthService.kt:99-151 | with the two address keys never saved, wlan_user_ip is empty and wlan_user_ipv6 is the encoding of "", whatever addresses the device has |
| AuthCycle.Excerpt | app/src/main/java/com/example/autoauth/AuthService.kt:76 | the logged excerpt takes min(120, length) UTF-16 code units of the result, with each '\n' replaced by a space; a surrogate pair cut in half ends it with '?' |
| KotlinText.Take | app/src/main/java/com/example/autoauth/AuthService.kt:76 | `take(n)` keeps min(n, length) UTF-16 code units: whole characters, then '?' for a surrogate pair cut in half |
| AuthCycle.StatusSummary | app/src/main/java/com/example/autoauth/AuthService.kt:77 | the broadcast summary is a prefix of the result with no line break, ending at the end of the result or just before a '\n' or '\r' |
| AuthCycle.RunRound | app/src/main/java/com/example/autoauth/AuthService.kt:73-81 | each run appends one log line, then sends one status marked running; the status has no URL exactly when the scheduled task threw |
| AuthCycle.ShortResultReported | app/src/main/java/com/example/autoauth/AuthService.kt:74-77 | a result of at most 120 UTF-16 code units with no line break is logged unchanged, and the broadcast summary reads back as the HTTP outcome |
| AuthCycle.LogLineTellsOutcome | app/src/main/java/com/example/autoauth/AuthService.kt:76-79 | the log line starts with the network label exactly when the run went through, and with the task-failure label exactly when it threw |
| AuthCycle.RanReadBack | app/src/main/java/com/example/autoauth/AuthService.kt:73-77 | a run that went through broadcasts its network status and the URL it requested; that URL reads back to the encoded password and the resolved IPv4 and IPv6 addresses, and the log line begins with the network status |
| AuthCycle.ThrewReadBack | app/src/main/java/com/example/autoauth/AuthService.kt:78-80 | a run that threw logs the exception message after the failure label ("null" when it has none) and broadcasts the failure marker, the message ("" when it has none) and no URL |
| AuthCycle.FlatMapPairs | app/src/main/java/com/example/autoauth/AuthService.kt:72-82 | repeating a step that yields two effects gives effects in pairs: pair k is run k's output |
| AuthCycle.RunRoundsAlternate | app/src/main/java/com/example/autoauth/AuthService.kt:72-82 | over any number of runs, log appends and running statuses alternate, one pair per run and in order |
| Utf8.DecodeEncode | app/src/main/java/com/example/autoauth/LogUtil.kt:29 | UTF-8 decoding of the encoded record gives the text back |
| Utf8.EncodeInjective | app/src/main/java/com/example/autoauth/LogUtil.kt:29 | different texts are written as different bytes |
| LogUtil.AppendBytes | app/src/main/java/com/example/autoauth/LogUtil.kt:21-29 | writing a record rotates a log over 1,000,000 bytes into the backup and starts a new log with just the record; otherwise it appends to the log, creating it if missing, and leaves the backup alone |
| LogUtil.Append | app/src/main/java/com/example/autoauth/LogUtil.kt:17-35 | a log over 1,000,000 bytes becomes the backup, replacing the old backup, and a new log holds just the record; otherwise the record is appended and the backup is untouched; the log never exceeds 1,000,000 bytes plus one record |
| LogUtil.AppendLosesOnlyBackup | app/src/main/java/com/example/autoauth/LogUtil.kt:23-29 | without rotation the two files together gain exactly the record; with rotation exactly the old backup is lost |
| LogUtil.AppendKeepsRecent | app/src/main/java/com/example/autoauth/LogUtil.kt:23-29 | after one append the two files hold a suffix of the old contents followed by the new record |
| LogUtil.AppendChunksKeepsRecent | app/src/main/java/com/example/autoauth/LogUtil.kt:23-29 | after any number of writes the two files hold a suffix of everything ever written: only the oldest bytes are lost |
| LogUtil.AppendChunksEndsWithLast | app/src/main/java/com/example/autoauth/LogUtil.kt:23-29 | the newest write always ends the log |
| LogUtil.AppendAllKeepsRecent | app/src/main/java/com/example/autoauth/LogUtil.kt:17-35 | after `append` is called for any sequence of lines, the files hold a suffix of all the UTF-8 records and the newest record ends the log |
| LogUtil.Window | app/src/main/java/com/example/autoauth/LogUtil.kt:45-50 | the bytes read are the last min(length, maxBytes) bytes of the log |
| LogUtil.ReadLatest | app/src/main/java/com/example/autoauth/LogUtil.kt:41-58 | "(无日志)" when the log is missing; a negative byte limit fails with the array-size error message |
| LogUtil.ZeroLinesShowsEmpty | app/src/main/java/com/example/autoauth/LogUtil.kt:53-54 | a line limit of zero shows the empty text, because the text always splits into at least one line and none of them is kept |
| LogUtil.NegativeLinesFails | app/src/main/java/com/example/autoauth/LogUtil.kt:53-56 | a negative line limit fails with the read-failure prefix and the message that the requested element count is less than zero |
| LogUtil.ReadIgnoresBackup | app/src/main/java/com/example/autoauth/LogUtil.kt:41-58 | what the reader shows does not depend on the rotated backup file |
| LogUtil.AppendPreservesReachable | app/src/main/java/com/example/autoauth/LogUtil.kt:23-29 | appends keep the invariant that a backup exists only next to a live log and holds more than 1,000,000 bytes |
| LogUtil.LastLinesAreLast | app/src/main/java/com/example/autoauth/LogUtil.kt:53-54 | with a line limit n of at least one, exactly the last n lines remain when the text has more, and text within the limit is shown whole |
| LogUtil.LastLinesIsSuffix | app/src/main/java/com/example/autoauth/LogUtil.kt:53-54 | for text without '\r', the lines kept are a suffix of the text |
| LogUtil.ReadLatestShowsLastLines | app/src/main/java/com/example/autoauth/LogUtil.kt:41-58 | with a log present, the reader shows exactly the last maxLines lines of the byte window's text when it has more, and the whole text otherwise |
| LogUtil.ReadAllShowsRecent | app/src/main/java/com/example/autoauth/LogUtil.kt:37-39 | readAll shows exactly the last 800 lines of the last 128 KiB of the log when that window has more, and the whole window otherwise |
| LogUtil.StrictDecoderIsFaithful | app/src/main/java/com/example/autoauth/LogUtil.kt:52 | a strict UTF-8 decoder reads back any text the writer encoded |
| LogUtil.ReadAfterAppend | app/src/main/java/com/example/autoauth/LogUtil.kt:17-58 | when the log fits in the window, the window's text is the previous text plus the new record, or only the record after a rotation |

## Left out

- Android glue is left out: the service lifecycle, notifications, broadcasts to the UI,
  and the boot receiver. The preferences are a map from keys to strings.
- A preference stored with a non-string type is left out. `getString` would throw a
  `ClassCastException` there.
- The address auto-detection at AuthService.kt lines 137-147 cannot be reached in the
  shipped program. `getString(key, "")` never returns null, because `putString(key, null)`
  removes the key. The settings screen saves only the account and the password, so both
  addresses read as "". The model keeps the null branches, and `PreferencesIgnoreInterfaces`
  and `UnsavedAddressesStayEmpty` state what the preferences actually yield.
- Real I/O is left out: the HTTP connection, its timeouts, the file system, the clock and
  `SimpleDateFormat`. The model takes each as a parameter: the exchange, the files' bytes
  and the timestamp text.
- `checkNetwork` is left out. Its reachability probe is network I/O, so its verdict is an
  input of the cycle.
- The ten-second schedule and its thread are left out. The model has a sequence of runs.
- The JSON grammar of `org.json.JSONObject` is left out. The parser is a parameter that
  returns the object's string fields.
- JSON null values are left out. On Android, `optString` returns the text "null" for a
  JSON null, so a parser standing in for Android's `org.json` gives such a key the value
  "null" and the summary reads "result=null".
- `URLEncoder.encode` is left out. It is a parameter that may fail.
- The UTF-8 decoder of `readLatest` is left out. It is a parameter, because a window that
  cuts a character in half is decoded with replacement characters.
- Lone surrogate characters are left out. Dafny characters are Unicode scalar values, so
  the high surrogate that `take(120)` leaves when it cuts a pair in half is modelled as
  the '?' the UTF-8 log writer turns it into.
- Exceptions thrown in the middle of an interface scan are left out. Only an enumeration
  that is null or throws at the start is modelled, as an empty list.
- The `"wlan0"` argument at AuthService.kt lines 110, 118, 138 and 144 is left out.
  NetUtil's functions take no argument, so the model calls them without one.
- The first address resolution, at AuthService.kt lines 105-119, is left out. It computes
  values that are never used, and lines 137-147 repeat it.
- AuthCycle.RunRound: assumes that sending the status does not throw. If it did, the
  catch block would write a second log line.
- LogUtil.ReadLatest: the message of the negative-size exception is taken as the decimal
  size, as the JVM prints it.
- File-system failures are left out: a failed rename or delete during rotation, and
  concurrent writers. Each would make `append` silently drop the line or keep the old
  backup.
- LogUtil.Window: sizes are unbounded integers. The source's `Long` length and its
  `(len - start).toInt()` never wrap here, because the window is at most `maxBytes`, an
  `Int`.
