/** `NetUtil.buildLoginUrl`: the portal login URL, composed by concatenation against a fixed
    base and a fixed parameter order, and a reader for its query string (section 3.4 of
    RFC 3986) that shows every input lands verbatim under its own key. */
module LoginUrl {
  import opened Wrappers
  import opened Strings
  import opened KotlinText

  const LoginBase := "http://10.10.102.50:801/eportal/portal/login"

  /** What each builder statement appends, one entry per statement in program order (a
      statement with chained `append`s contributes their concatenation). */
  function BuilderLines(accountEncoded: string, passwordEncoded: string, ipv4: string, ipv6Encoded: string): seq<string> {
    [ "?callback=dr1005",
      "&login_method=1",
      "&user_account=%2C0%2C" + accountEncoded + "%40unicom",
      "&user_password=" + passwordEncoded,
      "&wlan_user_ip=" + ipv4,
      "&wlan_user_ipv6=" + ipv6Encoded,
      "&wlan_user_mac=000000000000",
      "&wlan_ac_ip=",
      "&wlan_ac_name=",
      "&jsVersion=4.1.3",
      "&terminal_type=1" ]
  }

  /** The concatenation of `pieces`, in order. */
  function Concat(pieces: seq<string>): string
    decreases |pieces|
  {
    if |pieces| == 0 then "" else pieces[0] + Concat(pieces[1..])
  }

  /** `buildLoginUrl(accountEncoded, passwordEncoded, ipv4, ipv6Encoded)`: the builder starts
      from the base and runs its statements in order. */
  function BuildLoginUrl(accountEncoded: string, passwordEncoded: string, ipv4: string, ipv6Encoded: string): string {
    LoginBase + Concat(BuilderLines(accountEncoded, passwordEncoded, ipv4, ipv6Encoded))
  }

  /** The query keys, in the order the URL carries them, whatever the inputs. */
  const LoginKeys: seq<string> := ["callback", "login_method", "user_account", "user_password",
    "wlan_user_ip", "wlan_user_ipv6", "wlan_user_mac", "wlan_ac_ip", "wlan_ac_name",
    "jsVersion", "terminal_type"]

  /** `user_account`'s value: the account between the pre-encoded ",0," and "@unicom". */
  function AccountValue(accountEncoded: string): string {
    "%2C0%2C" + accountEncoded + "%40unicom"
  }

  /** The value under each of `LoginKeys`. */
  function LoginValues(accountEncoded: string, passwordEncoded: string, ipv4: string, ipv6Encoded: string): (r: seq<string>)
    ensures |r| == |LoginKeys|
  {
    ["dr1005", "1", AccountValue(accountEncoded), passwordEncoded, ipv4, ipv6Encoded,
     "000000000000", "", "", "4.1.3", "1"]
  }

  function Pairs(keys: seq<string>, values: seq<string>): (r: seq<string>)
    requires |keys| == |values|
    ensures |r| == |keys|
    ensures forall i :: 0 <= i < |r| ==> r[i] == keys[i] + "=" + values[i]
  {
    seq(|keys|, i requires 0 <= i < |keys| => keys[i] + "=" + values[i])
  }

  /** Pieces that each put '&' before a pair concatenate to '&' and the pairs joined by '&'. */
  lemma {:induction false} ConcatAmpersands(pieces: seq<string>, pairs: seq<string>)
    requires |pieces| == |pairs| >= 1
    requires forall i :: 0 <= i < |pieces| ==> pieces[i] == "&" + pairs[i]
    ensures Concat(pieces) == "&" + Join(pairs, "&")
    decreases |pieces|
  {
    if |pieces| > 1 {
      ConcatAmpersands(pieces[1..], pairs[1..]);
      assert pieces[0] == "&" + pairs[0];
      assert Concat(pieces[1..]) == "&" + Join(pairs[1..], "&");
    } else {
      assert pieces[1..] == [];
    }
  }

  /** A '?'-prefixed first pair followed by '&'-prefixed pairs concatenate to '?' and the
      pairs joined by '&'. */
  lemma ConcatQuery(pieces: seq<string>, pairs: seq<string>)
    requires |pieces| == |pairs| >= 2
    requires pieces[0] == "?" + pairs[0]
    requires forall i :: 1 <= i < |pieces| ==> pieces[i] == "&" + pairs[i]
    ensures Concat(pieces) == "?" + Join(pairs, "&")
  {
    var tail, tailPairs := pieces[1..], pairs[1..];
    assert forall i :: 0 <= i < |tail| ==> tail[i] == "&" + tailPairs[i] by {
      forall i | 0 <= i < |tail|
        ensures tail[i] == "&" + tailPairs[i]
      {
        assert tail[i] == pieces[i + 1] && tailPairs[i] == pairs[i + 1];
      }
    }
    ConcatAmpersands(tail, tailPairs);
    var joined := Join(tailPairs, "&");
    assert Concat(pieces) == ("?" + pairs[0]) + ("&" + joined);
    assert Join(pairs, "&") == (pairs[0] + "&") + joined;
    Regroup("?", pairs[0], "&", joined);
  }

  lemma Regroup(a: string, b: string, c: string, d: string)
    ensures (a + b) + (c + d) == a + ((b + c) + d)
  {
  }

  // LinesMatchPairsA..E state the same fact for the ten '&'-prefixed builder statements,
  // two at a time: each group unfolds the long builder literal only as far as its own
  // indices, which keeps every proof small where one lemma over all ten is costly.

  /** Statements 1-2 append '&' and their pair. */
  lemma LinesMatchPairsA(accountEncoded: string, passwordEncoded: string, ipv4: string, ipv6Encoded: string)
    ensures
      var c := BuilderLines(accountEncoded, passwordEncoded, ipv4, ipv6Encoded);
      var v := LoginValues(accountEncoded, passwordEncoded, ipv4, ipv6Encoded);
      forall i :: 1 <= i < 3 ==> c[i] == "&" + (LoginKeys[i] + "=" + v[i])
  {
    var c := BuilderLines(accountEncoded, passwordEncoded, ipv4, ipv6Encoded);
    var v := LoginValues(accountEncoded, passwordEncoded, ipv4, ipv6Encoded);
    assert c[1] == "&" + (LoginKeys[1] + "=" + v[1]);
    assert c[2] == "&" + (LoginKeys[2] + "=" + v[2]);
  }

  /** Statements 3-4 append '&' and their pair. */
  lemma LinesMatchPairsB(accountEncoded: string, passwordEncoded: string, ipv4: string, ipv6Encoded: string)
    ensures
      var c := BuilderLines(accountEncoded, passwordEncoded, ipv4, ipv6Encoded);
      var v := LoginValues(accountEncoded, passwordEncoded, ipv4, ipv6Encoded);
      forall i :: 3 <= i < 5 ==> c[i] == "&" + (LoginKeys[i] + "=" + v[i])
  {
    var c := BuilderLines(accountEncoded, passwordEncoded, ipv4, ipv6Encoded);
    var v := LoginValues(accountEncoded, passwordEncoded, ipv4, ipv6Encoded);
    assert c[3] == "&" + (LoginKeys[3] + "=" + v[3]);
    assert c[4] == "&" + (LoginKeys[4] + "=" + v[4]);
  }

  /** Statements 5-6 append '&' and their pair. */
  lemma LinesMatchPairsC(accountEncoded: string, passwordEncoded: string, ipv4: string, ipv6Encoded: string)
    ensures
      var c := BuilderLines(accountEncoded, passwordEncoded, ipv4, ipv6Encoded);
      var v := LoginValues(accountEncoded, passwordEncoded, ipv4, ipv6Encoded);
      forall i :: 5 <= i < 7 ==> c[i] == "&" + (LoginKeys[i] + "=" + v[i])
  {
    var c := BuilderLines(accountEncoded, passwordEncoded, ipv4, ipv6Encoded);
    var v := LoginValues(accountEncoded, passwordEncoded, ipv4, ipv6Encoded);
    assert c[5] == "&" + (LoginKeys[5] + "=" + v[5]);
    assert c[6] == "&" + (LoginKeys[6] + "=" + v[6]);
  }

  /** Statements 7-8 append '&' and their pair. */
  lemma LinesMatchPairsD(accountEncoded: string, passwordEncoded: string, ipv4: string, ipv6Encoded: string)
    ensures
      var c := BuilderLines(accountEncoded, passwordEncoded, ipv4, ipv6Encoded);
      var v := LoginValues(accountEncoded, passwordEncoded, ipv4, ipv6Encoded);
      forall i :: 7 <= i < 9 ==> c[i] == "&" + (LoginKeys[i] + "=" + v[i])
  {
    var c := BuilderLines(accountEncoded, passwordEncoded, ipv4, ipv6Encoded);
    var v := LoginValues(accountEncoded, passwordEncoded, ipv4, ipv6Encoded);
    assert c[7] == "&" + (LoginKeys[7] + "=" + v[7]);
    assert c[8] == "&" + (LoginKeys[8] + "=" + v[8]);
  }

  /** Statements 9-10 append '&' and their pair. */
  lemma LinesMatchPairsE(accountEncoded: string, passwordEncoded: string, ipv4: string, ipv6Encoded: string)
    ensures
      var c := BuilderLines(accountEncoded, passwordEncoded, ipv4, ipv6Encoded);
      var v := LoginValues(accountEncoded, passwordEncoded, ipv4, ipv6Encoded);
      forall i :: 9 <= i < 11 ==> c[i] == "&" + (LoginKeys[i] + "=" + v[i])
  {
    var c := BuilderLines(accountEncoded, passwordEncoded, ipv4, ipv6Encoded);
    var v := LoginValues(accountEncoded, passwordEncoded, ipv4, ipv6Encoded);
    assert c[9] == "&" + (LoginKeys[9] + "=" + v[9]);
    assert c[10] == "&" + (LoginKeys[10] + "=" + v[10]);
  }

  /** The URL is the base, '?', and the key=value pairs joined with '&', so every key is
      present, in the fixed order, whatever the inputs. */
  lemma BuildLoginUrlLayout(accountEncoded: string, passwordEncoded: string, ipv4: string, ipv6Encoded: string)
    ensures BuildLoginUrl(accountEncoded, passwordEncoded, ipv4, ipv6Encoded) ==
      LoginBase + "?" + Join(Pairs(LoginKeys, LoginValues(accountEncoded, passwordEncoded, ipv4, ipv6Encoded)), "&")
  {
    var c := BuilderLines(accountEncoded, passwordEncoded, ipv4, ipv6Encoded);
    var p := Pairs(LoginKeys, LoginValues(accountEncoded, passwordEncoded, ipv4, ipv6Encoded));
    LinesMatchPairsA(accountEncoded, passwordEncoded, ipv4, ipv6Encoded);
    LinesMatchPairsB(accountEncoded, passwordEncoded, ipv4, ipv6Encoded);
    LinesMatchPairsC(accountEncoded, passwordEncoded, ipv4, ipv6Encoded);
    LinesMatchPairsD(accountEncoded, passwordEncoded, ipv4, ipv6Encoded);
    LinesMatchPairsE(accountEncoded, passwordEncoded, ipv4, ipv6Encoded);
    assert c[0] == "?" + p[0];
    ConcatQuery(c, p);
  }

  // ---------------------------------------------------------------- reading a URL back

  /** A query parameter split at its first '='. */
  function SplitParam(p: string): (string, string) {
    var k := IndexOf(p, '=');
    if k < 0 then (p, "") else (p[..k], p[k + 1..])
  }

  /** The (key, value) pairs of a login URL's query, or None for a URL with another base. */
  function ParseQuery(url: string): Option<seq<(string, string)>> {
    var prefix := LoginBase + "?";
    if !IsPrefix(prefix, url) then None
    else
      var parts := Split(url[|prefix|..], '&');
      Some(seq(|parts|, i requires 0 <= i < |parts| => SplitParam(parts[i])))
  }

  /** The value of the first parameter named `key`. */
  function Lookup(params: seq<(string, string)>, key: string): Option<string>
    decreases |params|
  {
    if |params| == 0 then None
    else if params[0].0 == key then Some(params[0].1)
    else Lookup(params[1..], key)
  }

  function QueryParam(url: string, key: string): Option<string> {
    match ParseQuery(url)
    case Some(ps) => Lookup(ps, key)
    case None => None
  }

  function Zip(keys: seq<string>, values: seq<string>): (r: seq<(string, string)>)
    requires |keys| == |values|
    ensures |r| == |keys|
  {
    seq(|keys|, i requires 0 <= i < |keys| => (keys[i], values[i]))
  }

  lemma SplitParamOf(key: string, value: string)
    requires '=' !in key
    ensures SplitParam(key + "=" + value) == (key, value)
  {
    var p := key + "=" + value;
    var k := IndexOf(p, '=');
    assert p[|key|] == '=';
    assert p[..|key|] == key;
    assert p[|key| + 1..] == value;
  }

  lemma {:induction false} LookupDistinct(keys: seq<string>, values: seq<string>, i: int)
    requires |keys| == |values| && 0 <= i < |keys|
    requires forall j :: 0 <= j < i ==> keys[j] != keys[i]
    ensures Lookup(Zip(keys, values), keys[i]) == Some(values[i])
    decreases i
  {
    var z := Zip(keys, values);
    if i > 0 {
      assert z[1..] == Zip(keys[1..], values[1..]);
      LookupDistinct(keys[1..], values[1..], i - 1);
    }
  }

  predicate NoAmpersand(s: string) {
    '&' !in s
  }

  lemma LoginKeysShape()
    ensures forall i :: 0 <= i < |LoginKeys| ==> '=' !in LoginKeys[i] && '&' !in LoginKeys[i]
    ensures forall i, j :: 0 <= j < i < |LoginKeys| ==> LoginKeys[j] != LoginKeys[i]
  {
  }

  /** When no input contains '&', reading the query back yields exactly the eleven keys in
      their fixed order, each with its value verbatim: the URL never omits, reorders or
      alters a parameter. */
  lemma ParseQueryRoundTrip(accountEncoded: string, passwordEncoded: string, ipv4: string, ipv6Encoded: string)
    requires NoAmpersand(accountEncoded) && NoAmpersand(passwordEncoded)
    requires NoAmpersand(ipv4) && NoAmpersand(ipv6Encoded)
    ensures ParseQuery(BuildLoginUrl(accountEncoded, passwordEncoded, ipv4, ipv6Encoded)) ==
      Some(Zip(LoginKeys, LoginValues(accountEncoded, passwordEncoded, ipv4, ipv6Encoded)))
  {
    var values := LoginValues(accountEncoded, passwordEncoded, ipv4, ipv6Encoded);
    var p := Pairs(LoginKeys, values);
    var url := BuildLoginUrl(accountEncoded, passwordEncoded, ipv4, ipv6Encoded);
    var prefix := LoginBase + "?";
    BuildLoginUrlLayout(accountEncoded, passwordEncoded, ipv4, ipv6Encoded);
    LoginKeysShape();
    assert '&' !in AccountValue(accountEncoded);
    forall i | 0 <= i < |p|
      ensures '&' !in p[i] && SplitParam(p[i]) == (LoginKeys[i], values[i])
    {
      assert '&' !in values[i];
      SplitParamOf(LoginKeys[i], values[i]);
    }
    SplitJoin(p, '&');
    assert url == prefix + Join(p, "&");
    assert IsPrefix(prefix, url);
    assert url[|prefix|..] == Join(p, "&");
    var parts := Split(url[|prefix|..], '&');
    assert parts == p;
    var z := seq(|parts|, i requires 0 <= i < |parts| => SplitParam(parts[i]));
    assert z == Zip(LoginKeys, values);
  }

  /** Each input can be read back from the URL under its key (empty values included). */
  lemma QueryParamsOfLoginUrl(accountEncoded: string, passwordEncoded: string, ipv4: string, ipv6Encoded: string)
    requires NoAmpersand(accountEncoded) && NoAmpersand(passwordEncoded)
    requires NoAmpersand(ipv4) && NoAmpersand(ipv6Encoded)
    ensures QueryParam(BuildLoginUrl(accountEncoded, passwordEncoded, ipv4, ipv6Encoded), "user_account") ==
      Some("%2C0%2C" + accountEncoded + "%40unicom")
    ensures QueryParam(BuildLoginUrl(accountEncoded, passwordEncoded, ipv4, ipv6Encoded), "user_password") ==
      Some(passwordEncoded)
    ensures QueryParam(BuildLoginUrl(accountEncoded, passwordEncoded, ipv4, ipv6Encoded), "wlan_user_ip") ==
      Some(ipv4)
    ensures QueryParam(BuildLoginUrl(accountEncoded, passwordEncoded, ipv4, ipv6Encoded), "wlan_user_ipv6") ==
      Some(ipv6Encoded)
  {
    var values := LoginValues(accountEncoded, passwordEncoded, ipv4, ipv6Encoded);
    ParseQueryRoundTrip(accountEncoded, passwordEncoded, ipv4, ipv6Encoded);
    LoginKeysShape();
    LookupDistinct(LoginKeys, values, 2);
    LookupDistinct(LoginKeys, values, 3);
    LookupDistinct(LoginKeys, values, 4);
    LookupDistinct(LoginKeys, values, 5);
  }
}
