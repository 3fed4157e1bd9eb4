/** `AuthService.parsePortalSummary` and the result text of `performGet`: how a portal
    response becomes the one-line summary the service logs and broadcasts. The JSON parser
    (`org.json.JSONObject`) and the HTTP exchange are inputs. */
module PortalResponse {
  import opened Wrappers
  import opened Strings
  import opened KotlinText
  import opened Decimal

  /** A parsed JSON object as `optString` sees it: the string form of every member whose
      value is not JSON null. */
  type JsonObject = map<string, string>

  /** `org.json.JSONObject(text)`: the object, or None when the constructor throws. */
  type JsonParser = string -> Option<JsonObject>

  const LoginSucceeded := "\U{767B}\U{5F55}\U{6210}\U{529F}"
  const LoginProbablySucceeded := "\U{767B}\U{5F55}\U{6210}\U{529F}(\U{53EF}\U{80FD})"
  const LoginFailed := "\U{767B}\U{5F55}\U{5931}\U{8D25}"

  /** `obj.optString(key, fallback)`. */
  function OptString(obj: JsonObject, key: string, fallback: string): (r: string)
    ensures key in obj ==> r == obj[key]
    ensures key !in obj ==> r == fallback
  {
    if key in obj then obj[key] else fallback
  }

  /** `obj.optString("result", obj.optString("ret_code"))`. */
  function ResultValue(obj: JsonObject): string {
    OptString(obj, "result", OptString(obj, "ret_code", ""))
  }

  /** `obj.optString("msg", obj.optString("message"))`. */
  function MsgValue(obj: JsonObject): string {
    OptString(obj, "msg", OptString(obj, "message", ""))
  }

  /** The `buildString` block: the "result=" clause when `result` is non-empty, then the
      "msg=" clause when `msg` is non-empty, with ", " only between two clauses. */
  function ComposeSummary(result: string, msg: string): (r: string)
    ensures r == "" <==> result == "" && msg == ""
    ensures result != "" && msg == "" ==> r == "result=" + result
    ensures result == "" && msg != "" ==> r == "msg=" + msg
    ensures result != "" && msg != "" ==> r == "result=" + result + ", " + "msg=" + msg
  {
    var sb := if result != "" then "result=" + result else "";
    if msg != "" then
      var sep := if sb != "" then sb + ", " else sb;
      sep + "msg=" + msg
    else sb
  }

  /** The clauses that are present, in order. */
  function Clauses(result: string, msg: string): seq<string> {
    (if result != "" then ["result=" + result] else []) + (if msg != "" then ["msg=" + msg] else [])
  }

  /** The summary is the present clauses joined with ", ". */
  lemma ComposeIsJoinOfClauses(result: string, msg: string)
    ensures ComposeSummary(result, msg) == Join(Clauses(result, msg), ", ")
  {
    var cs := Clauses(result, msg);
    if result != "" && msg != "" {
      assert cs[1..] == ["msg=" + msg];
    }
  }

  /** The `when` block: keyword tests, ignoring case, in priority order. */
  function Heuristic(body: string): string {
    if ContainsIgnoreCase(body, "success") then LoginSucceeded
    else if ContainsIgnoreCase(body, "ok") then LoginProbablySucceeded
    else if ContainsIgnoreCase(body, "error") then LoginFailed
    else if ContainsIgnoreCase(body, "fail") then LoginFailed
    else ""
  }

  /** Each verdict, read back as the keywords that earn it: the verdicts are distinct, so
      the summary tells exactly which priority level matched. */
  lemma HeuristicVerdicts(body: string)
    ensures Heuristic(body) == LoginSucceeded <==> ContainsIgnoreCase(body, "success")
    ensures Heuristic(body) == LoginProbablySucceeded <==>
      !ContainsIgnoreCase(body, "success") && ContainsIgnoreCase(body, "ok")
    ensures Heuristic(body) == LoginFailed <==>
      !ContainsIgnoreCase(body, "success") && !ContainsIgnoreCase(body, "ok") &&
      (ContainsIgnoreCase(body, "error") || ContainsIgnoreCase(body, "fail"))
    ensures Heuristic(body) == "" <==>
      !ContainsIgnoreCase(body, "success") && !ContainsIgnoreCase(body, "ok") &&
      !ContainsIgnoreCase(body, "error") && !ContainsIgnoreCase(body, "fail")
  {
  }

  /** A rule: the summary a body earns when it contains any of the keywords. */
  datatype Rule = Rule(keywords: seq<string>, verdict: string)

  const Rules: seq<Rule> := [
    Rule(["success"], LoginSucceeded),
    Rule(["ok"], LoginProbablySucceeded),
    Rule(["error", "fail"], LoginFailed)]

  predicate AllAscii(ks: seq<string>) {
    forall k :: 0 <= k < |ks| ==> IsAscii(ks[k])
  }

  predicate MatchesAny(body: string, ks: seq<string>)
    requires AllAscii(ks)
  {
    exists k :: 0 <= k < |ks| && ContainsIgnoreCase(body, ks[k])
  }

  /** The verdict of the first rule that matches, or "" when none does. */
  function FirstMatch(rules: seq<Rule>, body: string): string
    requires forall i :: 0 <= i < |rules| ==> AllAscii(rules[i].keywords)
    decreases |rules|
  {
    if |rules| == 0 then ""
    else if MatchesAny(body, rules[0].keywords) then rules[0].verdict
    else FirstMatch(rules[1..], body)
  }

  /** The keyword heuristic is the first-match rule table. */
  lemma HeuristicIsFirstMatch(body: string)
    ensures Heuristic(body) == FirstMatch(Rules, body)
  {
    var r := Rules;
    assert r[0].keywords == ["success"] && r[1].keywords == ["ok"];
    assert r[2].keywords == ["error", "fail"];
    if ContainsIgnoreCase(body, "success") {
      assert ContainsIgnoreCase(body, r[0].keywords[0]);
    }
    if ContainsIgnoreCase(body, "ok") {
      assert ContainsIgnoreCase(body, r[1].keywords[0]);
    }
    if ContainsIgnoreCase(body, "error") {
      assert ContainsIgnoreCase(body, r[2].keywords[0]);
    }
    if ContainsIgnoreCase(body, "fail") {
      assert ContainsIgnoreCase(body, r[2].keywords[1]);
    }
    assert r[1..][1..] == [r[2]];
    assert r[1..][1..][1..] == [];
    assert FirstMatch(r[1..][1..], body) == if MatchesAny(body, r[2].keywords) then LoginFailed else "";
  }

  /** The text handed to the JSON parser: from the first '{' through the last '}', when
      the last '}' comes after the first '{'. */
  function BracedText(body: string): Option<string> {
    var start := IndexOf(body, '{');
    var end := LastIndexOf(body, '}');
    if start >= 0 && end > start then Some(body[start..end + 1]) else None
  }

  /** `parsePortalSummary(body)`. */
  function ParsePortalSummary(body: string, parseJson: JsonParser): (r: string)
    ensures IsBlank(body) ==> r == ""
  {
    if IsBlank(body) then ""
    else
      var braced := BracedText(body);
      if braced.Some? && parseJson(braced.value).Some? then
        var obj := parseJson(braced.value).value;
        ComposeSummary(ResultValue(obj), MsgValue(obj))
      else Heuristic(body)
  }

  /** Some '{' comes before some '}'. */
  predicate HasBracePair(body: string) {
    exists i, j :: 0 <= i < j < |body| && body[i] == '{' && body[j] == '}'
  }

  /** The parser is consulted exactly when some '{' lies before some '}'. */
  lemma BraceWindow(body: string)
    ensures BracedText(body).Some? <==> HasBracePair(body)
  {
    var start := IndexOf(body, '{');
    var end := LastIndexOf(body, '}');
    if HasBracePair(body) {
      var i, j :| 0 <= i < j < |body| && body[i] == '{' && body[j] == '}';
      assert start <= i;
      assert end >= j;
    }
  }

  /** With the first '{' at `first` and the last '}' at `last`, the parser sees the text
      between them, both included. */
  lemma BracedTextOf(body: string, first: int, last: int)
    requires 0 <= first < last < |body|
    requires body[first] == '{' && '{' !in body[..first]
    requires body[last] == '}' && '}' !in body[last + 1..]
    ensures BracedText(body) == Some(body[first..last + 1])
  {
    FirstIndex(body, '{', first);
    LastIndex(body, '}', last);
    assert body[IndexOf(body, '{')..LastIndexOf(body, '}') + 1] == body[first..last + 1];
  }

  /** When the text from the first '{' to the last '}' parses, the summary is composed from
      that object, even when the composition is empty. */
  lemma StructuredBranch(body: string, parseJson: JsonParser, first: int, last: int)
    requires !IsBlank(body)
    requires 0 <= first < last < |body|
    requires body[first] == '{' && '{' !in body[..first]
    requires body[last] == '}' && '}' !in body[last + 1..]
    requires parseJson(body[first..last + 1]).Some?
    ensures
      var obj := parseJson(body[first..last + 1]).value;
      ParsePortalSummary(body, parseJson) == ComposeSummary(ResultValue(obj), MsgValue(obj))
  {
    BracedTextOf(body, first, last);
  }

  /** Without a '{' before a '}', the keyword heuristic decides. */
  lemma NoBracePairBranch(body: string, parseJson: JsonParser)
    requires !IsBlank(body) && !HasBracePair(body)
    ensures ParsePortalSummary(body, parseJson) == Heuristic(body)
  {
    BraceWindow(body);
  }

  /** When the text from the first '{' to the last '}' does not parse, the keyword
      heuristic decides. */
  lemma UnparsableBranch(body: string, parseJson: JsonParser, first: int, last: int)
    requires !IsBlank(body)
    requires 0 <= first < last < |body|
    requires body[first] == '{' && '{' !in body[..first]
    requires body[last] == '}' && '}' !in body[last + 1..]
    requires parseJson(body[first..last + 1]).None?
    ensures ParsePortalSummary(body, parseJson) == Heuristic(body)
  {
    BracedTextOf(body, first, last);
  }

  lemma FirstIndex(s: string, c: char, i: int)
    requires 0 <= i < |s| && s[i] == c && c !in s[..i]
    ensures IndexOf(s, c) == i
  {
  }

  lemma LastIndex(s: string, c: char, i: int)
    requires 0 <= i < |s| && s[i] == c && c !in s[i + 1..]
    ensures LastIndexOf(s, c) == i
  {
  }

  /** "success" outranks "fail": a body with both reads as a success. */
  lemma SuccessOutranksFailure(body: string)
    requires ContainsIgnoreCase(body, "success") && ContainsIgnoreCase(body, "fail")
    ensures Heuristic(body) == LoginSucceeded
  {
    HeuristicVerdicts(body);
  }

  /** ASCII upper-casing. */
  function UpperAscii(c: char): char {
    if 'a' <= c <= 'z' then (c as int - 32) as char else c
  }

  function Upper(s: string): (r: string)
    ensures |r| == |s|
    ensures forall i :: 0 <= i < |s| ==> r[i] == UpperAscii(s[i])
  {
    seq(|s|, i requires 0 <= i < |s| => UpperAscii(s[i]))
  }

  lemma MatchesAtUpper(s: string, i: int, needle: string)
    requires 0 <= i && i + |needle| <= |s|
    ensures MatchesAt(Upper(s), i, needle) <==> MatchesAt(s, i, needle)
  {
    var u := Upper(s);
    forall j | i <= j < i + |needle|
      ensures Fold(u[j]) == Fold(s[j])
    {
    }
  }

  lemma ContainsUpper(s: string, needle: string)
    requires IsAscii(needle)
    ensures ContainsIgnoreCase(Upper(s), needle) <==> ContainsIgnoreCase(s, needle)
  {
    if ContainsIgnoreCase(s, needle) {
      var i :| 0 <= i && i + |needle| <= |s| && MatchesAt(s, i, needle);
      MatchesAtUpper(s, i, needle);
    }
    if ContainsIgnoreCase(Upper(s), needle) {
      var i :| 0 <= i && i + |needle| <= |s| && MatchesAt(Upper(s), i, needle);
      MatchesAtUpper(s, i, needle);
    }
  }

  /** The keyword heuristic ignores case: shouting the body does not change the verdict. */
  lemma HeuristicIgnoresCase(body: string)
    ensures Heuristic(Upper(body)) == Heuristic(body)
  {
    ContainsUpper(body, "success");
    ContainsUpper(body, "ok");
    ContainsUpper(body, "error");
    ContainsUpper(body, "fail");
  }

  /** A JSONP reply `dr1005(<object>)`, the callback the login URL asks for, is summarised
      from the wrapped object. */
  lemma JsonpReply(parseJson: JsonParser, text: string, obj: JsonObject)
    requires |text| >= 2 && text[0] == '{' && text[|text| - 1] == '}'
    requires parseJson(text) == Some(obj)
    ensures ParsePortalSummary("dr1005(" + text + ")", parseJson) == ComposeSummary(ResultValue(obj), MsgValue(obj))
  {
    var body := "dr1005(" + text + ")";
    JsonpBraces(text);
    StructuredBranch(body, parseJson, 7, |body| - 2);
  }

  /** The reply `dr1005({"result":"1","msg":"ok"})` reads "result=1, msg=ok". */
  lemma JsonpOkReply(parseJson: JsonParser, text: string, obj: JsonObject)
    requires |text| >= 2 && text[0] == '{' && text[|text| - 1] == '}'
    requires parseJson(text) == Some(obj)
    requires obj == map["result" := "1", "msg" := "ok"]
    ensures ParsePortalSummary("dr1005(" + text + ")", parseJson) == "result=1, msg=ok"
  {
    JsonpReply(parseJson, text, obj);
    assert ResultValue(obj) == "1";
    assert MsgValue(obj) == "ok";
  }

  /** A JSONP wrapper around one brace-delimited object exposes exactly that object. */
  lemma JsonpBraces(text: string)
    requires |text| >= 2 && text[0] == '{' && text[|text| - 1] == '}'
    ensures
      var body := "dr1005(" + text + ")";
      && !IsBlank(body) && 0 <= 7 < |body| - 2 && body[7] == '{' && '{' !in body[..7]
      && body[|body| - 2] == '}' && '}' !in body[|body| - 1..] && body[7..|body| - 1] == text
  {
    var body := "dr1005(" + text + ")";
    assert !IsWhitespace(body[0]);
    assert body[..7] == "dr1005(";
    assert body[|body| - 1..] == ")";
  }

  /** "plain text success here". */
  const PlainTextBody := "plain text " + "success" + " here"

  lemma PlainTextMentionsSuccess()
    ensures ContainsIgnoreCase(PlainTextBody, "success")
  {
    ContainsPiece("plain text ", "success", " here");
  }

  lemma PlainTextHasNoBraces()
    ensures !IsBlank(PlainTextBody) && !HasBracePair(PlainTextBody)
  {
    assert !IsWhitespace(PlainTextBody[0]);
    assert '{' !in PlainTextBody;
  }

  /** A plain-text body mentioning success reads as a success. */
  lemma PlainTextExample(parseJson: JsonParser)
    ensures ParsePortalSummary(PlainTextBody, parseJson) == LoginSucceeded
  {
    PlainTextHasNoBraces();
    NoBracePairBranch(PlainTextBody, parseJson);
    PlainTextMentionsSuccess();
    HeuristicVerdicts(PlainTextBody);
  }

  /** A parsed object with neither field yields "", even when the body says "success": the
      keyword heuristic is not consulted once the JSON parses. */
  lemma EmptyObjectExample(parseJson: JsonParser)
    requires parseJson("{\"x\":\"success\"}") == Some(map[])
    ensures ParsePortalSummary("{\"x\":\"success\"}", parseJson) == ""
  {
    var body := "{\"x\":\"success\"}";
    assert !IsWhitespace(body[0]);
    BracedTextOf(body, 0, |body| - 1);
    assert body[0..|body|] == body;
  }

  // ---------------------------------------------------------------- performGet

  /** How the GET went. `Responded` carries the status code and what reading the success
      stream and the error stream would give (None when the stream is null or reading it
      throws); `RequestFailed` carries the message of an exception thrown by opening the
      connection or by `responseCode`. */
  datatype HttpExchange =
    | Responded(code: int, inputBody: Option<string>, errorBody: Option<string>)
    | RequestFailed(message: Option<string>)

  const RequestFailedPrefix := "\U{8BF7}\U{6C42}\U{5931}\U{8D25}: "

  /** The body `performGet` summarises: the success stream for 2xx codes, the error stream
      otherwise, "" when that stream yields nothing. */
  function ResponseBody(code: int, inputBody: Option<string>, errorBody: Option<string>): (r: string)
    ensures 200 <= code <= 299 ==> r == inputBody.GetOr("")
    ensures !(200 <= code <= 299) ==> r == errorBody.GetOr("")
  {
    var stream := if 200 <= code <= 299 then inputBody else errorBody;
    stream.GetOr("")
  }

  /** `performGet(url)` given the exchange. A null exception message renders as "null". */
  function PerformGet(exchange: HttpExchange, parseJson: JsonParser): string {
    match exchange
    case RequestFailed(m) => RequestFailedPrefix + m.GetOr("null")
    case Responded(code, inputBody, errorBody) =>
      HttpLine(code, ParsePortalSummary(ResponseBody(code, inputBody, errorBody), parseJson))
  }

  /** "HTTP <code>", followed by " | <summary>" when the summary is non-empty. */
  function HttpLine(code: int, summary: string): string {
    var head := "HTTP " + IntToDecimal(code);
    if summary != "" then head + " | " + summary else head
  }

  /** Only one stream is ever read: for a 2xx code the error stream makes no difference
      to the result, and for any other code the success stream makes none. */
  lemma UnreadStreamIgnored(code: int, in1: Option<string>, in2: Option<string>,
                            err1: Option<string>, err2: Option<string>, parseJson: JsonParser)
    ensures 200 <= code <= 299 ==>
      PerformGet(Responded(code, in1, err1), parseJson) == PerformGet(Responded(code, in1, err2), parseJson)
    ensures !(200 <= code <= 299) ==>
      PerformGet(Responded(code, in1, err1), parseJson) == PerformGet(Responded(code, in2, err1), parseJson)
  {
  }

  /** What a result line says. */
  datatype Outcome = Http(code: int, summary: string) | Failed(message: string)

  /** What `performGet` reports for an exchange. */
  function ExpectedOutcome(exchange: HttpExchange, parseJson: JsonParser): Outcome {
    match exchange
    case RequestFailed(m) => Failed(m.GetOr("null"))
    case Responded(code, inputBody, errorBody) =>
      Http(code, ParsePortalSummary(ResponseBody(code, inputBody, errorBody), parseJson))
  }

  /** Reads a result line back: "HTTP <code>" optionally followed by " | <summary>", or the
      failure prefix followed by the message. */
  function ReadResult(s: string): Option<Outcome> {
    if IsPrefix(RequestFailedPrefix, s) then Some(Failed(s[|RequestFailedPrefix|..]))
    else if IsPrefix("HTTP ", s) then
      var rest := s[5..];
      var k := IndexOf(rest, ' ');
      if k < 0 then
        match ParseInt(rest)
        case Some(code) => Some(Http(code, ""))
        case None => None
      else if IsPrefix(" | ", rest[k..]) && |rest| > k + 3 then
        match ParseInt(rest[..k])
        case Some(code) => Some(Http(code, rest[k + 3..]))
        case None => None
      else None
    else None
  }

  lemma DecimalHasNoSpace(n: int)
    ensures ' ' !in IntToDecimal(n)
  {
    var d := IntToDecimal(n);
    if n < 0 {
      assert forall i :: 1 <= i < |d| ==> d[1..][i - 1] == d[i];
    }
  }

  /** A result line is "HTTP " followed by the code, and the summary clause if any. */
  lemma HttpLineParts(code: int, summary: string)
    ensures |HttpLine(code, summary)| >= 5 && HttpLine(code, summary)[..5] == "HTTP "
    ensures summary == "" ==> HttpLine(code, summary)[5..] == IntToDecimal(code)
    ensures summary != "" ==> HttpLine(code, summary)[5..] == IntToDecimal(code) + " | " + summary
  {
    var d := IntToDecimal(code);
    var tail := if summary != "" then d + " | " + summary else d;
    assert HttpLine(code, summary) == "HTTP " + tail;
  }

  /** "<code> | <summary>" splits at its first space into the code and the summary. */
  lemma ReadCodeAndSummary(code: int, summary: string)
    requires summary != ""
    ensures
      var rest := IntToDecimal(code) + " | " + summary;
      var k := IndexOf(rest, ' ');
      && k == |IntToDecimal(code)|
      && rest[..k] == IntToDecimal(code)
      && IsPrefix(" | ", rest[k..]) && |rest| > k + 3
      && rest[k + 3..] == summary
  {
    var d := IntToDecimal(code);
    var rest := d + " | " + summary;
    DecimalHasNoSpace(code);
    FirstIndex(rest, ' ', |d|);
    assert rest[..|d|] == d;
    assert rest[|d|..][..3] == " | ";
    assert rest[|d| + 3..] == summary;
  }

  lemma HttpLineRoundTrip(code: int, summary: string)
    ensures ReadResult(HttpLine(code, summary)) == Some(Http(code, summary))
  {
    var s := HttpLine(code, summary);
    var d := IntToDecimal(code);
    IntRoundTrip(code);
    HttpLineParts(code, summary);
    assert !IsPrefix(RequestFailedPrefix, s) by {
      assert s[0] == 'H';
    }
    if summary == "" {
      DecimalHasNoSpace(code);
    } else {
      ReadCodeAndSummary(code, summary);
    }
  }

  lemma FailedLineRoundTrip(message: string)
    ensures ReadResult(RequestFailedPrefix + message) == Some(Failed(message))
  {
    var s := RequestFailedPrefix + message;
    assert s[..|RequestFailedPrefix|] == RequestFailedPrefix;
    assert s[|RequestFailedPrefix|..] == message;
  }

  /** The result line determines the outcome: reading it back gives the status code and
      summary, or the failure message, that produced it. */
  lemma PerformGetRoundTrip(exchange: HttpExchange, parseJson: JsonParser)
    ensures ReadResult(PerformGet(exchange, parseJson)) == Some(ExpectedOutcome(exchange, parseJson))
  {
    match exchange
    case RequestFailed(m) =>
      FailedLineRoundTrip(m.GetOr("null"));
    case Responded(code, inputBody, errorBody) =>
      HttpLineRoundTrip(code, ParsePortalSummary(ResponseBody(code, inputBody, errorBody), parseJson));
  }

  /** A request failure never reads as an HTTP status, and a response never reads as a
      failure. */
  lemma FailureIsDistinguishable(exchange: HttpExchange, parseJson: JsonParser)
    ensures exchange.RequestFailed? <==> IsPrefix(RequestFailedPrefix, PerformGet(exchange, parseJson))
  {
    PerformGetRoundTrip(exchange, parseJson);
  }
}
