/** `LogUtil`: the append-only log `autoauth/log.txt` with one backup generation
    `log.txt.1`, rotated when the log passes one million bytes, and the reader that shows
    a trailing window of it. File contents are byte sequences; the timestamp and the UTF-8
    decoder of the reader are inputs. */
module LogUtil {
  import opened Wrappers
  import opened Strings
  import opened KotlinText
  import opened Decimal
  import opened Utf8

  /** Rotation happens once the log is strictly longer than this many bytes. */
  const RotateThreshold := 1_000_000
  const DefaultMaxBytes := 128 * 1024
  const DefaultMaxLines := 800
  const NoLog := "(\U{65E0}\U{65E5}\U{5FD7})"
  const ReadFailedPrefix := "\U{8BFB}\U{53D6}\U{65E5}\U{5FD7}\U{5931}\U{8D25}: "

  /** The contents of `log.txt` and `log.txt.1`; None is a file that does not exist. */
  datatype LogFiles = LogFiles(primary: Option<seq<Byte>>, backup: Option<seq<Byte>>)

  /** The text `append` writes for one line: `"[$ts] $line\n"`. */
  function Record(ts: string, line: string): string {
    "[" + ts + "] " + line + "\n"
  }

  predicate ShouldRotate(files: LogFiles) {
    files.primary.Some? && |files.primary.value| > RotateThreshold
  }

  /** Writing `rec` the way `append` does: rotate if the log is over the threshold (the old
      backup is deleted and the log renamed over it), then append `rec` to the log, creating
      it if needed. */
  function AppendBytes(files: LogFiles, rec: seq<Byte>): (r: LogFiles)
    ensures r.primary.Some?
    ensures ShouldRotate(files) ==> r.backup == files.primary && r.primary.value == rec
    ensures !ShouldRotate(files) ==> r.backup == files.backup && r.primary.value == files.primary.GetOr([]) + rec
    ensures |r.primary.value| <= RotateThreshold + |rec|
  {
    var rotated := if ShouldRotate(files) then LogFiles(None, files.primary) else files;
    LogFiles(Some(rotated.primary.GetOr([]) + rec), rotated.backup)
  }

  /** `append(ctx, line)` at time `ts`: the record is written in UTF-8. */
  function Append(files: LogFiles, ts: string, line: string): (r: LogFiles)
    ensures r.primary.Some?
    ensures ShouldRotate(files) ==> r.backup == files.primary && r.primary.value == Encode(Record(ts, line))
    ensures !ShouldRotate(files) ==>
      r.backup == files.backup && r.primary.value == files.primary.GetOr([]) + Encode(Record(ts, line))
    ensures |r.primary.value| <= RotateThreshold + |Encode(Record(ts, line))|
  {
    AppendBytes(files, Encode(Record(ts, line)))
  }

  /** What the two files hold, oldest first. */
  function Contents(files: LogFiles): seq<Byte> {
    files.backup.GetOr([]) + files.primary.GetOr([])
  }

  /** The states reachable from no files at all: a backup exists only beside a log and was
      over the threshold when it was rotated out. */
  predicate Reachable(files: LogFiles) {
    files.backup.Some? ==> files.primary.Some? && |files.backup.value| > RotateThreshold
  }

  lemma AppendPreservesReachable(files: LogFiles, ts: string, line: string)
    requires Reachable(files)
    ensures Reachable(Append(files, ts, line))
  {
  }

  /** Appending adds the record at the end and loses at most the old backup: without
      rotation nothing is lost, with rotation exactly the old backup is. */
  lemma AppendLosesOnlyBackup(files: LogFiles, rec: seq<Byte>)
    ensures
      var after := Contents(AppendBytes(files, rec));
      && (!ShouldRotate(files) ==> after == Contents(files) + rec)
      && (ShouldRotate(files) ==> after == files.primary.value + rec &&
                                   Contents(files) == files.backup.GetOr([]) + files.primary.value)
  {
  }

  predicate IsByteSuffix(t: seq<Byte>, s: seq<Byte>) {
    |t| <= |s| && s[|s| - |t|..] == t
  }

  lemma SuffixTrans(a: seq<Byte>, b: seq<Byte>, c: seq<Byte>)
    requires IsByteSuffix(a, b) && IsByteSuffix(b, c)
    ensures IsByteSuffix(a, c)
  {
    assert c[|c| - |a|..] == c[|c| - |b|..][|b| - |a|..];
  }

  lemma SuffixExtend(a: seq<Byte>, b: seq<Byte>, tail: seq<Byte>)
    requires IsByteSuffix(a, b)
    ensures IsByteSuffix(a + tail, b + tail)
  {
    assert (b + tail)[|b + tail| - |a + tail|..] == b[|b| - |a|..] + tail;
  }

  /** One append keeps a suffix of the old contents followed by the new record. */
  lemma AppendKeepsRecent(files: LogFiles, rec: seq<Byte>)
    ensures IsByteSuffix(Contents(AppendBytes(files, rec)), Contents(files) + rec)
  {
    AppendLosesOnlyBackup(files, rec);
    if ShouldRotate(files) {
      var gone := files.backup.GetOr([]);
      assert (Contents(files) + rec)[|gone|..] == files.primary.value + rec;
    }
  }

  /** A suffix of what one write leaves, followed by later bytes, is a suffix of what was
      there before, the write, and those bytes. */
  lemma StepKeepsRecent(t: seq<Byte>, files: LogFiles, rec: seq<Byte>, rest: seq<Byte>)
    requires IsByteSuffix(t, Contents(AppendBytes(files, rec)) + rest)
    ensures IsByteSuffix(t, Contents(files) + (rec + rest))
  {
    AppendKeepsRecent(files, rec);
    SuffixExtend(Contents(AppendBytes(files, rec)), Contents(files) + rec, rest);
    assert Contents(files) + (rec + rest) == (Contents(files) + rec) + rest;
    SuffixTrans(t, Contents(AppendBytes(files, rec)) + rest, Contents(files) + (rec + rest));
  }

  /** Writes the chunks in order. */
  function AppendChunks(files: LogFiles, chunks: seq<seq<Byte>>): LogFiles
    decreases |chunks|
  {
    if |chunks| == 0 then files else AppendChunks(AppendBytes(files, chunks[0]), chunks[1..])
  }

  function Flatten(chunks: seq<seq<Byte>>): seq<Byte>
    decreases |chunks|
  {
    if |chunks| == 0 then [] else chunks[0] + Flatten(chunks[1..])
  }

  /** However many writes happen, the files hold a suffix of everything ever written: the
      log only ever loses its oldest bytes. */
  lemma {:induction false} AppendChunksKeepsRecent(files: LogFiles, chunks: seq<seq<Byte>>)
    ensures IsByteSuffix(Contents(AppendChunks(files, chunks)), Contents(files) + Flatten(chunks))
    decreases |chunks|
  {
    if |chunks| == 0 {
      assert Contents(files) + Flatten(chunks) == Contents(files);
    } else {
      AppendChunksKeepsRecent(AppendBytes(files, chunks[0]), chunks[1..]);
      StepKeepsRecent(Contents(AppendChunks(files, chunks)), files, chunks[0], Flatten(chunks[1..]));
    }
  }

  /** The newest chunk always ends the log. */
  lemma {:induction false} AppendChunksEndsWithLast(files: LogFiles, chunks: seq<seq<Byte>>)
    requires |chunks| > 0
    ensures IsByteSuffix(chunks[|chunks| - 1], AppendChunks(files, chunks).primary.GetOr([]))
    decreases |chunks|
  {
    var next := AppendBytes(files, chunks[0]);
    if |chunks| == 1 {
      assert AppendChunks(files, chunks) == AppendChunks(next, chunks[1..]) == next;
      assert next.primary.value[|next.primary.value| - |chunks[0]|..] == chunks[0];
    } else {
      AppendChunksEndsWithLast(next, chunks[1..]);
      assert chunks[1..][|chunks[1..]| - 1] == chunks[|chunks| - 1];
    }
  }

  /** The UTF-8 records for a sequence of (timestamp, line) entries. */
  function RecordChunks(entries: seq<(string, string)>): (r: seq<seq<Byte>>)
    ensures |r| == |entries|
  {
    seq(|entries|, i requires 0 <= i < |entries| => Encode(Record(entries[i].0, entries[i].1)))
  }

  /** `append` called once per entry, in order. */
  function AppendAll(files: LogFiles, entries: seq<(string, string)>): LogFiles {
    AppendChunks(files, RecordChunks(entries))
  }

  /** After any number of appends the files hold a suffix of all records ever written, and
      the newest record ends the log. */
  lemma AppendAllKeepsRecent(files: LogFiles, entries: seq<(string, string)>)
    ensures IsByteSuffix(Contents(AppendAll(files, entries)), Contents(files) + Flatten(RecordChunks(entries)))
    ensures |entries| > 0 ==>
      var last := entries[|entries| - 1];
      IsByteSuffix(Encode(Record(last.0, last.1)), AppendAll(files, entries).primary.GetOr([]))
  {
    AppendChunksKeepsRecent(files, RecordChunks(entries));
    if |entries| > 0 {
      AppendChunksEndsWithLast(files, RecordChunks(entries));
    }
  }

  // ---------------------------------------------------------------- reading

  /** The exceptions `readLatest` can meet with a log present, and their messages: a
      negative `maxBytes` makes the byte array size negative (the message is the size), a
      negative `maxLines` makes `takeLast` reject its count. */
  datatype ReadError = NegativeArraySize(size: int) | NegativeCount(n: int)

  function ErrorMessage(e: ReadError): string {
    match e
    case NegativeArraySize(size) => IntToDecimal(size)
    case NegativeCount(n) => "Requested element count " + IntToDecimal(n) + " is less than zero."
  }

  /** The last `min(len, maxBytes)` bytes: the read starts at `len - maxBytes` when the log is
      longer than `maxBytes`, else at 0. */
  function Window(bytes: seq<Byte>, maxBytes: int): (r: seq<Byte>)
    requires maxBytes >= 0
    ensures |r| == if |bytes| > maxBytes then maxBytes else |bytes|
    ensures IsByteSuffix(r, bytes)
  {
    var start := if |bytes| > maxBytes then |bytes| - maxBytes else 0;
    bytes[start..]
  }

  /** The last `n` lines of `text`, joined with "\n", or `text` itself when it has no more
      than `n` lines. */
  function LastLines(text: string, n: nat): string {
    var lines := Lines(text);
    if |lines| > n then Join(TakeLast(lines, n), "\n") else text
  }

  /** Exactly `n` lines survive when the text has more, all of them otherwise, and they
      are the last ones of the text. */
  lemma LastLinesAreLast(text: string, n: nat)
    requires n >= 1
    ensures
      var r := LastLines(text, n);
      && |Lines(r)| == (if |Lines(text)| > n then n else |Lines(text)|)
      && Lines(r) == Lines(text)[|Lines(text)| - |Lines(r)|..]
      && (|Lines(text)| <= n ==> r == text)
  {
    var lines := Lines(text);
    if |lines| > n {
      var kept := TakeLast(lines, n);
      LinesOfJoin(kept);
    } else {
      assert lines[0..] == lines;
    }
  }

  /** Without carriage returns, what survives is a suffix of the text. */
  lemma LastLinesIsSuffix(text: string, n: nat)
    requires '\r' !in text
    ensures IsSuffix(LastLines(text, n), text)
  {
    var lines := Lines(text);
    if |lines| > n {
      var kept := lines[|lines| - n..];
      assert LastLines(text, n) == Join(kept, "\n");
      JoinDropIsSuffix(lines, |lines| - n, "\n");
      JoinOfLines(text);
    } else {
      assert LastLines(text, n) == text;
      assert text[|text| - |text|..] == text;
    }
  }

  /** `readLatest(ctx, maxBytes, maxLines)`, where `decode` is `ByteArray.toString(UTF_8)`. */
  function ReadLatest(files: LogFiles, maxBytes: int, maxLines: int, decode: seq<Byte> -> string): (r: string)
    ensures files.primary.None? ==> r == NoLog
    ensures files.primary.Some? && maxBytes < 0 ==> r == ReadFailedPrefix + ErrorMessage(NegativeArraySize(maxBytes))
  {
    match files.primary
    case None => NoLog
    case Some(bytes) =>
      if maxBytes < 0 then ReadFailedPrefix + ErrorMessage(NegativeArraySize(maxBytes))
      else
        var text := decode(Window(bytes, maxBytes));
        if |Lines(text)| > maxLines && maxLines < 0 then ReadFailedPrefix + ErrorMessage(NegativeCount(maxLines))
        else LastLines(text, maxLines)
  }

  /** `readAll(ctx)`. */
  function ReadAll(files: LogFiles, decode: seq<Byte> -> string): string {
    ReadLatest(files, DefaultMaxBytes, DefaultMaxLines, decode)
  }

  /** The text of the trailing window. */
  function WindowText(bytes: seq<Byte>, maxBytes: nat, decode: seq<Byte> -> string): string {
    decode(Window(bytes, maxBytes))
  }

  /** With a log present and non-negative limits, the reader keeps the last lines of the
      window's text. */
  lemma ReadLatestIsLastLines(bytes: seq<Byte>, backup: Option<seq<Byte>>, maxBytes: nat, maxLines: nat,
                              decode: seq<Byte> -> string)
    ensures ReadLatest(LogFiles(Some(bytes), backup), maxBytes, maxLines, decode) ==
            LastLines(WindowText(bytes, maxBytes, decode), maxLines)
  {
  }

  /** With a log present and sensible limits, the reader shows the last `maxLines` lines
      of the window's text, or all of them when there are no more than that; a window
      without carriage returns is shown as a suffix of its text. */
  lemma ReadLatestShowsLastLines(bytes: seq<Byte>, backup: Option<seq<Byte>>, maxBytes: nat, maxLines: nat,
                                 decode: seq<Byte> -> string)
    requires maxLines >= 1
    ensures
      var text := WindowText(bytes, maxBytes, decode);
      var r := ReadLatest(LogFiles(Some(bytes), backup), maxBytes, maxLines, decode);
      && |Lines(r)| == (if |Lines(text)| > maxLines then maxLines else |Lines(text)|)
      && Lines(r) == Lines(text)[|Lines(text)| - |Lines(r)|..]
      && ('\r' !in text ==> IsSuffix(r, text))
      && (|Lines(text)| <= maxLines ==> r == text)
  {
    var text := WindowText(bytes, maxBytes, decode);
    ReadLatestIsLastLines(bytes, backup, maxBytes, maxLines, decode);
    LastLinesAreLast(text, maxLines);
    if '\r' !in text {
      LastLinesIsSuffix(text, maxLines);
    }
  }

  /** A zero line budget still shows one (empty) line: `takeLast(0)` joins to "". */
  lemma ZeroLinesShowsEmpty(bytes: seq<Byte>, backup: Option<seq<Byte>>, maxBytes: nat, decode: seq<Byte> -> string)
    ensures ReadLatest(LogFiles(Some(bytes), backup), maxBytes, 0, decode) == ""
  {
  }

  /** A negative line budget fails with `takeLast`'s message, once the byte window is valid. */
  lemma NegativeLinesFails(bytes: seq<Byte>, backup: Option<seq<Byte>>, maxBytes: nat, maxLines: int,
                           decode: seq<Byte> -> string)
    requires maxLines < 0
    ensures ReadLatest(LogFiles(Some(bytes), backup), maxBytes, maxLines, decode) ==
      ReadFailedPrefix + "Requested element count " + IntToDecimal(maxLines) + " is less than zero."
  {
  }

  /** The reader never looks at the backup. */
  lemma ReadIgnoresBackup(primary: Option<seq<Byte>>, b1: Option<seq<Byte>>, b2: Option<seq<Byte>>,
                          maxBytes: int, maxLines: int, decode: seq<Byte> -> string)
    ensures ReadLatest(LogFiles(primary, b1), maxBytes, maxLines, decode) ==
            ReadLatest(LogFiles(primary, b2), maxBytes, maxLines, decode)
  {
  }

  /** `readAll` shows the last 800 lines of the last 128 KiB of the log, or the whole
      window when it holds no more lines than that. */
  lemma ReadAllShowsRecent(files: LogFiles, decode: seq<Byte> -> string)
    requires files.primary.Some?
    ensures
      var text := WindowText(files.primary.value, DefaultMaxBytes, decode);
      var r := ReadAll(files, decode);
      && |Lines(r)| == (if |Lines(text)| > DefaultMaxLines then DefaultMaxLines else |Lines(text)|)
      && Lines(r) == Lines(text)[|Lines(text)| - |Lines(r)|..]
      && (|Lines(text)| <= DefaultMaxLines ==> r == text)
  {
    ReadLatestShowsLastLines(files.primary.value, files.backup, DefaultMaxBytes, DefaultMaxLines, decode);
  }

  /** A decoder that reads back whatever the encoder wrote. */
  ghost predicate Faithful(decode: seq<Byte> -> string) {
    forall t :: decode(Encode(t)) == t
  }

  /** The strict decoder of RFC 3629, with U+FFFD for malformed input, is faithful. */
  lemma StrictDecoderIsFaithful()
    ensures Faithful(b => Decode(b).GetOr("\U{FFFD}"))
  {
    forall t
      ensures Decode(Encode(t)).GetOr("\U{FFFD}") == t
    {
      DecodeEncode(t);
    }
  }

  /** When the log was written by the encoder and fits in the window, a faithful reader sees
      all of it: right after an append, that is the previous text (or nothing, after a
      rotation) followed by the new record. */
  lemma ReadAfterAppend(text: string, ts: string, line: string, maxBytes: nat, decode: seq<Byte> -> string)
    requires Faithful(decode)
    requires |Encode(text + Record(ts, line))| <= maxBytes
    ensures
      var files := Append(LogFiles(Some(Encode(text)), None), ts, line);
      var shown := if ShouldRotate(LogFiles(Some(Encode(text)), None)) then Record(ts, line) else text + Record(ts, line);
      WindowText(files.primary.value, maxBytes, decode) == shown
  {
    var files := Append(LogFiles(Some(Encode(text)), None), ts, line);
    EncodeConcat(text, Record(ts, line));
    var bytes := files.primary.value;
    assert |bytes| <= |Encode(text + Record(ts, line))|;
    assert Window(bytes, maxBytes) == bytes;
  }
}
