/**
 * The original console downloader (LightGet/Downloader.cs): one HEAD
 * request, whose redirects HttpWebRequest follows by itself, then GET
 * attempts repeated while the response stream throws. The read loop is
 * bounded by the GET response's length and reports the remaining time,
 * rounded to the units FormatRemainingTime shows, whenever its text changes.
 */
module LegacyDownloader {
  import opened Wrappers
  import opened Text
  import opened Uris
  import opened Http
  import UrlToPathMapper

  // ---------------------------------------------------------------------
  // Remaining time.

  const MsPerSecond: nat := 1000
  const MsPerMinute: nat := 60000
  const MsPerHour: nat := 3600000
  const MsPerDay: nat := 86400000

  /** The largest count of milliseconds TimeSpan.FromMilliseconds accepts: Int64.MaxValue ticks at 10000 ticks per millisecond. */
  const MaxMilliseconds: nat := 922337203685477

  /** A non-negative TimeSpan, to the millisecond. */
  datatype TimeSpan = TimeSpan(ms: nat)
  {
    function Days(): nat { ms / MsPerDay }
    function Hours(): nat { ms / MsPerHour % 24 }
    function Minutes(): nat { ms / MsPerMinute % 60 }
    function Seconds(): nat { ms / MsPerSecond % 60 }
  }

  /** Downloader.FormatRemainingTime: the two largest units when at least an hour is left, else minutes, else seconds. */
  function FormatRemainingTime(t: TimeSpan): string {
    if t.ms >= MsPerDay then NatToString(t.Days()) + " days " + NatToString(t.Hours()) + " hours"
    else if t.ms >= MsPerHour then NatToString(t.Hours()) + " hours " + NatToString(t.Minutes()) + " minutes"
    else if t.ms >= MsPerMinute then NatToString(t.Minutes()) + " minutes"
    else NatToString(t.Seconds()) + " seconds"
  }

  /** What a remaining-time text shows: the units and their values. */
  datatype Shown =
    | DaysHours(days: nat, hours: nat)
    | HoursMinutes(hours: nat, minutes: nat)
    | MinutesOnly(minutes: nat)
    | SecondsOnly(seconds: nat)

  /** The reference reading of a time span at the precision FormatRemainingTime shows it. */
  function ShownOf(t: TimeSpan): (s: Shown)
    ensures s.DaysHours? ==> s.days >= 1 && s.hours < 24
    ensures s.HoursMinutes? ==> 1 <= s.hours < 24 && s.minutes < 60
    ensures s.MinutesOnly? ==> 1 <= s.minutes < 60
    ensures s.SecondsOnly? ==> s.seconds < 60
  {
    if t.ms >= MsPerDay then DaysHours(t.ms / MsPerDay, t.ms / MsPerHour % 24)
    else if t.ms >= MsPerHour then HoursMinutes(t.ms / MsPerHour, t.ms / MsPerMinute % 60)
    else if t.ms >= MsPerMinute then MinutesOnly(t.ms / MsPerMinute)
    else SecondsOnly(t.ms / MsPerSecond)
  }

  /** The words of the text that shows `s`. */
  function Words(s: Shown): seq<string> {
    match s
    case DaysHours(d, h) => [NatToString(d), "days", NatToString(h), "hours"]
    case HoursMinutes(h, m) => [NatToString(h), "hours", NatToString(m), "minutes"]
    case MinutesOnly(m) => [NatToString(m), "minutes"]
    case SecondsOnly(sec) => [NatToString(sec), "seconds"]
  }

  /**
   * TimeSpan.FromMilliseconds applied to the estimate
   * `remaining * (elapsedMs / downloaded)`: the estimate rounded half up,
   * or a failure when it is not a number or infinite (nothing downloaded
   * yet) or too large for a TimeSpan.
   */
  function RemainingTime(remaining: nat, elapsedMs: nat, downloaded: nat): Result<TimeSpan, LegacyError> {
    if downloaded == 0 then Failure(TimeOutOfRange)
    else
      var twice := 2 * remaining * elapsedMs + downloaded;
      if twice > 2 * MaxMilliseconds * downloaded then Failure(TimeOutOfRange)
      else Success(TimeSpan(twice / (2 * downloaded)))
  }

  /** The estimate is rounded half up, and fails exactly when nothing is downloaded yet or it exceeds a TimeSpan. */
  lemma RemainingTimeRounds(remaining: nat, elapsedMs: nat, downloaded: nat)
    ensures var r := RemainingTime(remaining, elapsedMs, downloaded);
      && (r.Failure? <==> downloaded == 0 || 2 * remaining * elapsedMs + downloaded > 2 * MaxMilliseconds * downloaded)
      && (r.Failure? ==> r.error == TimeOutOfRange)
      && (r.Success? ==> r.value.ms <= MaxMilliseconds)
      && (r.Success? ==>
            2 * downloaded * r.value.ms <= 2 * remaining * elapsedMs + downloaded < 2 * downloaded * (r.value.ms + 1))
  {
    if downloaded > 0 {
      var twice := 2 * remaining * elapsedMs + downloaded;
      RoundingBounds(twice, 2 * downloaded);
      if twice <= 2 * MaxMilliseconds * downloaded {
        DivisionBound(twice, 2 * downloaded, MaxMilliseconds);
      }
    }
  }

  lemma DivisionBound(a: nat, b: nat, m: nat)
    requires b > 0 && a <= m * b
    ensures a / b <= m
  {
    RoundingBounds(a, b);
  }

  lemma RoundingBounds(a: nat, b: nat)
    requires b > 0
    ensures b * (a / b) <= a < b * (a / b + 1)
  {
  }

  /** What ReportRemainingTime writes: the formatted time, unless it is the text reported last. */
  function RemainingReport(t: TimeSpan, lastReported: Option<string>): (report: Option<string>)
    ensures report.Some? <==> lastReported != Some(FormatRemainingTime(t))
    ensures report.Some? ==> report.value == FormatRemainingTime(t)
  {
    var formatted := FormatRemainingTime(t);
    if lastReported == Some(formatted) then None else Some(formatted)
  }

  /** Downloader.ReportRemainingTime: the text it writes, if any, and the new value of the `ref lastReported` argument. */
  method ReportRemainingTime(t: TimeSpan, lastReported: Option<string>) returns (written: Option<string>, reported: Option<string>)
    ensures written == RemainingReport(t, lastReported)
    ensures reported == Some(FormatRemainingTime(t))
  {
    var formatted := FormatRemainingTime(t);
    if lastReported == Some(formatted) {
      return None, lastReported;
    }
    written := Some(formatted);
    reported := Some(formatted);
  }

  // ---------------------------------------------------------------------
  // One attempt.

  datatype LegacyEvent =
    | HeadIssued
    | SavingTo(fileName: string)
    | AlreadyDownloaded
    | RequestingRange(from: nat, to: int)
    | GetIssued(range: Option<ByteRange>)
    | Remaining(text: string)
    | Completed
    | Retrying(message: string)

  datatype LegacyError =
    | HttpError(status: nat)             // WebException for an error status
    | ProtocolError(message: string)     // any other WebException from GetResponse
    | MalformedContentDisposition        // FormatException from new ContentDisposition
    | IllegalFileName(name: string)      // ArgumentException from new FileInfo
    | InvalidRange(from: nat, to: int)   // ArgumentOutOfRangeException from AddRange
    | TimeOutOfRange                     // exception from TimeSpan.FromMilliseconds
    | Stalled                            // the stream ended early: the loop reads nothing forever
    | ScriptExhausted                    // more requests than the script answers

  /** Downloader.GetFileName: the disposition's file name, else the response URI's last path segment. */
  function GetFileName(head: HeadResponse): (r: Result<string, LegacyError>)
    ensures r.Failure? <==> head.disposition.MalformedDisposition?
    ensures r.Success? && head.disposition.Disposition? && head.disposition.fileName != [] ==>
      r.value == head.disposition.fileName
    ensures r.Success? && !(head.disposition.Disposition? && head.disposition.fileName != []) ==>
      var path := head.responseUri.localPath;
      && '/' !in r.value
      && EndsWith(path, r.value)
      && (|r.value| == |path| || path[|path| - |r.value| - 1] == '/')
  {
    var path := head.responseUri.localPath;
    var fileNameFromUri := path[AfterLast(path, '/')..];
    match head.disposition
    case NoDisposition => Success(fileNameFromUri)
    case MalformedDisposition => Failure(MalformedContentDisposition)
    case Disposition(name) => if name == [] then Success(fileNameFromUri) else Success(name)
  }

  /**
   * What `new FileInfo(name)` accepts on the .NET Framework, as far as it is
   * modelled: a name that is not blank, has no invalid path character and
   * no wildcard (ArgumentException), and has a ':' only right after a drive
   * letter at its start (NotSupportedException, since the check runs on the
   * full path, where a relative name follows the current directory).
   */
  predicate IsLegalFileName(name: string) {
    && !IsBlank(name)
    && !UrlToPathMapper.HasInvalidPathChar(name)
    && !HasWildcard(name)
    && !HasMisplacedColon(name)
  }

  /** Empty, or only white space. */
  predicate IsBlank(s: string) {
    forall i :: 0 <= i < |s| ==> IsWhiteSpace(s[i])
  }

  /** A '*' or '?', which the full-path check refuses. */
  predicate HasWildcard(s: string) {
    '*' in s || '?' in s
  }

  predicate IsDriveLetter(c: char) {
    'a' <= c <= 'z' || 'A' <= c <= 'Z'
  }

  /** A ':' anywhere but at index 1 after a drive letter. */
  predicate HasMisplacedColon(s: string) {
    || (|s| > 0 && s[0] == ':')
    || (|s| > 1 && s[1] == ':' && !IsDriveLetter(s[0]))
    || (|s| > 2 && ':' in s[2..])
  }

  /** Names that FileInfo refuses: wildcards, misplaced colons, blank names. */
  lemma IllegalFileNames()
    ensures !IsLegalFileName("a*b") && !IsLegalFileName("a?b")
    ensures !IsLegalFileName(":ab") && !IsLegalFileName("1:b") && !IsLegalFileName("ab:c")
    ensures !IsLegalFileName(" ") && !IsLegalFileName("")
  {
    assert HasWildcard("a*b") by { assert "a*b"[1] == '*'; }
    assert HasWildcard("a?b") by { assert "a?b"[1] == '?'; }
    assert HasMisplacedColon("ab:c") by { assert "ab:c"[2..][0] == ':'; }
    assert IsBlank(" ") by { assert IsWhiteSpace(" "[0]); }
  }

  /** Names that FileInfo takes, a drive-relative one among them. */
  lemma LegalFileNames()
    ensures IsLegalFileName("f.zip") && IsLegalFileName("c:f")
  {
    assert !IsBlank("f.zip") by { assert !IsWhiteSpace("f.zip"[0]); }
    assert !IsBlank("c:f") by { assert !IsWhiteSpace("c:f"[0]); }
    assert !UrlToPathMapper.HasInvalidPathChar("f.zip") by {
      assert forall i :: 0 <= i < 5 ==> "f.zip"[i] in "f.zip";
    }
    assert !UrlToPathMapper.HasInvalidPathChar("c:f") by {
      assert forall i :: 0 <= i < 3 ==> "c:f"[i] in "c:f";
    }
    assert !HasMisplacedColon("c:f") by { assert "c:f"[2..] == "f"; }
    assert !HasMisplacedColon("f.zip") by { assert "f.zip"[2..] == "zip"; }
  }

  datatype LoopEnd = Finished | Interrupted(message: string) | Failed(error: LegacyError)

  /** What the read loop did: bytes read (and written), the remaining-time reports, and how it ended. */
  datatype ReadLog = ReadLog(downloaded: nat, events: seq<LegacyEvent>, end: LoopEnd)

  function ReportEvents(report: Option<string>): seq<LegacyEvent> {
    if report.Some? then [Remaining(report.value)] else []
  }

  /**
   * The read loop from `downloaded` bytes of a response of `length` bytes:
   * while fewer than `length` bytes are in, read at most the rest, capped at
   * the 1024-byte buffer, then estimate and report the remaining time.
   */
  function ReadLoop(stream: seq<Read>, length: int, downloaded: nat, lastReported: Option<string>): (log: ReadLog)
    ensures log.downloaded >= downloaded
    ensures downloaded <= length ==> log.downloaded <= length
    ensures log.end.Finished? ==> log.downloaded >= length
    decreases |stream|
  {
    if downloaded >= length then ReadLog(downloaded, [], Finished)
    else if stream == [] then ReadLog(downloaded, [], Failed(if downloaded == 0 then TimeOutOfRange else Stalled))
    else if stream[0].IoFailure? then ReadLog(downloaded, [], Interrupted(stream[0].message))
    else
      var count := Received(stream[0], Min(length - downloaded, BufferSize));
      var total := downloaded + count;
      match RemainingTime(length - total, stream[0].elapsedMs, total)
      case Failure(e) => ReadLog(total, [], Failed(e))
      case Success(t) =>
        var report := RemainingReport(t, lastReported);
        var rest := ReadLoop(stream[1..], length, total, Some(FormatRemainingTime(t)));
        ReadLog(rest.downloaded, ReportEvents(report) + rest.events, rest.end)
  }

  function Logged(events: seq<LegacyEvent>, log: ReadLog): ReadLog {
    ReadLog(log.downloaded, events + log.events, log.end)
  }

  lemma LoggedTwice(first: seq<LegacyEvent>, second: seq<LegacyEvent>, log: ReadLog)
    ensures Logged(first, Logged(second, log)) == Logged(first + second, log)
  {
    assert first + (second + log.events) == first + second + log.events;
  }

  /** One turn of the read loop on the reads from index i, which brings the total to `total`. */
  lemma ReadLoopStep(stream: seq<Read>, length: int, i: nat, downloaded: nat, total: nat, lastReported: Option<string>, t: TimeSpan)
    requires i < |stream| && downloaded < length && stream[i].Data?
    requires total == downloaded + Received(stream[i], Min(length - downloaded, BufferSize))
    requires RemainingTime(length - total, stream[i].elapsedMs, total) == Success(t)
    ensures ReadLoop(stream[i..], length, downloaded, lastReported)
      == Logged(ReportEvents(RemainingReport(t, lastReported)), ReadLoop(stream[i + 1..], length, total, Some(FormatRemainingTime(t))))
  {
    assert stream[i..][0] == stream[i] && stream[i..][1..] == stream[i + 1..];
  }

  /** The turns of the read loop on the reads from index i that end it. */
  lemma ReadLoopEnds(stream: seq<Read>, length: int, i: nat, downloaded: nat, lastReported: Option<string>)
    requires i <= |stream| && downloaded < length
    ensures i == |stream| ==>
      ReadLoop(stream[i..], length, downloaded, lastReported)
        == ReadLog(downloaded, [], Failed(if downloaded == 0 then TimeOutOfRange else Stalled))
    ensures i < |stream| && stream[i].IoFailure? ==>
      ReadLoop(stream[i..], length, downloaded, lastReported) == ReadLog(downloaded, [], Interrupted(stream[i].message))
    ensures i < |stream| && stream[i].Data? ==>
      var total := downloaded + Received(stream[i], Min(length - downloaded, BufferSize));
      var remaining := RemainingTime(length - total, stream[i].elapsedMs, total);
      remaining.Failure? ==> ReadLoop(stream[i..], length, downloaded, lastReported) == ReadLog(total, [], Failed(remaining.error))
  {
    if i < |stream| {
      assert stream[i..][0] == stream[i];
    } else {
      assert stream[i..] == [];
    }
  }

  /** The read loop of Download(arguments, headResponse). */
  method ReadResponse(stream: seq<Read>, contentLength: int) returns (log: ReadLog)
    ensures log == ReadLoop(stream, contentLength, 0, None)
  {
    var downloadedTotal: nat := 0;
    var lastTimeReported: Option<string> := None;
    var events := [];
    var i := 0;
    while downloadedTotal < contentLength
      invariant 0 <= i <= |stream|
      invariant ReadLoop(stream, contentLength, 0, None)
        == Logged(events, ReadLoop(stream[i..], contentLength, downloadedTotal, lastTimeReported))
      decreases |stream| - i
    {
      ReadLoopEnds(stream, contentLength, i, downloadedTotal, lastTimeReported);
      if i == |stream| {
        return ReadLog(downloadedTotal, events, Failed(if downloadedTotal == 0 then TimeOutOfRange else Stalled));
      }
      var read := stream[i];
      if read.IoFailure? {
        return ReadLog(downloadedTotal, events, Interrupted(read.message));
      }
      var before := downloadedTotal;
      var count := Received(read, Min(contentLength - downloadedTotal, BufferSize));
      downloadedTotal := downloadedTotal + count;

      var remaining := RemainingTime(contentLength - downloadedTotal, read.elapsedMs, downloadedTotal);
      if remaining.Failure? {
        return ReadLog(downloadedTotal, events, Failed(remaining.error));
      }
      ReadLoopStep(stream, contentLength, i, before, downloadedTotal, lastTimeReported, remaining.value);
      var written;
      ghost var previous := lastTimeReported;
      written, lastTimeReported := ReportRemainingTime(remaining.value, lastTimeReported);
      ghost var rest := ReadLoop(stream[i + 1..], contentLength, downloadedTotal, lastTimeReported);
      assert ReadLoop(stream[i..], contentLength, before, previous) == Logged(ReportEvents(written), rest);
      LoggedTwice(events, ReportEvents(written), rest);
      events := events + ReportEvents(written);
      i := i + 1;
    }
    return ReadLog(downloadedTotal, events, Finished);
  }

  datatype Status = Done | Retry(message: string) | Fatal(error: LegacyError)

  /** An attempt's end, the file length it leaves, its events, and the GET replies still unused. */
  datatype Attempt = Attempt(status: Status, fileLength: nat, events: seq<LegacyEvent>, gets: seq<Reply<GetResponse>>)

  /** Download(arguments, headResponse): one attempt against the file as it is. */
  function AttemptSpec(head: HeadResponse, fileLength: nat, gets: seq<Reply<GetResponse>>): (a: Attempt)
    ensures |a.gets| <= |gets|
    ensures a.status.Retry? ==> |a.gets| < |gets|
    ensures a.fileLength >= fileLength
  {
    match GetFileName(head)
    case Failure(e) => Attempt(Fatal(e), fileLength, [], gets)
    case Success(fileName) =>
      if !IsLegalFileName(fileName) then Attempt(Fatal(IllegalFileName(fileName)), fileLength, [SavingTo(fileName)], gets)
      else ResumeSpec(head, fileName, fileLength, gets)
  }

  /** The rest of an attempt once `fileName` is known to be legal: compare lengths, then fetch. */
  function ResumeSpec(head: HeadResponse, fileName: string, fileLength: nat, gets: seq<Reply<GetResponse>>): (a: Attempt)
    ensures a.events != [] && a.events[0] == SavingTo(fileName)
    ensures |a.gets| <= |gets|
    ensures a.status.Retry? ==> |a.gets| < |gets|
    ensures a.fileLength >= fileLength
  {
    var saving := [SavingTo(fileName)];
    if fileLength > 0 && fileLength == head.contentLength then
      Attempt(Done, fileLength, saving + [AlreadyDownloaded], gets)
    else if fileLength > 0 && fileLength > head.contentLength then
      Attempt(Fatal(InvalidRange(fileLength, head.contentLength)), fileLength,
        saving + [RequestingRange(fileLength, head.contentLength)], gets)
    else
      var range := if fileLength > 0 then Some(ByteRange(fileLength, head.contentLength)) else None;
      var planned := saving + (if fileLength > 0 then [RequestingRange(fileLength, head.contentLength)] else []) + [GetIssued(range)];
      FetchSpec(fileLength, planned, gets)
  }

  lemma LegalNameResumes(head: HeadResponse, fileLength: nat, gets: seq<Reply<GetResponse>>)
    requires GetFileName(head).Success? && IsLegalFileName(GetFileName(head).value)
    ensures AttemptSpec(head, fileLength, gets) == ResumeSpec(head, GetFileName(head).value, fileLength, gets)
  {
  }

  /** The GET of an attempt, after the events in `planned`: the response is read and appended to the file. */
  function FetchSpec(fileLength: nat, planned: seq<LegacyEvent>, gets: seq<Reply<GetResponse>>): (a: Attempt)
    ensures |a.events| >= |planned| && a.events[..|planned|] == planned
    ensures |a.gets| <= |gets|
    ensures a.status.Retry? ==> |a.gets| < |gets|
    ensures a.fileLength >= fileLength
  {
    if gets == [] then Attempt(Fatal(ScriptExhausted), fileLength, planned, [])
    else
      match gets[0]
      case WebFailure(m) => Attempt(Fatal(ProtocolError(m)), fileLength, planned, gets[1..])
      case Answered(response) =>
        var log := ReadLoop(response.stream, response.contentLength, 0, None);
        var length := fileLength + log.downloaded;
        var read := planned + log.events;
        match log.end
        case Finished => Attempt(Done, length, read + [Completed], gets[1..])
        case Interrupted(m) => Attempt(Retry(m), length, read, gets[1..])
        case Failed(e) => Attempt(Fatal(e), length, read, gets[1..])
  }

  /** The GET of an attempt takes exactly the first reply of the script. */
  lemma FetchConsumesOneGet(fileLength: nat, planned: seq<LegacyEvent>, gets: seq<Reply<GetResponse>>)
    ensures FetchSpec(fileLength, planned, gets).gets == if gets == [] then [] else gets[1..]
  {
  }

  /** Once the name is legal, a file already complete or too long takes no reply; any other takes the first. */
  lemma ResumeConsumesAtMostOneGet(head: HeadResponse, fileName: string, fileLength: nat, gets: seq<Reply<GetResponse>>)
    ensures var a := ResumeSpec(head, fileName, fileLength, gets);
      a.gets == if (fileLength > 0 && fileLength >= head.contentLength) || gets == [] then gets else gets[1..]
  {
    if !(fileLength > 0 && fileLength >= head.contentLength) {
      var range := if fileLength > 0 then Some(ByteRange(fileLength, head.contentLength)) else None;
      var planned := [SavingTo(fileName)] + (if fileLength > 0 then [RequestingRange(fileLength, head.contentLength)] else []) + [GetIssued(range)];
      FetchConsumesOneGet(fileLength, planned, gets);
    }
  }

  /** An attempt consumes at most one GET reply, and a retried one exactly one. */
  lemma AttemptConsumesAtMostOneGet(head: HeadResponse, fileLength: nat, gets: seq<Reply<GetResponse>>)
    ensures var a := AttemptSpec(head, fileLength, gets);
      && (a.gets == gets || (gets != [] && a.gets == gets[1..]))
      && (a.status.Retry? ==> gets != [] && a.gets == gets[1..])
  {
    if GetFileName(head).Success? && IsLegalFileName(GetFileName(head).value) {
      LegalNameResumes(head, fileLength, gets);
      ResumeConsumesAtMostOneGet(head, GetFileName(head).value, fileLength, gets);
    }
  }

  /** Download(arguments, headResponse). */
  method DownloadAttempt(head: HeadResponse, fileLength: nat, gets: seq<Reply<GetResponse>>) returns (a: Attempt)
    ensures a == AttemptSpec(head, fileLength, gets)
  {
    var fileName := GetFileName(head);
    if fileName.Failure? {
      return Attempt(Fatal(fileName.error), fileLength, [], gets);
    }
    if !IsLegalFileName(fileName.value) {
      return Attempt(Fatal(IllegalFileName(fileName.value)), fileLength, [SavingTo(fileName.value)], gets);
    }
    a := Resume(head, fileName.value, fileLength, gets);
  }

  /** Download(arguments, headResponse) after the file name check: the range request and the GET. */
  method Resume(head: HeadResponse, fileName: string, fileLength: nat, gets: seq<Reply<GetResponse>>) returns (a: Attempt)
    ensures a == ResumeSpec(head, fileName, fileLength, gets)
  {
    var fullLength := head.contentLength;
    var events := [SavingTo(fileName)];
    var range := None;
    if fileLength > 0 {
      if fileLength == head.contentLength {
        events := events + [AlreadyDownloaded];
        return Attempt(Done, fileLength, events, gets);
      }

      events := events + [RequestingRange(fileLength, head.contentLength)];
      if fileLength > fullLength {
        return Attempt(Fatal(InvalidRange(fileLength, fullLength)), fileLength, events, gets);
      }
      range := Some(ByteRange(fileLength, fullLength));
    }

    events := events + [GetIssued(range)];
    a := Fetch(fileLength, events, gets);
  }

  /** The GET of Download(arguments, headResponse) and the read loop that appends its response to the file. */
  method Fetch(fileLength: nat, planned: seq<LegacyEvent>, gets: seq<Reply<GetResponse>>) returns (a: Attempt)
    ensures a == FetchSpec(fileLength, planned, gets)
  {
    if gets == [] {
      return Attempt(Fatal(ScriptExhausted), fileLength, planned, []);
    }
    if gets[0].WebFailure? {
      return Attempt(Fatal(ProtocolError(gets[0].message)), fileLength, planned, gets[1..]);
    }
    var response := gets[0].response;
    var log := ReadResponse(response.stream, response.contentLength);
    var events := planned + log.events;
    var length := fileLength + log.downloaded;
    match log.end {
      case Finished =>
        return Attempt(Done, length, events + [Completed], gets[1..]);
      case Interrupted(m) =>
        return Attempt(Retry(m), length, events, gets[1..]);
      case Failed(e) =>
        return Attempt(Fatal(e), length, events, gets[1..]);
    }
  }

  // ---------------------------------------------------------------------
  // The retry loop.

  /** How a download ends, the file length it leaves and its events. */
  datatype Outcome = Outcome(result: Result<(), LegacyError>, fileLength: nat, events: seq<LegacyEvent>)

  function Prefixed(events: seq<LegacyEvent>, o: Outcome): Outcome {
    Outcome(o.result, o.fileLength, events + o.events)
  }

  lemma PrefixedTwice(first: seq<LegacyEvent>, second: seq<LegacyEvent>, o: Outcome)
    ensures Prefixed(first, Prefixed(second, o)) == Prefixed(first + second, o)
  {
    assert first + (second + o.events) == first + second + o.events;
  }

  /** The retry loop: attempts with the same HEAD response while the stream throws an IOException. */
  function RetrySpec(head: HeadResponse, fileLength: nat, gets: seq<Reply<GetResponse>>): Outcome
    decreases |gets|
  {
    var a := AttemptSpec(head, fileLength, gets);
    match a.status
    case Done => Outcome(Success(()), a.fileLength, a.events)
    case Fatal(e) => Outcome(Failure(e), a.fileLength, a.events)
    case Retry(m) => Prefixed(a.events + [Retrying(m)], RetrySpec(head, a.fileLength, a.gets))
  }

  /** Downloader.Download(arguments): the HEAD request, then the retry loop. */
  function DownloadSpec(head: Reply<HeadResponse>, gets: seq<Reply<GetResponse>>, fileLength: nat): Outcome {
    match head
    case WebFailure(m) => Outcome(Failure(ProtocolError(m)), fileLength, [HeadIssued])
    case Answered(h) =>
      if IsErrorStatus(h.status) then Outcome(Failure(HttpError(h.status)), fileLength, [HeadIssued])
      else Prefixed([HeadIssued], RetrySpec(h, fileLength, gets))
  }

  /** Downloader.Download(arguments). */
  method Download(head: Reply<HeadResponse>, gets: seq<Reply<GetResponse>>, fileLength: nat) returns (o: Outcome)
    ensures o == DownloadSpec(head, gets, fileLength)
  {
    if head.WebFailure? {
      return Outcome(Failure(ProtocolError(head.message)), fileLength, [HeadIssued]);
    }
    var headResponse := head.response;
    if IsErrorStatus(headResponse.status) {
      return Outcome(Failure(HttpError(headResponse.status)), fileLength, [HeadIssued]);
    }

    var events := [HeadIssued];
    var length := fileLength;
    var remaining := gets;
    while true
      invariant DownloadSpec(head, gets, fileLength) == Prefixed(events, RetrySpec(headResponse, length, remaining))
      decreases |remaining|
    {
      var a := DownloadAttempt(headResponse, length, remaining);
      if a.status.Retry? {
        var reported := a.events + [Retrying(a.status.message)];
        assert RetrySpec(headResponse, length, remaining)
          == Prefixed(reported, RetrySpec(headResponse, a.fileLength, a.gets));
        PrefixedTwice(events, reported, RetrySpec(headResponse, a.fileLength, a.gets));
        events := events + reported;
        length := a.fileLength;
        remaining := a.gets;
        continue;
      }
      return Outcome(if a.status.Done? then Success(()) else Failure(a.status.error), a.fileLength, events + a.events);
    }
  }

  // ---------------------------------------------------------------------
  // Properties of the remaining-time text.

  lemma DigitsHaveNoSpace(n: nat)
    ensures ' ' !in NatToString(n)
  {
    var digits := NatToString(n);
    assert forall i :: 0 <= i < |digits| ==> digits[i] != ' ';
  }

  lemma SplitTwoWords(a: string, b: string)
    requires ' ' !in a && ' ' !in b
    ensures Split(a + " " + b, ' ') == [a, b]
  {
    SplitAppend(a, b, ' ');
    SplitWithoutSeparator(a, ' ');
    SplitWithoutSeparator(b, ' ');
  }

  lemma SplitFourWords(a: string, b: string, c: string, d: string)
    requires ' ' !in a && ' ' !in b && ' ' !in c && ' ' !in d
    ensures Split(a + " " + b + " " + c + " " + d, ' ') == [a, b, c, d]
  {
    assert a + " " + b + " " + c + " " + d == (a + " " + b) + [' '] + (c + " " + d);
    SplitAppend(a + " " + b, c + " " + d, ' ');
    SplitTwoWords(a, b);
    SplitTwoWords(c, d);
  }

  lemma DaysHoursText(a: string, c: string)
    ensures a + " days " + c + " hours" == a + " " + "days" + " " + c + " " + "hours"
  {
    assert " " + "days" + " " == " days ";
    assert " " + "hours" == " hours";
  }

  lemma HoursMinutesText(a: string, c: string)
    ensures a + " hours " + c + " minutes" == a + " " + "hours" + " " + c + " " + "minutes"
  {
    assert " " + "hours" + " " == " hours ";
    assert " " + "minutes" == " minutes";
  }

  lemma DaysHoursWords(t: TimeSpan)
    requires t.ms >= MsPerDay
    ensures Split(FormatRemainingTime(t), ' ') == Words(ShownOf(t))
  {
    var a, c := NatToString(t.Days()), NatToString(t.Hours());
    DaysHoursText(a, c);
    DigitsHaveNoSpace(t.Days());
    DigitsHaveNoSpace(t.Hours());
    SplitFourWords(a, "days", c, "hours");
  }

  lemma HoursInDay(ms: nat)
    requires ms < MsPerDay
    ensures ms / MsPerHour < 24
  {
    var h := ms / MsPerHour;
    assert h * MsPerHour <= ms;
  }

  lemma HoursMinutesWords(t: TimeSpan)
    requires MsPerHour <= t.ms < MsPerDay
    ensures Split(FormatRemainingTime(t), ' ') == Words(ShownOf(t))
  {
    var a, c := NatToString(t.Hours()), NatToString(t.Minutes());
    HoursInDay(t.ms);
    assert ShownOf(t) == HoursMinutes(t.Hours(), t.Minutes());
    HoursMinutesText(a, c);
    DigitsHaveNoSpace(t.Hours());
    DigitsHaveNoSpace(t.Minutes());
    SplitFourWords(a, "hours", c, "minutes");
  }

  lemma MinutesText(a: string)
    ensures a + " minutes" == a + " " + "minutes"
  {
    assert " " + "minutes" == " minutes";
  }

  lemma SecondsText(a: string)
    ensures a + " seconds" == a + " " + "seconds"
  {
    assert " " + "seconds" == " seconds";
  }

  lemma MinutesInHour(ms: nat)
    requires ms < MsPerHour
    ensures ms / MsPerMinute < 60
  {
    var m := ms / MsPerMinute;
    assert m * MsPerMinute <= ms;
  }

  lemma MinutesWords(t: TimeSpan)
    requires MsPerMinute <= t.ms < MsPerHour
    ensures Split(FormatRemainingTime(t), ' ') == Words(ShownOf(t))
  {
    var a := NatToString(t.Minutes());
    MinutesInHour(t.ms);
    assert ShownOf(t) == MinutesOnly(t.Minutes());
    MinutesText(a);
    DigitsHaveNoSpace(t.Minutes());
    SplitTwoWords(a, "minutes");
  }

  lemma SecondsWords(t: TimeSpan)
    requires t.ms < MsPerMinute
    ensures Split(FormatRemainingTime(t), ' ') == Words(ShownOf(t))
  {
    var a := NatToString(t.Seconds());
    assert t.ms / MsPerSecond < 60;
    SecondsText(a);
    DigitsHaveNoSpace(t.Seconds());
    SplitTwoWords(a, "seconds");
  }

  /** The text splits at its spaces into the words of what it shows. */
  lemma FormatShowsWords(t: TimeSpan)
    ensures Split(FormatRemainingTime(t), ' ') == Words(ShownOf(t))
  {
    if t.ms >= MsPerDay {
      DaysHoursWords(t);
    } else if t.ms >= MsPerHour {
      HoursMinutesWords(t);
    } else if t.ms >= MsPerMinute {
      MinutesWords(t);
    } else {
      SecondsWords(t);
    }
  }

  lemma WordsInjective(s1: Shown, s2: Shown)
    requires Words(s1) == Words(s2)
    ensures s1 == s2
  {
    var w := Words(s1);
    assert w[1] == Words(s2)[1];
    match s1
    case DaysHours(d, h) =>
      NatToStringInjective(d, s2.days);
      NatToStringInjective(h, s2.hours);
    case HoursMinutes(h, m) =>
      NatToStringInjective(h, s2.hours);
      NatToStringInjective(m, s2.minutes);
    case MinutesOnly(m) =>
      NatToStringInjective(m, s2.minutes);
    case SecondsOnly(sec) =>
      NatToStringInjective(sec, s2.seconds);
  }

  /** Two time spans give the same text exactly when they show the same units and values. */
  lemma SameTextSameShown(a: TimeSpan, b: TimeSpan)
    ensures FormatRemainingTime(a) == FormatRemainingTime(b) <==> ShownOf(a) == ShownOf(b)
  {
    FormatShowsWords(a);
    FormatShowsWords(b);
    if FormatRemainingTime(a) == FormatRemainingTime(b) {
      WordsInjective(ShownOf(a), ShownOf(b));
    }
    if ShownOf(a) == ShownOf(b) {
      assert ShownOf(a).DaysHours? <==> a.ms >= MsPerDay;
      assert ShownOf(b).DaysHours? <==> b.ms >= MsPerDay;
    }
  }

  /**
   * ReportRemainingTime after reporting `t` writes again exactly when `u`
   * shows different units or values; reporting the same time twice writes
   * nothing the second time.
   */
  lemma ReportsOnlyChanges(t: TimeSpan, u: TimeSpan)
    ensures RemainingReport(u, Some(FormatRemainingTime(t))).Some? <==> ShownOf(u) != ShownOf(t)
    ensures RemainingReport(t, Some(FormatRemainingTime(t))) == None
  {
    SameTextSameShown(t, u);
  }

  /** The text for a day and more. */
  lemma FormatDaysExample()
    ensures FormatRemainingTime(TimeSpan(90061000)) == "1 days 1 hours"
  {
    assert TimeSpan(90061000).Days() == 1 && TimeSpan(90061000).Hours() == 1;
  }

  /** The text for an hour and more. */
  lemma FormatHoursExample()
    ensures FormatRemainingTime(TimeSpan(3723000)) == "1 hours 2 minutes"
  {
    assert TimeSpan(3723000).Hours() == 1 && TimeSpan(3723000).Minutes() == 2;
  }

  /** The texts for a minute and more, and for less. */
  lemma FormatShortExamples()
    ensures FormatRemainingTime(TimeSpan(125000)) == "2 minutes"
    ensures FormatRemainingTime(TimeSpan(59999)) == "59 seconds"
  {
    assert TimeSpan(125000).Minutes() == 2;
    assert TimeSpan(59999).Seconds() == 59;
    assert NatToString(59) == NatToString(5) + [DigitChar(9)];
  }

  // ---------------------------------------------------------------------
  // Properties of the read loop and the attempts.

  /** No two neighbouring events are equal. */
  predicate NoAdjacentRepeats(events: seq<LegacyEvent>) {
    forall j :: 0 <= j < |events| - 1 ==> events[j] != events[j + 1]
  }

  lemma PrependKeepsNoAdjacentRepeats(e: LegacyEvent, events: seq<LegacyEvent>)
    requires NoAdjacentRepeats(events)
    requires events == [] || events[0] != e
    ensures NoAdjacentRepeats([e] + events)
  {
    var all := [e] + events;
    forall j | 0 <= j < |all| - 1
      ensures all[j] != all[j + 1]
    {
      if j > 0 {
        assert all[j] == events[j - 1] && all[j + 1] == events[j];
      }
    }
  }

  /** Only remaining times, no text twice in a row, and a first text other than the one reported before. */
  predicate FreshReports(events: seq<LegacyEvent>, lastReported: Option<string>) {
    && (forall e :: e in events ==> e.Remaining?)
    && (events != [] && lastReported.Some? ==> events[0] != Remaining(lastReported.value))
    && NoAdjacentRepeats(events)
  }

  /** One report, made only when its text differs from the last one, keeps the reports fresh. */
  lemma ReportKeepsFresh(formatted: string, lastReported: Option<string>, report: Option<string>, rest: seq<LegacyEvent>)
    requires FreshReports(rest, Some(formatted))
    requires report.Some? <==> lastReported != Some(formatted)
    requires report.Some? ==> report.value == formatted
    ensures FreshReports(ReportEvents(report) + rest, lastReported)
  {
    if report.Some? {
      assert ReportEvents(report) + rest == [Remaining(formatted)] + rest;
      PrependKeepsNoAdjacentRepeats(Remaining(formatted), rest);
    } else {
      assert ReportEvents(report) + rest == rest;
    }
  }

  /** A turn of the read loop that reports after fresh reports from the next read on keeps them fresh. */
  lemma FreshAfterTurn(stream: seq<Read>, length: int, downloaded: nat, total: nat, lastReported: Option<string>, t: TimeSpan)
    requires downloaded < length && stream != [] && stream[0].Data?
    requires total == downloaded + Received(stream[0], Min(length - downloaded, BufferSize))
    requires RemainingTime(length - total, stream[0].elapsedMs, total) == Success(t)
    requires FreshReports(ReadLoop(stream[1..], length, total, Some(FormatRemainingTime(t))).events, Some(FormatRemainingTime(t)))
    ensures FreshReports(ReadLoop(stream, length, downloaded, lastReported).events, lastReported)
  {
    ReadLoopStep(stream, length, 0, downloaded, total, lastReported, t);
    assert stream[0..] == stream;
    var rest := ReadLoop(stream[1..], length, total, Some(FormatRemainingTime(t)));
    ReportKeepsFresh(FormatRemainingTime(t), lastReported, RemainingReport(t, lastReported), rest.events);
  }

  /**
   * The read loop reports only remaining times, never the same text twice in
   * a row, and its first report differs from the one made before it.
   */
  lemma {:induction false} ReportsNeverRepeat(stream: seq<Read>, length: int, downloaded: nat, lastReported: Option<string>)
    ensures FreshReports(ReadLoop(stream, length, downloaded, lastReported).events, lastReported)
    decreases |stream|
  {
    if downloaded < length && stream != [] && stream[0].Data? {
      var total := downloaded + Received(stream[0], Min(length - downloaded, BufferSize));
      var r := RemainingTime(length - total, stream[0].elapsedMs, total);
      if r.Success? {
        ReportsNeverRepeat(stream[1..], length, total, Some(FormatRemainingTime(r.value)));
        FreshAfterTurn(stream, length, downloaded, total, lastReported, r.value);
      }
    }
  }

  /**
   * A GET response without a length (ContentLength -1) or with length 0 is
   * not read at all: the attempt reports completion, and the file is as it was.
   */
  lemma ResponseWithoutLengthWritesNothing(head: HeadResponse, fileLength: nat, gets: seq<Reply<GetResponse>>)
    requires GetFileName(head).Success? && IsLegalFileName(GetFileName(head).value)
    requires fileLength == 0 || fileLength < head.contentLength
    requires gets != [] && gets[0].Answered? && gets[0].response.contentLength <= 0
    ensures var a := AttemptSpec(head, fileLength, gets);
      && a.status == Done
      && a.fileLength == fileLength
      && a.events[|a.events| - 1] == Completed
  {
    LegalNameResumes(head, fileLength, gets);
    var response := gets[0].response;
    assert ReadLoop(response.stream, response.contentLength, 0, None) == ReadLog(0, [], Finished);
  }

  /** The bytes the read loop takes in when every read delivers all it asks for. */
  lemma {:induction false} GenerousStreamCompletes(stream: seq<Read>, length: int, downloaded: nat, lastReported: Option<string>)
    requires downloaded <= length
    requires forall i :: 0 <= i < |stream| ==> stream[i].Data? && stream[i].available >= BufferSize
    requires |stream| * BufferSize >= length - downloaded
    requires forall i :: 0 <= i < |stream| ==> length * stream[i].elapsedMs < MaxMilliseconds
    ensures ReadLoop(stream, length, downloaded, lastReported).end.Finished?
    ensures ReadLoop(stream, length, downloaded, lastReported).downloaded == length
    decreases |stream|
  {
    if downloaded < length {
      var total := downloaded + Received(stream[0], Min(length - downloaded, BufferSize));
      assert total == downloaded + Min(length - downloaded, BufferSize);
      assert total > 0;
      var r := RemainingTime(length - total, stream[0].elapsedMs, total);
      ProductBelow(length - total, length, stream[0].elapsedMs);
      EstimateFits(length - total, stream[0].elapsedMs, total);
      GenerousStreamCompletes(stream[1..], length, total, Some(FormatRemainingTime(r.value)));
    }
  }

  lemma ProductBelow(a: nat, b: nat, c: nat)
    requires a <= b
    ensures a * c <= b * c
  {
  }

  /** An estimate below the TimeSpan maximum fits once something is downloaded. */
  lemma EstimateFits(remaining: nat, elapsedMs: nat, downloaded: nat)
    requires downloaded > 0 && remaining * elapsedMs < MaxMilliseconds
    ensures RemainingTime(remaining, elapsedMs, downloaded).Success?
  {
    assert 2 * MaxMilliseconds * downloaded >= 2 * MaxMilliseconds + 2 * (downloaded - 1)
      by { ProductBelow(1, downloaded, 2 * MaxMilliseconds); }
  }

  /** A name FileInfo refuses ends the attempt right after it is reported, with no GET and no change. */
  lemma IllegalNameIssuesNoGet(head: HeadResponse, fileLength: nat, gets: seq<Reply<GetResponse>>)
    requires GetFileName(head).Success? && !IsLegalFileName(GetFileName(head).value)
    ensures var name := GetFileName(head).value;
      AttemptSpec(head, fileLength, gets) == Attempt(Fatal(IllegalFileName(name)), fileLength, [SavingTo(name)], gets)
  {
  }

  /** A file as long as the HEAD response announces is not fetched: no GET, no change. */
  lemma AlreadyDownloadedIssuesNoGet(head: HeadResponse, fileLength: nat, gets: seq<Reply<GetResponse>>)
    requires GetFileName(head).Success? && IsLegalFileName(GetFileName(head).value)
    requires 0 < fileLength == head.contentLength
    ensures var a := AttemptSpec(head, fileLength, gets);
      && a == Attempt(Done, fileLength, [SavingTo(GetFileName(head).value), AlreadyDownloaded], gets)
      && forall e :: e in a.events ==> !e.GetIssued?
  {
    LegalNameResumes(head, fileLength, gets);
  }

  /**
   * Any other non-empty file is resumed with a range from its length: there
   * is no check for a file larger than the server's, and AddRange rejects
   * that range before any GET.
   */
  lemma ExistingFileGetsRange(head: HeadResponse, fileLength: nat, gets: seq<Reply<GetResponse>>)
    requires GetFileName(head).Success? && IsLegalFileName(GetFileName(head).value)
    requires fileLength > 0 && fileLength != head.contentLength
    ensures var a := AttemptSpec(head, fileLength, gets);
      && a.events[1] == RequestingRange(fileLength, head.contentLength)
      && (fileLength < head.contentLength ==> a.events[2] == GetIssued(Some(ByteRange(fileLength, head.contentLength))))
      && (fileLength > head.contentLength ==>
            a == Attempt(Fatal(InvalidRange(fileLength, head.contentLength)), fileLength, a.events, gets)
            && forall e :: e in a.events ==> !e.GetIssued?)
  {
    LegalNameResumes(head, fileLength, gets);
    ResumeGetsRange(head, GetFileName(head).value, fileLength, gets);
  }

  lemma ResumeGetsRange(head: HeadResponse, fileName: string, fileLength: nat, gets: seq<Reply<GetResponse>>)
    requires fileLength > 0 && fileLength != head.contentLength
    ensures var a := ResumeSpec(head, fileName, fileLength, gets);
      && a.events[1] == RequestingRange(fileLength, head.contentLength)
      && (fileLength < head.contentLength ==> a.events[2] == GetIssued(Some(ByteRange(fileLength, head.contentLength))))
      && (fileLength > head.contentLength ==>
            a == Attempt(Fatal(InvalidRange(fileLength, head.contentLength)), fileLength, a.events, gets)
            && forall e :: e in a.events ==> !e.GetIssued?)
  {
    var saving := [SavingTo(fileName)];
    var requesting := [RequestingRange(fileLength, head.contentLength)];
    if fileLength < head.contentLength {
      var planned := saving + requesting + [GetIssued(Some(ByteRange(fileLength, head.contentLength)))];
      assert ResumeSpec(head, fileName, fileLength, gets) == FetchSpec(fileLength, planned, gets);
    }
  }

  /**
   * A resumed attempt whose response holds exactly the rest of the file and
   * is read to its end leaves the file complete, so the next attempt finds
   * it already downloaded.
   */
  lemma CompletedResumeIsNotFetchedAgain(head: HeadResponse, fileLength: nat, gets: seq<Reply<GetResponse>>, later: seq<Reply<GetResponse>>)
    requires GetFileName(head).Success? && IsLegalFileName(GetFileName(head).value)
    requires 0 < fileLength < head.contentLength
    requires gets != [] && gets[0].Answered?
    requires gets[0].response.contentLength == head.contentLength - fileLength
    requires ReadLoop(gets[0].response.stream, gets[0].response.contentLength, 0, None).end.Finished?
    ensures var a := AttemptSpec(head, fileLength, gets);
      && a.status == Done
      && a.fileLength == head.contentLength
      && AttemptSpec(head, a.fileLength, later) == Attempt(Done, head.contentLength, [SavingTo(GetFileName(head).value), AlreadyDownloaded], later)
  {
    var a := AttemptSpec(head, fileLength, gets);
    LegalNameResumes(head, fileLength, gets);
    ResumeCompletes(head, GetFileName(head).value, fileLength, gets);
    assert a.status == Done && a.fileLength == head.contentLength;
    AlreadyDownloadedIssuesNoGet(head, head.contentLength, later);
  }

  lemma ResumeCompletes(head: HeadResponse, fileName: string, fileLength: nat, gets: seq<Reply<GetResponse>>)
    requires 0 < fileLength < head.contentLength
    requires gets != [] && gets[0].Answered?
    requires gets[0].response.contentLength == head.contentLength - fileLength
    requires ReadLoop(gets[0].response.stream, gets[0].response.contentLength, 0, None).end.Finished?
    ensures var a := ResumeSpec(head, fileName, fileLength, gets);
      a.status == Done && a.fileLength == head.contentLength
  {
    var response := gets[0].response;
    var log := ReadLoop(response.stream, response.contentLength, 0, None);
    assert log.downloaded == response.contentLength;
    var planned := [SavingTo(fileName)] + [RequestingRange(fileLength, head.contentLength)]
      + [GetIssued(Some(ByteRange(fileLength, head.contentLength)))];
    assert ResumeSpec(head, fileName, fileLength, gets) == FetchSpec(fileLength, planned, gets);
  }

  /** An attempt never issues a HEAD request. */
  lemma AttemptIssuesNoHead(head: HeadResponse, fileLength: nat, gets: seq<Reply<GetResponse>>)
    ensures HeadIssued !in AttemptSpec(head, fileLength, gets).events
  {
    if GetFileName(head).Success? {
      var fileName := GetFileName(head).value;
      if IsLegalFileName(fileName) {
        LegalNameResumes(head, fileLength, gets);
        ResumeIssuesNoHead(head, fileName, fileLength, gets);
      }
    }
  }

  lemma ResumeIssuesNoHead(head: HeadResponse, fileName: string, fileLength: nat, gets: seq<Reply<GetResponse>>)
    ensures HeadIssued !in ResumeSpec(head, fileName, fileLength, gets).events
  {
    if !(fileLength > 0 && fileLength >= head.contentLength) {
      var range := if fileLength > 0 then Some(ByteRange(fileLength, head.contentLength)) else None;
      var planned := [SavingTo(fileName)] + (if fileLength > 0 then [RequestingRange(fileLength, head.contentLength)] else []) + [GetIssued(range)];
      FetchIssuesNoHead(fileLength, planned, gets);
    }
  }

  lemma FetchIssuesNoHead(fileLength: nat, planned: seq<LegacyEvent>, gets: seq<Reply<GetResponse>>)
    requires HeadIssued !in planned
    ensures HeadIssued !in FetchSpec(fileLength, planned, gets).events
  {
    if gets != [] && gets[0].Answered? {
      var response := gets[0].response;
      ReportsNeverRepeat(response.stream, response.contentLength, 0, None);
      assert HeadIssued !in ReadLoop(response.stream, response.contentLength, 0, None).events;
    }
  }

  /** The retry loop reuses the one HEAD response: it issues no HEAD request however often it retries. */
  lemma {:induction false} RetryIssuesNoHead(head: HeadResponse, fileLength: nat, gets: seq<Reply<GetResponse>>)
    ensures HeadIssued !in RetrySpec(head, fileLength, gets).events
    decreases |gets|
  {
    var a := AttemptSpec(head, fileLength, gets);
    AttemptIssuesNoHead(head, fileLength, gets);
    if a.status.Retry? {
      RetryIssuesNoHead(head, a.fileLength, a.gets);
      RetryUnfolds(head, fileLength, gets, a);
      var rest := RetrySpec(head, a.fileLength, a.gets);
      assert RetrySpec(head, fileLength, gets).events == a.events + [Retrying(a.status.message)] + rest.events;
    }
  }

  lemma RetryUnfolds(head: HeadResponse, fileLength: nat, gets: seq<Reply<GetResponse>>, a: Attempt)
    requires a == AttemptSpec(head, fileLength, gets) && a.status.Retry?
    ensures RetrySpec(head, fileLength, gets) == Prefixed(a.events + [Retrying(a.status.message)], RetrySpec(head, a.fileLength, a.gets))
  {
  }

  /** A download issues exactly one HEAD request, before anything else. */
  lemma DownloadIssuesOneHead(head: Reply<HeadResponse>, gets: seq<Reply<GetResponse>>, fileLength: nat)
    ensures var o := DownloadSpec(head, gets, fileLength);
      o.events != [] && o.events[0] == HeadIssued && HeadIssued !in o.events[1..]
  {
    if head.Answered? && !IsErrorStatus(head.response.status) {
      RetryIssuesNoHead(head.response, fileLength, gets);
      var o := DownloadSpec(head, gets, fileLength);
      assert o.events[1..] == RetrySpec(head.response, fileLength, gets).events;
    }
  }

  /**
   * The retry loop goes on only after an IOException: an attempt that stops
   * at one is followed by an attempt on the grown file, which asks for the
   * range from the new length.
   */
  lemma InterruptedAttemptResumes(head: HeadResponse, fileLength: nat, gets: seq<Reply<GetResponse>>)
    requires GetFileName(head).Success? && IsLegalFileName(GetFileName(head).value)
    requires AttemptSpec(head, fileLength, gets).status.Retry?
    ensures var a := AttemptSpec(head, fileLength, gets);
      && RetrySpec(head, fileLength, gets) == Prefixed(a.events + [Retrying(a.status.message)], RetrySpec(head, a.fileLength, a.gets))
      && (0 < a.fileLength < head.contentLength ==>
            AttemptSpec(head, a.fileLength, a.gets).events[2] == GetIssued(Some(ByteRange(a.fileLength, head.contentLength))))
  {
    var a := AttemptSpec(head, fileLength, gets);
    if 0 < a.fileLength < head.contentLength {
      ExistingFileGetsRange(head, a.fileLength, a.gets);
    }
  }

  /** Retries never lose downloaded bytes. */
  lemma {:induction false} RetryNeverShrinksFile(head: HeadResponse, fileLength: nat, gets: seq<Reply<GetResponse>>)
    ensures RetrySpec(head, fileLength, gets).fileLength >= fileLength
    decreases |gets|
  {
    var a := AttemptSpec(head, fileLength, gets);
    if a.status.Retry? {
      RetryNeverShrinksFile(head, a.fileLength, a.gets);
    }
  }
}
