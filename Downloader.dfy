/**
 * The resumable downloader (LightGet/Logic/Downloader.cs): a HEAD request
 * that follows redirects, then GET attempts repeated while the response
 * stream fails, each planned from the length the local file has reached.
 * The file that the mapping delegate picks is represented by its length
 * (0 when it does not exist); reports to the options' callbacks are events.
 */
module Downloader {
  import opened Wrappers
  import opened Uris
  import opened Http

  const OK: nat := 200
  const MovedPermanently: nat := 301
  const Redirect: nat := 302
  const TemporaryRedirect: nat := 307

  /** Downloader.IsRedirect. */
  predicate IsRedirect(status: nat) {
    status == MovedPermanently || status == Redirect || status == TemporaryRedirect
  }

  datatype FileMode = Append | OpenOrCreate

  /** DownloaderProgress, with the elapsed time in milliseconds. */
  datatype DownloaderProgress = DownloaderProgress(
    bytesTotal: int,
    bytesDownloadedBefore: nat,
    bytesDownloaded: nat,
    elapsedMs: nat)
  {
    function BytesRemaining(): int {
      bytesTotal - bytesDownloaded - bytesDownloadedBefore
    }
  }

  /** The messages passed to ReportMessage. */
  datatype Note =
    | Target(fileName: Option<string>)
    | AlreadyDownloaded
    | RequestingRange(from: nat, to: int)
    | RefetchWithoutLength
    | RefetchLarger
    | Completed

  datatype Event =
    | HeadIssued(url: Uri)
    | GetIssued(url: Uri, range: Option<ByteRange>)
    | Message(note: Note)
    | Error(message: string)
    | Progress(progress: DownloaderProgress)

  /** DownloaderResult(url, file, contentType); the file is named by the file name given to the mapping delegate. */
  datatype DownloaderResult = DownloaderResult(url: Uri, fileName: Option<string>, contentType: Option<string>)

  datatype DownloadError =
    | MissingLocation               // a redirect without a Location header
    | InvalidLocation(location: string)  // UriFormatException from new Uri(location)
    | UnsupportedStatus(status: nat)     // NotSupportedException
    | HttpError(status: nat)        // WebException for an error status
    | ProtocolError(message: string)     // any other WebException from GetResponse
    | MalformedContentDisposition   // FormatException from new ContentDisposition
    | MalformedContentType          // exception from new ContentType
    | ScriptExhausted               // more requests than the script answers

  /** Downloader.GetFileName: the disposition's file name, or none. */
  function GetFileName(d: Disposition): (r: Result<Option<string>, DownloadError>)
    ensures r.Failure? <==> d.MalformedDisposition?
    ensures r.Success? && r.value.Some? <==> d.Disposition? && d.fileName != []
    ensures r.Success? && r.value.Some? ==> r.value.value == d.fileName
  {
    match d
    case NoDisposition => Success(None)
    case MalformedDisposition => Failure(MalformedContentDisposition)
    case Disposition(name) => if name == [] then Success(None) else Success(Some(name))
  }

  // ---------------------------------------------------------------------
  // One attempt: the resume plan, the GET and the copy loop.

  datatype Plan =
    | AlreadyComplete
    | Fetch(range: Option<ByteRange>, mode: FileMode, before: nat, note: Option<Note>)

  /** How an attempt proceeds from the file's length and the length the HEAD response announced. */
  function PlanFor(fileLength: nat, fullLength: int): (p: Plan)
    ensures p.AlreadyComplete? <==> fileLength > 0 && fileLength == fullLength
    ensures p.Fetch? && p.range.Some? <==> 0 < fileLength < fullLength
    ensures p.Fetch? && p.range.Some? ==>
      p.range.value == ByteRange(fileLength, fullLength) && p.mode == Append && p.before == fileLength
    ensures p.Fetch? && p.range.None? ==> p.before == 0
    ensures p.Fetch? && p.mode == OpenOrCreate <==> 0 < fileLength && fullLength < fileLength
    ensures p.Fetch? ==> (p.note.None? <==> fileLength == 0)
  {
    if fileLength > 0 then
      if fileLength == fullLength then AlreadyComplete
      else if fileLength < fullLength then
        Fetch(Some(ByteRange(fileLength, fullLength)), Append, fileLength, Some(RequestingRange(fileLength, fullLength)))
      else if fullLength <= 0 then Fetch(None, OpenOrCreate, 0, Some(RefetchWithoutLength))
      else Fetch(None, OpenOrCreate, 0, Some(RefetchLarger))
    else
      Fetch(None, Append, 0, None)
  }

  /** The length of the file after `written` bytes went to it: Append adds them, OpenOrCreate overwrites from the start without truncating. */
  function LengthAfter(mode: FileMode, fileLength: nat, written: nat): (length: nat)
    ensures length >= fileLength && length >= written
    ensures mode == Append ==> length == fileLength + written
    ensures mode == OpenOrCreate ==> length <= fileLength || length == written
  {
    match mode
    case Append => fileLength + written
    case OpenOrCreate => if written <= fileLength then fileLength else written
  }

  /** The bytes one read of the copy loop delivers into the 1024-byte buffer. */
  function Chunk(r: Read): nat {
    Received(r, BufferSize)
  }

  /** What the copy loop did: bytes written, progress reports, and the IOException that ended it, if one did. */
  datatype Copy = Copy(written: nat, events: seq<Event>, failure: Option<string>)

  /** The number of reads before the copy loop stops: the first IOException or empty read, or the end of the stream. */
  function StopIndex(stream: seq<Read>): (k: nat)
    ensures k <= |stream|
  {
    if stream == [] || stream[0].IoFailure? || Chunk(stream[0]) == 0 then 0
    else 1 + StopIndex(stream[1..])
  }

  /** The copy loop from a running total of `total` bytes: it stops at the first empty read, at an IOException or at the end of the stream. */
  function CopyFrom(stream: seq<Read>, fullLength: int, before: nat, total: nat): (c: Copy)
    ensures c.written >= total
    ensures |c.events| == StopIndex(stream)
  {
    if stream == [] then Copy(total, [], None)
    else if stream[0].IoFailure? then Copy(total, [], Some(stream[0].message))
    else if Chunk(stream[0]) == 0 then Copy(total, [], None)
    else
      var downloaded := total + Chunk(stream[0]);
      var rest := CopyFrom(stream[1..], fullLength, before, downloaded);
      var progress := DownloaderProgress(fullLength, before, downloaded, stream[0].elapsedMs);
      Copy(rest.written, [Progress(progress)] + rest.events, rest.failure)
  }

  /** The events and written bytes of a run, with some events already reported in front. */
  function After(events: seq<Event>, c: Copy): Copy {
    Copy(c.written, events + c.events, c.failure)
  }

  datatype Status = Done(result: DownloaderResult) | Interrupted(message: string) | Fatal(error: DownloadError)

  /** An attempt's end, the file length it leaves, its events, and the GET replies still unused. */
  datatype Attempt = Attempt(status: Status, fileLength: nat, events: seq<Event>, gets: seq<Reply<GetResponse>>)

  function NoteEvents(note: Option<Note>): seq<Event> {
    if note.Some? then [Message(note.value)] else []
  }

  /** What an attempt reports before it reads the response: the target file, the plan's message and the GET. */
  function Planned(url: Uri, fileName: Option<string>, range: Option<ByteRange>, note: Option<Note>): seq<Event> {
    [Message(Target(fileName))] + NoteEvents(note) + [GetIssued(url, range)]
  }

  /** Download(url, headResponse, options): one attempt against the file as it is. */
  function AttemptSpec(url: Uri, head: HeadResponse, fileLength: nat, gets: seq<Reply<GetResponse>>): (a: Attempt)
    ensures a.gets == gets || (gets != [] && a.gets == gets[1..])
    ensures a.status.Interrupted? ==> gets != [] && a.gets == gets[1..]
    ensures |a.gets| <= |gets|
    ensures a.status.Interrupted? ==> |a.gets| < |gets|
    ensures a.fileLength >= fileLength
  {
    match GetFileName(head.disposition)
    case Failure(e) => Attempt(Fatal(e), fileLength, [], gets)
    case Success(fileName) =>
      var target := [Message(Target(fileName))];
      match PlanFor(fileLength, head.contentLength)
      case AlreadyComplete =>
        Attempt(Done(DownloaderResult(url, fileName, head.contentType)), fileLength, target + [Message(AlreadyDownloaded)], gets)
      case Fetch(range, mode, before, note) =>
        var planned := Planned(url, fileName, range, note);
        if gets == [] then Attempt(Fatal(ScriptExhausted), fileLength, planned, [])
        else
          match gets[0]
          case WebFailure(m) => Attempt(Fatal(ProtocolError(m)), fileLength, planned, gets[1..])
          case Answered(response) =>
            var copy := CopyFrom(response.stream, head.contentLength, before, 0);
            var length := LengthAfter(mode, fileLength, copy.written);
            var copied := planned + copy.events;
            if copy.failure.Some? then
              Attempt(Interrupted(copy.failure.value), length, copied, gets[1..])
            else if head.mediaType.None? then
              Attempt(Fatal(MalformedContentType), length, copied + [Message(Completed)], gets[1..])
            else
              Attempt(Done(DownloaderResult(url, fileName, head.mediaType)), length, copied + [Message(Completed)], gets[1..])
  }

  /** The copy loop of Download(url, headResponse, options): read into the 1024-byte buffer, write, report progress. */
  method CopyStream(stream: seq<Read>, fullLength: int, lengthDownloadedBefore: nat) returns (c: Copy)
    ensures c == CopyFrom(stream, fullLength, lengthDownloadedBefore, 0)
  {
    var downloadedTotal: nat := 0;
    var progress := [];
    var i := 0;
    while i < |stream|
      invariant 0 <= i <= |stream|
      invariant CopyFrom(stream, fullLength, lengthDownloadedBefore, 0)
        == After(progress, CopyFrom(stream[i..], fullLength, lengthDownloadedBefore, downloadedTotal))
      decreases |stream| - i
    {
      var read := stream[i];
      if read.IoFailure? {
        return Copy(downloadedTotal, progress, Some(read.message));
      }
      var count := Received(read, BufferSize);
      if count == 0 {
        break;
      }

      downloadedTotal := downloadedTotal + count;
      progress := progress + [Progress(DownloaderProgress(fullLength, lengthDownloadedBefore, downloadedTotal, read.elapsedMs))];
      i := i + 1;
    }
    return Copy(downloadedTotal, progress, None);
  }

  /** Download(url, headResponse, options): one attempt. */
  method DownloadAttempt(url: Uri, head: HeadResponse, fileLength: nat, gets: seq<Reply<GetResponse>>)
    returns (a: Attempt)
    ensures a == AttemptSpec(url, head, fileLength, gets)
  {
    var fullLength := head.contentLength;
    var fileName := GetFileName(head.disposition);
    if fileName.Failure? {
      return Attempt(Fatal(fileName.error), fileLength, [], gets);
    }
    var events := [Message(Target(fileName.value))];

    var lengthDownloadedBefore := 0;
    var fileMode := Append;
    var range := None;
    if fileLength > 0 {
      if fileLength == fullLength {
        events := events + [Message(AlreadyDownloaded)];
        return Attempt(Done(DownloaderResult(url, fileName.value, head.contentType)), fileLength, events, gets);
      }

      if fileLength < fullLength {
        events := events + [Message(RequestingRange(fileLength, fullLength))];
        range := Some(ByteRange(fileLength, fullLength));
        lengthDownloadedBefore := fileLength;
      } else if fullLength <= 0 {
        events := events + [Message(RefetchWithoutLength)];
        fileMode := OpenOrCreate;
      } else {
        events := events + [Message(RefetchLarger)];
        fileMode := OpenOrCreate;
      }
    }
    ghost var plan := PlanFor(fileLength, fullLength);
    assert plan == Fetch(range, fileMode, lengthDownloadedBefore, plan.note);
    assert events == [Message(Target(fileName.value))] + NoteEvents(plan.note);

    events := events + [GetIssued(url, range)];
    if gets == [] {
      return Attempt(Fatal(ScriptExhausted), fileLength, events, []);
    }
    if gets[0].WebFailure? {
      return Attempt(Fatal(ProtocolError(gets[0].message)), fileLength, events, gets[1..]);
    }
    var copy := CopyStream(gets[0].response.stream, fullLength, lengthDownloadedBefore);
    events := events + copy.events;

    var length := LengthAfter(fileMode, fileLength, copy.written);
    if copy.failure.Some? {
      return Attempt(Interrupted(copy.failure.value), length, events, gets[1..]);
    }

    events := events + [Message(Completed)];
    if head.mediaType.None? {
      return Attempt(Fatal(MalformedContentType), length, events, gets[1..]);
    }
    return Attempt(Done(DownloaderResult(url, fileName.value, head.mediaType)), length, events, gets[1..]);
  }

  // ---------------------------------------------------------------------
  // The retry loop and the redirects.

  /** What a download ends with, the file length it leaves and its events. */
  datatype Outcome = Outcome(result: Result<DownloaderResult, DownloadError>, fileLength: nat, events: seq<Event>)

  function Prefixed(events: seq<Event>, o: Outcome): Outcome {
    Outcome(o.result, o.fileLength, events + o.events)
  }

  lemma PrefixedTwice(first: seq<Event>, second: seq<Event>, o: Outcome)
    ensures Prefixed(first, Prefixed(second, o)) == Prefixed(first + second, o)
  {
    assert first + (second + o.events) == first + second + o.events;
  }

  /** The retry loop: attempts with the same HEAD response until one does not end in an IOException. */
  function RetrySpec(url: Uri, head: HeadResponse, fileLength: nat, gets: seq<Reply<GetResponse>>): Outcome
    decreases |gets|
  {
    var a := AttemptSpec(url, head, fileLength, gets);
    match a.status
    case Done(r) => Outcome(Success(r), a.fileLength, a.events)
    case Fatal(e) => Outcome(Failure(e), a.fileLength, a.events)
    case Interrupted(m) => Prefixed(a.events + [Error(m)], RetrySpec(url, head, a.fileLength, a.gets))
  }

  /** Download(url, options): one HEAD per URL of the redirect chain, then the retry loop. */
  function DownloadSpec(url: Uri, heads: seq<Reply<HeadResponse>>, gets: seq<Reply<GetResponse>>, fileLength: nat, parse: UriParser): Outcome
    decreases |heads|
  {
    var issued := [HeadIssued(url)];
    if heads == [] then Outcome(Failure(ScriptExhausted), fileLength, issued)
    else
      match heads[0]
      case WebFailure(m) => Outcome(Failure(ProtocolError(m)), fileLength, issued)
      case Answered(h) =>
        if IsErrorStatus(h.status) then Outcome(Failure(HttpError(h.status)), fileLength, issued)
        else if IsRedirect(h.status) then
          if h.location.None? || h.location.value == [] then Outcome(Failure(MissingLocation), fileLength, issued)
          else
            match parse(h.location.value)
            case Some(Absolute(next)) => Prefixed(issued, DownloadSpec(next, heads[1..], gets, fileLength, parse))
            case _ => Outcome(Failure(InvalidLocation(h.location.value)), fileLength, issued)
        else if h.status != OK then Outcome(Failure(UnsupportedStatus(h.status)), fileLength, issued)
        else Prefixed(issued, RetrySpec(url, h, fileLength, gets))
  }

  /** Downloader.Download(url, options). */
  method Download(url: Uri, heads: seq<Reply<HeadResponse>>, gets: seq<Reply<GetResponse>>, fileLength: nat, parse: UriParser)
    returns (o: Outcome)
    ensures o == DownloadSpec(url, heads, gets, fileLength, parse)
    decreases |heads|
  {
    var issued := [HeadIssued(url)];
    if heads == [] {
      return Outcome(Failure(ScriptExhausted), fileLength, issued);
    }
    if heads[0].WebFailure? {
      return Outcome(Failure(ProtocolError(heads[0].message)), fileLength, issued);
    }
    var headResponse := heads[0].response;
    if IsErrorStatus(headResponse.status) {
      return Outcome(Failure(HttpError(headResponse.status)), fileLength, issued);
    }

    if IsRedirect(headResponse.status) {
      var target := headResponse.location;
      if target.None? || target.value == [] {
        return Outcome(Failure(MissingLocation), fileLength, issued);
      }
      var next := parse(target.value);
      if !(next.Some? && next.value.Absolute?) {
        return Outcome(Failure(InvalidLocation(target.value)), fileLength, issued);
      }
      o := Download(next.value.uri, heads[1..], gets, fileLength, parse);
      return Prefixed(issued, o);
    }

    if headResponse.status != OK {
      return Outcome(Failure(UnsupportedStatus(headResponse.status)), fileLength, issued);
    }

    o := Retry(url, headResponse, fileLength, gets);
    return Prefixed(issued, o);
  }

  /** The retry loop of Download(url, options): attempts with the same HEAD response while the stream throws. */
  method Retry(url: Uri, headResponse: HeadResponse, fileLength: nat, gets: seq<Reply<GetResponse>>) returns (o: Outcome)
    ensures o == RetrySpec(url, headResponse, fileLength, gets)
  {
    var events := [];
    var length := fileLength;
    var remaining := gets;
    while true
      invariant RetrySpec(url, headResponse, fileLength, gets)
        == Prefixed(events, RetrySpec(url, headResponse, length, remaining))
      decreases |remaining|
    {
      var a := DownloadAttempt(url, headResponse, length, remaining);
      if a.status.Done? {
        return Outcome(Success(a.status.result), a.fileLength, events + a.events);
      }
      if a.status.Fatal? {
        return Outcome(Failure(a.status.error), a.fileLength, events + a.events);
      }
      var reported := a.events + [Error(a.status.message)];
      assert RetrySpec(url, headResponse, length, remaining)
        == Prefixed(reported, RetrySpec(url, headResponse, a.fileLength, a.gets));
      PrefixedTwice(events, reported, RetrySpec(url, headResponse, a.fileLength, a.gets));
      events := events + reported;
      length := a.fileLength;
      remaining := a.gets;
    }
  }

  // ---------------------------------------------------------------------
  // Properties.

  /** The bytes a list of reads delivers into the buffer. */
  function Delivered(stream: seq<Read>): nat {
    if stream == [] then 0 else Chunk(stream[0]) + Delivered(stream[1..])
  }

  lemma DeliveredFirst(stream: seq<Read>, n: nat)
    requires 1 <= n <= |stream|
    ensures Delivered(stream[..n]) == Chunk(stream[0]) + Delivered(stream[1..][..n - 1])
  {
    assert stream[..n][1..] == stream[1..][..n - 1];
  }

  /** The copy loop writes what the reads before it stopped delivered, and fails exactly when it stopped at an IOException. */
  lemma {:induction false} CopyWritesDelivered(stream: seq<Read>, fullLength: int, before: nat, total: nat)
    ensures var c := CopyFrom(stream, fullLength, before, total);
      var k := StopIndex(stream);
      && c.written == total + Delivered(stream[..k])
      && c.failure == (if k < |stream| && stream[k].IoFailure? then Some(stream[k].message) else None)
  {
    var k := StopIndex(stream);
    if stream == [] || stream[0].IoFailure? || Chunk(stream[0]) == 0 {
      assert stream[..0] == [];
    } else {
      CopyWritesDelivered(stream[1..], fullLength, before, total + Chunk(stream[0]));
      DeliveredFirst(stream, k);
      if k < |stream| {
        assert stream[1..][k - 1] == stream[k];
      }
    }
  }

  /** The j-th progress report of the copy loop carries the running total after read j and that read's elapsed time. */
  lemma {:induction false} CopyReportsRunningTotal(stream: seq<Read>, fullLength: int, before: nat, total: nat, j: nat)
    requires j < StopIndex(stream)
    ensures stream[j].Data?
    ensures CopyFrom(stream, fullLength, before, total).events[j]
      == Progress(DownloaderProgress(fullLength, before, total + Delivered(stream[..j + 1]), stream[j].elapsedMs))
  {
    var first := Chunk(stream[0]);
    DeliveredFirst(stream, j + 1);
    if j == 0 {
      assert stream[1..][..0] == [];
    } else {
      CopyReportsRunningTotal(stream[1..], fullLength, before, total + first, j - 1);
      assert stream[1..][j - 1] == stream[j];
    }
  }

  /** Every event of the copy loop is a progress report counting `before` bytes as downloaded earlier. */
  lemma {:induction false} CopyReportsOnlyProgress(stream: seq<Read>, fullLength: int, before: nat, total: nat)
    ensures forall e :: e in CopyFrom(stream, fullLength, before, total).events ==>
      e.Progress? && e.progress.bytesDownloadedBefore == before && e.progress.bytesTotal == fullLength
  {
    if !(stream == [] || stream[0].IoFailure? || Chunk(stream[0]) == 0) {
      CopyReportsOnlyProgress(stream[1..], fullLength, before, total + Chunk(stream[0]));
    }
  }

  /** An attempt that gets a response: the plan's events, the copy loop's, and the completion message unless the stream failed. */
  lemma FetchingAttempt(url: Uri, head: HeadResponse, fileLength: nat, gets: seq<Reply<GetResponse>>)
    requires GetFileName(head.disposition).Success?
    requires PlanFor(fileLength, head.contentLength).Fetch?
    requires gets != [] && gets[0].Answered?
    ensures var plan := PlanFor(fileLength, head.contentLength);
      var copy := CopyFrom(gets[0].response.stream, head.contentLength, plan.before, 0);
      var a := AttemptSpec(url, head, fileLength, gets);
      && a.fileLength == LengthAfter(plan.mode, fileLength, copy.written)
      && a.gets == gets[1..]
      && a.events == Planned(url, GetFileName(head.disposition).value, plan.range, plan.note) + copy.events
           + (if copy.failure.Some? then [] else [Message(Completed)])
      && (copy.failure.Some? <==> a.status.Interrupted?)
      && (copy.failure.Some? ==> a.status.message == copy.failure.value)
  {
  }

  /** A file already as long as the HEAD response announces is not fetched again: no GET, no change, the raw Content-Type. */
  lemma AlreadyCompleteIssuesNoGet(url: Uri, head: HeadResponse, fileLength: nat, gets: seq<Reply<GetResponse>>)
    requires 0 < fileLength == head.contentLength
    requires !head.disposition.MalformedDisposition?
    ensures var a := AttemptSpec(url, head, fileLength, gets);
      && a.status == Done(DownloaderResult(url, GetFileName(head.disposition).value, head.contentType))
      && a.fileLength == fileLength
      && a.gets == gets
      && forall e :: e in a.events ==> !e.GetIssued?
  {
  }

  /**
   * A shorter existing file is resumed: the GET asks for the range from its
   * length to the full length, progress counts the existing bytes as
   * downloaded before, and the file grows by exactly what the stream delivered.
   */
  lemma ResumeRequestsRemainder(url: Uri, head: HeadResponse, fileLength: nat, gets: seq<Reply<GetResponse>>)
    requires 0 < fileLength < head.contentLength
    requires !head.disposition.MalformedDisposition?
    requires gets != [] && gets[0].Answered?
    ensures var a := AttemptSpec(url, head, fileLength, gets);
      var stream := gets[0].response.stream;
      && GetIssued(url, Some(ByteRange(fileLength, head.contentLength))) in a.events
      && Message(RequestingRange(fileLength, head.contentLength)) in a.events
      && a.fileLength == fileLength + Delivered(stream[..StopIndex(stream)])
      && forall e :: e in a.events && e.Progress? ==> e.progress.bytesDownloadedBefore == fileLength
  {
    var stream := gets[0].response.stream;
    var range := Some(ByteRange(fileLength, head.contentLength));
    var note := Some(RequestingRange(fileLength, head.contentLength));
    FetchingAttempt(url, head, fileLength, gets);
    CopyWritesDelivered(stream, head.contentLength, fileLength, 0);
    CopyReportsOnlyProgress(stream, head.contentLength, fileLength, 0);
    var planned := Planned(url, GetFileName(head.disposition).value, range, note);
    assert planned[1] == Message(RequestingRange(fileLength, head.contentLength));
    assert planned[2] == GetIssued(url, range);
  }

  /**
   * Once a resumed attempt has delivered the rest of the file, its last
   * progress report shows nothing remaining, and another run with the same
   * HEAD response finds the file complete and issues no GET.
   */
  lemma CompletedResumeIsNotFetchedAgain(url: Uri, head: HeadResponse, fileLength: nat, gets: seq<Reply<GetResponse>>, later: seq<Reply<GetResponse>>)
    requires 0 < fileLength < head.contentLength
    requires !head.disposition.MalformedDisposition?
    requires gets != [] && gets[0].Answered?
    requires var stream := gets[0].response.stream;
      StopIndex(stream) == |stream| && Delivered(stream) == head.contentLength - fileLength
    ensures var a := AttemptSpec(url, head, fileLength, gets);
      && a.status.Done? == head.mediaType.Some?
      && a.fileLength == head.contentLength
      && a.events[|a.events| - 2].Progress?
      && a.events[|a.events| - 2].progress.BytesRemaining() == 0
      && AttemptSpec(url, head, a.fileLength, later).status.Done?
      && forall e :: e in AttemptSpec(url, head, a.fileLength, later).events ==> !e.GetIssued?
  {
    var stream := gets[0].response.stream;
    var k := StopIndex(stream);
    assert stream[..k] == stream;
    FetchingAttempt(url, head, fileLength, gets);
    CopyWritesDelivered(stream, head.contentLength, fileLength, 0);
    assert k > 0;
    CopyReportsRunningTotal(stream, head.contentLength, fileLength, 0, k - 1);
    assert stream[..k - 1 + 1] == stream;
    AlreadyCompleteIssuesNoGet(url, head, head.contentLength, later);
  }

  /**
   * A file longer than the server's is fetched again from the start without
   * a range, but FileMode.OpenOrCreate does not truncate it: when the server
   * sends no more than the file holds, the file keeps its old length, so the
   * next attempt again finds it larger than the server's and fetches it again.
   */
  lemma LargerFileKeepsItsLength(url: Uri, head: HeadResponse, fileLength: nat, gets: seq<Reply<GetResponse>>, later: seq<Reply<GetResponse>>)
    requires 0 < head.contentLength < fileLength
    requires !head.disposition.MalformedDisposition?
    requires gets != [] && gets[0].Answered?
    requires var stream := gets[0].response.stream;
      Delivered(stream[..StopIndex(stream)]) <= fileLength
    ensures var a := AttemptSpec(url, head, fileLength, gets);
      && GetIssued(url, None) in a.events
      && Message(RefetchLarger) in a.events
      && a.fileLength == fileLength
      && GetIssued(url, None) in AttemptSpec(url, head, a.fileLength, later).events
  {
    var stream := gets[0].response.stream;
    FetchingAttempt(url, head, fileLength, gets);
    CopyWritesDelivered(stream, head.contentLength, 0, 0);
    var planned := Planned(url, GetFileName(head.disposition).value, None, Some(RefetchLarger));
    assert planned[1] == Message(RefetchLarger) && planned[2] == GetIssued(url, None);
    var a := AttemptSpec(url, head, fileLength, gets);
    var next := AttemptSpec(url, head, a.fileLength, later);
    assert next.events[..3] == planned;
    assert next.events[2] == GetIssued(url, None);
  }

  /** An attempt issues GETs for its own URL and never a HEAD. */
  lemma AttemptIssuesNoHead(url: Uri, head: HeadResponse, fileLength: nat, gets: seq<Reply<GetResponse>>)
    ensures forall e :: e in AttemptSpec(url, head, fileLength, gets).events ==> !e.HeadIssued? && (e.GetIssued? ==> e.url == url)
  {
    if GetFileName(head.disposition).Success? {
      var plan := PlanFor(fileLength, head.contentLength);
      if plan.Fetch? && gets != [] && gets[0].Answered? {
        FetchingAttempt(url, head, fileLength, gets);
        CopyReportsOnlyProgress(gets[0].response.stream, head.contentLength, plan.before, 0);
      }
    }
  }

  /**
   * The retry loop reuses the first HEAD response: however many attempts it
   * makes, it issues no HEAD request and every GET is for the same URL.
   */
  lemma {:induction false} RetryIssuesNoHead(url: Uri, head: HeadResponse, fileLength: nat, gets: seq<Reply<GetResponse>>)
    ensures forall e :: e in RetrySpec(url, head, fileLength, gets).events ==> !e.HeadIssued? && (e.GetIssued? ==> e.url == url)
    decreases |gets|
  {
    var a := AttemptSpec(url, head, fileLength, gets);
    AttemptIssuesNoHead(url, head, fileLength, gets);
    if a.status.Interrupted? {
      RetryIssuesNoHead(url, head, a.fileLength, a.gets);
    }
  }

  /** Retries never lose downloaded bytes: the file is at least as long as before the first attempt. */
  lemma {:induction false} RetryNeverShrinksFile(url: Uri, head: HeadResponse, fileLength: nat, gets: seq<Reply<GetResponse>>)
    ensures RetrySpec(url, head, fileLength, gets).fileLength >= fileLength
    decreases |gets|
  {
    var a := AttemptSpec(url, head, fileLength, gets);
    if a.status.Interrupted? {
      RetryNeverShrinksFile(url, head, a.fileLength, a.gets);
    }
  }

  /**
   * An attempt interrupted while resuming leaves the bytes it received in
   * the file and is followed, after an error report, by an attempt that
   * plans from the new length.
   */
  lemma InterruptedResumeContinues(url: Uri, head: HeadResponse, fileLength: nat, gets: seq<Reply<GetResponse>>)
    requires 0 < fileLength < head.contentLength
    requires !head.disposition.MalformedDisposition?
    requires gets != [] && gets[0].Answered?
    requires var stream := gets[0].response.stream;
      StopIndex(stream) < |stream| && stream[StopIndex(stream)].IoFailure?
    ensures var a := AttemptSpec(url, head, fileLength, gets);
      var stream := gets[0].response.stream;
      && a.status == Interrupted(stream[StopIndex(stream)].message)
      && a.fileLength == fileLength + Delivered(stream[..StopIndex(stream)])
      && a.gets == gets[1..]
      && RetrySpec(url, head, fileLength, gets)
           == Prefixed(a.events + [Error(a.status.message)], RetrySpec(url, head, a.fileLength, gets[1..]))
  {
    FetchingAttempt(url, head, fileLength, gets);
    CopyWritesDelivered(gets[0].response.stream, head.contentLength, fileLength, 0);
  }

  /** The HEAD response decides before any GET: an error status, a redirect without a location and an unsupported status all end the download after one HEAD. */
  lemma HeadFailuresIssueNoGet(url: Uri, h: HeadResponse, heads: seq<Reply<HeadResponse>>, gets: seq<Reply<GetResponse>>, fileLength: nat, parse: UriParser)
    requires heads != [] && heads[0] == Answered(h)
    requires IsErrorStatus(h.status)
      || (IsRedirect(h.status) && (h.location.None? || h.location.value == []))
      || (!IsRedirect(h.status) && h.status != OK)
    ensures var o := DownloadSpec(url, heads, gets, fileLength, parse);
      && o.result.Failure?
      && o.events == [HeadIssued(url)]
      && o.fileLength == fileLength
      && (IsErrorStatus(h.status) ==> o.result.error == HttpError(h.status))
      && (!IsErrorStatus(h.status) && IsRedirect(h.status) ==> o.result.error == MissingLocation)
      && (!IsErrorStatus(h.status) && !IsRedirect(h.status) ==> o.result.error == UnsupportedStatus(h.status))
  {
  }

  /** A redirect with an absolute location is a new download of that location, after the first HEAD. */
  lemma RedirectIsFollowed(url: Uri, h: HeadResponse, heads: seq<Reply<HeadResponse>>, gets: seq<Reply<GetResponse>>, fileLength: nat, parse: UriParser, next: Uri)
    requires heads != [] && heads[0] == Answered(h)
    requires !IsErrorStatus(h.status) && IsRedirect(h.status)
    requires h.location.Some? && h.location.value != [] && parse(h.location.value) == Some(Absolute(next))
    ensures DownloadSpec(url, heads, gets, fileLength, parse)
      == Prefixed([HeadIssued(url)], DownloadSpec(next, heads[1..], gets, fileLength, parse))
  {
  }

  /** A redirect whose location is relative is not resolved: `new Uri(location)` rejects it. */
  lemma RelativeLocationIsRejected(url: Uri, h: HeadResponse, heads: seq<Reply<HeadResponse>>, gets: seq<Reply<GetResponse>>, fileLength: nat, parse: UriParser, r: RelativeReference)
    requires heads != [] && heads[0] == Answered(h)
    requires !IsErrorStatus(h.status) && IsRedirect(h.status)
    requires h.location.Some? && h.location.value != [] && parse(h.location.value) == Some(Relative(r))
    ensures DownloadSpec(url, heads, gets, fileLength, parse)
      == Outcome(Failure(InvalidLocation(h.location.value)), fileLength, [HeadIssued(url)])
  {
  }

  /** The retry loop's result is for the URL it was given. */
  lemma {:induction false} RetryResultUrl(url: Uri, head: HeadResponse, fileLength: nat, gets: seq<Reply<GetResponse>>)
    ensures var o := RetrySpec(url, head, fileLength, gets);
      o.result.Success? ==> o.result.value.url == url
    decreases |gets|
  {
    var a := AttemptSpec(url, head, fileLength, gets);
    if a.status.Interrupted? {
      RetryResultUrl(url, head, a.fileLength, a.gets);
    }
  }

  /** A successful download names the URL whose HEAD answered OK, and every GET it issued was for that URL. */
  lemma {:induction false} DownloadRequestsOnlyTheFinalUrl(url: Uri, heads: seq<Reply<HeadResponse>>, gets: seq<Reply<GetResponse>>, fileLength: nat, parse: UriParser)
    ensures var o := DownloadSpec(url, heads, gets, fileLength, parse);
      o.result.Success? ==> forall e :: e in o.events && e.GetIssued? ==> e.url == o.result.value.url
    decreases |heads|
  {
    if heads != [] && heads[0].Answered? {
      var h := heads[0].response;
      if !IsErrorStatus(h.status) && IsRedirect(h.status) && h.location.Some? && h.location.value != []
        && parse(h.location.value).Some? && parse(h.location.value).value.Absolute? {
        DownloadRequestsOnlyTheFinalUrl(parse(h.location.value).value.uri, heads[1..], gets, fileLength, parse);
      } else if !IsErrorStatus(h.status) && !IsRedirect(h.status) && h.status == OK {
        RetryIssuesNoHead(url, h, fileLength, gets);
        RetryResultUrl(url, h, fileLength, gets);
      }
    }
  }
}
