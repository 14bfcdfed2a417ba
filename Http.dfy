/**
 * What the downloaders see of HTTP. Requests are not sent: every HEAD and
 * GET is answered from a script of replies, and a response stream is the
 * list of what its successive reads find available.
 */
module Http {
  import opened Wrappers
  import opened Uris

  /** The Content-Disposition header: absent or empty, not parseable by ContentDisposition, or its FileName ("" when it has none). */
  datatype Disposition = NoDisposition | MalformedDisposition | Disposition(fileName: string)

  /**
   * A HEAD response: the status code, the Location header, ContentLength
   * (-1 when the server sent none), the raw Content-Type header, what
   * `new ContentType(header).MediaType` gives (None when it throws), the
   * Content-Disposition header and ResponseUri.
   */
  datatype HeadResponse = HeadResponse(
    status: nat,
    location: Option<string>,
    contentLength: int,
    contentType: Option<string>,
    mediaType: Option<string>,
    disposition: Disposition,
    responseUri: Uri)

  /**
   * One Stream.Read on a response stream: the number of bytes available to
   * it and the milliseconds elapsed on the download's stopwatch once it
   * returns, or the IOException it throws.
   */
  datatype Read = Data(available: nat, elapsedMs: nat) | IoFailure(message: string)

  /** A GET response: its ContentLength and the reads its stream answers; past the last one the stream is at its end. */
  datatype GetResponse = GetResponse(contentLength: int, stream: seq<Read>)

  /** What GetResponse does: return a response, or throw a WebException. */
  datatype Reply<+T> = Answered(response: T) | WebFailure(message: string)

  /** HttpWebRequest.AddRange(from, to). */
  datatype ByteRange = ByteRange(from: int, to: int)

  /** The size of the downloaders' read buffer. */
  const BufferSize: nat := 1024

  /** HttpWebRequest.GetResponse throws a WebException for these statuses instead of returning the response. */
  predicate IsErrorStatus(status: nat) {
    status >= 400
  }

  function Min(a: int, b: int): int {
    if a <= b then a else b
  }

  /** The count a read returns when at most `requested` bytes are asked for. */
  function Received(r: Read, requested: nat): (count: nat)
    ensures count <= requested
    ensures r.Data? ==> count <= r.available
    ensures r.Data? && count < requested ==> count == r.available
  {
    if r.Data? then Min(r.available, requested) else 0
  }
}
