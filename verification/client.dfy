/**
 * One upload or download as the client's loop body carries it out once the
 * connection is open: announce the basename, then run the payload loop.
 * The reply line and the payload that follows it arrive on the same
 * connection; because the reply is read one byte at a time up to its newline,
 * nothing of the payload is consumed by it, so they are given separately here:
 * `reply` is what the connection delivers up to and including the reply's
 * newline, `arrivals` what the later receives deliver.
 */
module Client {
  import opened Text
  import opened LineReader
  import opened Paths
  import opened Protocol
  import opened Transfer

  lemma NoSpaceSuffix(path: string, k: nat)
    requires NoSpace(path) && k <= |path|
    ensures NoSpace(path[k..])
  {
    forall i | 0 <= i < |path| - k
      ensures !IsSpace(path[k..][i])
    {
      assert path[k..][i] == path[k + i];
    }
  }

  /**
   * `upload <path>`: sends the upload header for the basename and the file's
   * size, then the file in chunks; reports completion when the bytes sent reach
   * the size.
   */
  method UploadSession(path: string, content: seq<byte>, sends: seq<int>)
    returns (header: string, chunks: seq<seq<byte>>, transmitted: seq<byte>, sent: nat, complete: bool)
    requires |path| < NPOS && NoSpace(path)
    requires SendsFit(|content|, sends)
    ensures header == UploadHeader(OnlyFilename(path), |content|)
    ensures ReadUploadHeader(header) == RequestView("UPLOAD", OnlyFilename(path), |content|, "")
    ensures chunks == UploadSpec(content, sends).chunks && transmitted == UploadSpec(content, sends).transmitted
    ensures forall i :: 0 <= i < |chunks| ==> 1 <= |chunks[i]| <= BUFFER_SIZE
    ensures |Concat(chunks)| <= |content| && Concat(chunks) == content[..|Concat(chunks)|]
    ensures sent == |transmitted| <= |content|
    ensures complete <==> transmitted == content
    ensures complete ==> Concat(chunks) == content
    ensures content == [] ==> chunks == [] && complete
  {
    var name := OnlyFilename(path);
    NoSpaceSuffix(path, |path| - |name|);
    header := UploadHeader(name, |content|);
    UploadHeaderRoundTrip(name, |content|, "");
    assert header + "" == header;
    chunks, transmitted, sent, complete := UploadLoop(content, sends);
    UploadChunks(content, sends);
    UploadCompleteIff(content, sends);
  }

  datatype DownloadOutcome =
    | Aborted(reply: string)
    | Saved(file: string, data: seq<byte>, received: nat, complete: bool)

  /**
   * `download <path>`: sends the download header for the basename and reads
   * the reply line. A reply starting with `ERROR` ends the attempt with no file
   * written; otherwise the size is taken from the reply and the payload is
   * saved under the basename.
   */
  method DownloadSession(path: string, reply: string, arrivals: seq<seq<byte>>)
    returns (request: string, outcome: DownloadOutcome)
    requires |path| < NPOS && NoSpace(path)
    requires forall i :: 0 <= i < |arrivals| ==> 1 <= |arrivals[i]| <= BUFFER_SIZE
    ensures request == DownloadHeader(OnlyFilename(path))
    ensures ReadDownloadHeader(request) == RequestView("DOWNLOAD", OnlyFilename(path), 0, "")
    ensures var line := SplitLine(reply).0;
      outcome.Aborted? <==> |line| >= 5 && line[..5] == "ERROR"
    ensures outcome.Saved? ==>
      var size := ParseReply(SplitLine(reply).0).size;
      var kept := DownloadChunks(size, arrivals);
      outcome.file == OnlyFilename(path) &&
      |kept| <= |arrivals| && kept == arrivals[..|kept|] && outcome.data == Concat(kept) &&
      outcome.received == |outcome.data| &&
      (outcome.complete <==> outcome.received >= size) &&
      (!outcome.complete ==> kept == arrivals) &&
      outcome.received < size + BUFFER_SIZE
    ensures SplitLine(reply).0 == [] ==> outcome == Saved(OnlyFilename(path), [], 0, true)
  {
    var name := OnlyFilename(path);
    NoSpaceSuffix(path, |path| - |name|);
    request := DownloadHeader(name);
    DownloadHeaderRoundTrip(name, "");
    assert request + "" == request;
    var line, next := RecvLine(reply, 0);
    assert reply[0..] == reply;
    if line == [] {
      ParseReplyWithoutSize(line);
    }
    match ParseReply(line)
    case ServerError =>
      outcome := Aborted(line);
    case Ready(size) =>
      var data, received, complete := DownloadLoop(size, arrivals);
      DownloadChunksSpec(size, arrivals);
      outcome := Saved(name, data, received, complete);
  }

  /**
   * `n` payload bytes, however they are split into receives, are saved exactly
   * and bring `received` to `n`, so the download of an `OK <n>` reply (which
   * yields size `n`, `Protocol.ParseReplyOk`) is reported complete.
   */
  lemma DownloadOfWholePayload(n: nat, arrivals: seq<seq<byte>>)
    requires forall i :: 0 <= i < |arrivals| ==> 1 <= |arrivals[i]| <= BUFFER_SIZE
    requires |Concat(arrivals)| == n
    ensures Concat(DownloadChunks(n, arrivals)) == Concat(arrivals)
    ensures |Concat(DownloadChunks(n, arrivals))| >= n
  {
    DownloadChunksSpec(n, arrivals);
    var kept := DownloadChunks(n, arrivals);
    if kept != arrivals {
      assert arrivals == kept + arrivals[|kept|..];
      ConcatAppend(kept, arrivals[|kept|..]);
    }
  }
}
