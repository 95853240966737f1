/**
 * The two payload loops of the client. Upload reads the file into a
 * `BUFFER_SIZE` buffer chunk by chunk and hands each chunk to one send,
 * adding what the send reports to a running `sent` count. Download receives
 * into the same kind of buffer until the announced size is reached or a
 * receive fails, appending each chunk to the output file.
 *
 * The transport is a parameter: for an upload, the value each successive send
 * returns (-1 for an error, otherwise how many of the chunk's bytes it
 * accepted); for a download, the chunks successive receives deliver, where
 * running out of chunks stands for a receive that returns zero or an error.
 */
module Transfer {

  type byte = b: int | 0 <= b < 256

  const BUFFER_SIZE: nat := 1024

  function Min(a: nat, b: nat): nat {
    if a <= b then a else b
  }

  /** The bytes of `chunks`, one after another. */
  function Concat(chunks: seq<seq<byte>>): seq<byte> {
    if chunks == [] then [] else chunks[0] + Concat(chunks[1..])
  }

  lemma {:induction false} ConcatAppend(a: seq<seq<byte>>, b: seq<seq<byte>>)
    ensures Concat(a + b) == Concat(a) + Concat(b)
  {
    if a == [] {
      assert a + b == b;
    } else {
      assert (a + b)[1..] == a[1..] + b;
      ConcatAppend(a[1..], b);
    }
  }

  lemma ConcatSnoc(a: seq<seq<byte>>, c: seq<byte>)
    ensures Concat(a + [c]) == Concat(a) + c
  {
    ConcatAppend(a, [c]);
    assert Concat([c]) == c + Concat([]);
  }

  /** Copies `data` into the front of `buffer`, as `file.read` and `recv` fill theirs. */
  method Fill(buffer: array<byte>, data: seq<byte>) returns (count: nat)
    requires |data| <= buffer.Length
    modifies buffer
    ensures count == |data| && buffer[..count] == data
    ensures buffer[count..] == old(buffer[count..])
  {
    forall i | 0 <= i < |data| {
      buffer[i] := data[i];
    }
    count := |data|;
  }

  // ----- Upload -----

  /**
   * The send results cover every chunk of a file of `size` bytes: one result
   * per chunk, each -1 or between 0 and the chunk's length.
   */
  ghost predicate SendsFit(size: nat, sends: seq<int>)
    decreases size
  {
    size == 0 || (|sends| > 0 && -1 <= sends[0] <= Min(BUFFER_SIZE, size) && SendsFit(size - Min(BUFFER_SIZE, size), sends[1..]))
  }

  /** What an upload of `content` does: the chunks handed to send, the bytes the sends accepted, and whether a send failed. */
  datatype UploadRun = UploadRun(chunks: seq<seq<byte>>, transmitted: seq<byte>, failed: bool)

  /**
   * The upload loop as a function of the file's remaining bytes and the
   * remaining send results: take the next chunk of at most `BUFFER_SIZE` bytes,
   * stop after a failed send, otherwise keep the accepted prefix and go on.
   */
  ghost function UploadSpec(rest: seq<byte>, sends: seq<int>): (r: UploadRun)
    requires SendsFit(|rest|, sends)
    ensures r.chunks == [] <==> rest == []
    ensures |r.chunks| <= |sends|
    ensures r.failed ==> r.chunks != []
    decreases |rest|
  {
    if rest == [] then UploadRun([], [], false)
    else
      var chunk := rest[..Min(BUFFER_SIZE, |rest|)];
      if sends[0] < 0 then UploadRun([chunk], [], true)
      else
        var after := UploadSpec(rest[|chunk|..], sends[1..]);
        UploadRun([chunk] + after.chunks, chunk[..sends[0]] + after.transmitted, after.failed)
  }

  /**
   * Chunks have length 1 to `BUFFER_SIZE`, come in file order and, unless a
   * send failed, make up the whole file.
   */
  lemma {:induction false} UploadChunks(content: seq<byte>, sends: seq<int>)
    requires SendsFit(|content|, sends)
    ensures var u := UploadSpec(content, sends);
      (forall i :: 0 <= i < |u.chunks| ==> 1 <= |u.chunks[i]| <= BUFFER_SIZE) &&
      |Concat(u.chunks)| <= |content| && Concat(u.chunks) == content[..|Concat(u.chunks)|] &&
      (!u.failed ==> Concat(u.chunks) == content)
    decreases |content|
  {
    if content != [] {
      var chunk := content[..Min(BUFFER_SIZE, |content|)];
      var rest := content[|chunk|..];
      var u := UploadSpec(content, sends);
      if sends[0] < 0 {
        assert u.chunks == [chunk];
        assert Concat(u.chunks) == chunk + Concat([]);
      } else {
        UploadChunks(rest, sends[1..]);
        var after := UploadSpec(rest, sends[1..]);
        assert u.chunks == [chunk] + after.chunks;
        assert Concat(u.chunks) == chunk + Concat(after.chunks);
        assert content == chunk + rest;
      }
    }
  }

  /**
   * The accepted bytes never exceed the file, and the upload reaches the
   * file's size exactly when every byte of the file was accepted, in order;
   * a failed send always leaves it short.
   */
  lemma {:induction false} UploadCompleteIff(content: seq<byte>, sends: seq<int>)
    requires SendsFit(|content|, sends)
    ensures var u := UploadSpec(content, sends);
      |u.transmitted| <= |content| &&
      (|u.transmitted| >= |content| <==> u.transmitted == content) &&
      (u.failed ==> |u.transmitted| < |content|)
    decreases |content|
  {
    if content != [] {
      var chunk := content[..Min(BUFFER_SIZE, |content|)];
      var rest := content[|chunk|..];
      assert content == chunk + rest;
      if sends[0] >= 0 {
        UploadCompleteIff(rest, sends[1..]);
        var after := UploadSpec(rest, sends[1..]);
        var t := chunk[..sends[0]] + after.transmitted;
        if t == content {
          assert after.transmitted == t[|chunk|..] == rest;
        }
      }
    }
  }

  /** One step of the upload loop at file offset `pos` and send result `i`, unfolded. */
  lemma UploadStep(content: seq<byte>, sends: seq<int>, pos: nat, i: nat)
    requires pos < |content| && i <= |sends| && SendsFit(|content| - pos, sends[i..])
    ensures var n := Min(BUFFER_SIZE, |content| - pos);
      var chunk := content[pos..pos + n];
      var run := UploadSpec(content[pos..], sends[i..]);
      i < |sends| && -1 <= sends[i] <= n && SendsFit(|content| - (pos + n), sends[i + 1..]) &&
      (sends[i] < 0 ==> run == UploadRun([chunk], [], true)) &&
      (sends[i] >= 0 ==>
        var after := UploadSpec(content[pos + n..], sends[i + 1..]);
        run == UploadRun([chunk] + after.chunks, chunk[..sends[i]] + after.transmitted, after.failed))
  {
    var rest, tail := content[pos..], sends[i..];
    var n := Min(BUFFER_SIZE, |rest|);
    assert rest[..n] == content[pos..pos + n];
    assert rest[n..] == content[pos + n..];
    assert tail[0] == sends[i] && tail[1..] == sends[i + 1..];
  }

  /**
   * One step of the upload loop at file offset `pos` and send result `i`: the
   * next chunk is handed to send; on an error the run ends there, otherwise the
   * accepted bytes are kept and the run goes on from the next chunk.
   */
  lemma UploadAdvance(content: seq<byte>, sends: seq<int>, pos: nat, i: nat,
                      chunks: seq<seq<byte>>, transmitted: seq<byte>, whole: UploadRun)
    requires pos < |content| && i <= |sends| && SendsFit(|content| - pos, sends[i..])
    requires whole.chunks == chunks + UploadSpec(content[pos..], sends[i..]).chunks
    requires whole.transmitted == transmitted + UploadSpec(content[pos..], sends[i..]).transmitted
    ensures var n := Min(BUFFER_SIZE, |content| - pos);
      var chunk := content[pos..pos + n];
      i < |sends| && -1 <= sends[i] <= n &&
      (sends[i] < 0 ==> whole.chunks == chunks + [chunk] && whole.transmitted == transmitted) &&
      (sends[i] >= 0 ==>
        SendsFit(|content| - (pos + n), sends[i + 1..]) &&
        whole.chunks == (chunks + [chunk]) + UploadSpec(content[pos + n..], sends[i + 1..]).chunks &&
        whole.transmitted == (transmitted + chunk[..sends[i]]) + UploadSpec(content[pos + n..], sends[i + 1..]).transmitted)
  {
    var n := Min(BUFFER_SIZE, |content| - pos);
    var chunk := content[pos..pos + n];
    UploadStep(content, sends, pos, i);
    if sends[i] < 0 {
      assert transmitted + [] == transmitted;
    } else {
      var after := UploadSpec(content[pos + n..], sends[i + 1..]);
      assert chunks + ([chunk] + after.chunks) == (chunks + [chunk]) + after.chunks;
      assert transmitted + (chunk[..sends[i]] + after.transmitted) == (transmitted + chunk[..sends[i]]) + after.transmitted;
    }
  }

  /**
   * The upload loop: read up to `BUFFER_SIZE` bytes of `content` into the
   * buffer, hand them to the next send, stop on a send error, and add the
   * bytes sent to `sent`. Completion is reported when `sent` reaches the size.
   */
  method UploadLoop(content: seq<byte>, sends: seq<int>)
    returns (chunks: seq<seq<byte>>, transmitted: seq<byte>, sent: nat, complete: bool)
    requires SendsFit(|content|, sends)
    ensures UploadSpec(content, sends).chunks == chunks
    ensures UploadSpec(content, sends).transmitted == transmitted
    ensures sent == |transmitted|
    ensures complete <==> sent >= |content|
  {
    ghost var whole := UploadSpec(content, sends);
    var buffer := new byte[BUFFER_SIZE];
    var pos, i := 0, 0;
    chunks, transmitted, sent := [], [], 0;
    assert content[0..] == content && sends[0..] == sends;
    while pos < |content|
      invariant pos <= |content| && i <= |sends|
      invariant SendsFit(|content| - pos, sends[i..])
      invariant sent == |transmitted|
      invariant whole.chunks == chunks + UploadSpec(content[pos..], sends[i..]).chunks
      invariant whole.transmitted == transmitted + UploadSpec(content[pos..], sends[i..]).transmitted
      decreases |content| - pos
    {
      UploadAdvance(content, sends, pos, i, chunks, transmitted, whole);
      var count := Fill(buffer, content[pos..pos + Min(BUFFER_SIZE, |content| - pos)]);
      var chunk := buffer[..count];
      var bytesSent := sends[i];
      chunks := chunks + [chunk];
      if bytesSent < 0 {
        break;
      }
      transmitted := transmitted + chunk[..bytesSent];
      sent := sent + bytesSent;
      pos := pos + count;
      i := i + 1;
    }
    if pos == |content| {
      assert content[pos..] == [];
    }
    complete := sent >= |content|;
  }

  // ----- Download -----

  /**
   * The chunks the download loop keeps from the receives `arrivals` when
   * `remaining` bytes are still expected: it stops once nothing remains or
   * the receives run out.
   */
  function DownloadChunks(remaining: int, arrivals: seq<seq<byte>>): (kept: seq<seq<byte>>)
    ensures |kept| <= |arrivals|
    ensures kept == [] <==> remaining <= 0 || arrivals == []
  {
    if remaining <= 0 || arrivals == [] then []
    else [arrivals[0]] + DownloadChunks(remaining - |arrivals[0]|, arrivals[1..])
  }

  /**
   * The loop keeps the receives in order, from the first; it ends short of
   * `filesize` only when the receives run out; and it never asks for another
   * receive once `filesize` is reached, so it can overshoot by less than one
   * buffer.
   */
  lemma {:induction false} DownloadChunksSpec(filesize: int, arrivals: seq<seq<byte>>)
    requires forall i :: 0 <= i < |arrivals| ==> 1 <= |arrivals[i]| <= BUFFER_SIZE
    ensures var kept := DownloadChunks(filesize, arrivals);
      |kept| <= |arrivals| && kept == arrivals[..|kept|] &&
      (|Concat(kept)| < filesize ==> kept == arrivals) &&
      (kept != [] ==> |Concat(kept[..|kept| - 1])| < filesize) &&
      |Concat(kept)| < (if filesize <= 0 then 1 else filesize + BUFFER_SIZE)
    decreases |arrivals|
  {
    var kept := DownloadChunks(filesize, arrivals);
    if filesize > 0 && arrivals != [] {
      var first := arrivals[0];
      var after := DownloadChunks(filesize - |first|, arrivals[1..]);
      DownloadChunksSpec(filesize - |first|, arrivals[1..]);
      assert kept == [first] + after;
      assert Concat(kept) == first + Concat(after);
      assert arrivals == [first] + arrivals[1..];
      if after != [] {
        assert kept[..|kept| - 1] == [first] + after[..|after| - 1];
        assert Concat(kept[..|kept| - 1]) == first + Concat(after[..|after| - 1]);
      } else {
        assert kept[..|kept| - 1] == [];
      }
    }
  }

  /** One step of the download loop: the next receive is kept, and the rest of the run follows from the new count. */
  lemma DownloadAdvance(filesize: int, received: int, arrivals: seq<seq<byte>>, i: nat)
    requires received < filesize && i < |arrivals|
    requires DownloadChunks(filesize, arrivals) == arrivals[..i] + DownloadChunks(filesize - received, arrivals[i..])
    ensures DownloadChunks(filesize, arrivals) ==
      arrivals[..i + 1] + DownloadChunks(filesize - (received + |arrivals[i]|), arrivals[i + 1..])
    ensures Concat(arrivals[..i + 1]) == Concat(arrivals[..i]) + arrivals[i]
  {
    var a, tail := arrivals[i], arrivals[i..];
    var after := DownloadChunks(filesize - received - |a|, arrivals[i + 1..]);
    assert tail != [] && tail[0] == a && tail[1..] == arrivals[i + 1..];
    assert DownloadChunks(filesize - received, tail) == [a] + after;
    assert arrivals[..i + 1] == arrivals[..i] + [a];
    assert arrivals[..i] + ([a] + after) == arrivals[..i] + [a] + after;
    ConcatSnoc(arrivals[..i], arrivals[i]);
  }

  /**
   * The download loop: receive up to `BUFFER_SIZE` bytes, stop if the receive
   * fails, append the bytes to the output file and add their count to
   * `received`, until `received` reaches `filesize`. The download is reported
   * incomplete when `received` stays below `filesize`.
   */
  method DownloadLoop(filesize: nat, arrivals: seq<seq<byte>>)
    returns (outfile: seq<byte>, received: nat, complete: bool)
    requires forall i :: 0 <= i < |arrivals| ==> 1 <= |arrivals[i]| <= BUFFER_SIZE
    ensures outfile == Concat(DownloadChunks(filesize, arrivals))
    ensures received == |outfile|
    ensures complete <==> received >= filesize
  {
    var buffer := new byte[BUFFER_SIZE];
    var i := 0;
    outfile, received := [], 0;
    while received < filesize
      invariant i <= |arrivals|
      invariant received == |outfile|
      invariant outfile == Concat(arrivals[..i])
      invariant DownloadChunks(filesize, arrivals) == arrivals[..i] + DownloadChunks(filesize - received, arrivals[i..])
    {
      if i == |arrivals| {
        break;
      }
      DownloadAdvance(filesize, received, arrivals, i);
      var len := Fill(buffer, arrivals[i]);
      outfile := outfile + buffer[..len];
      received := received + len;
      i := i + 1;
    }
    assert DownloadChunks(filesize - received, arrivals[i..]) == [];
    assert arrivals[..i] + [] == arrivals[..i];
    complete := received >= filesize;
  }
}
