# File upload/download client — a Dafny model

This project models the framing logic of the interactive file client
`fileserver/client.cpp`. The client reads commands from the console. `exit`
ends the session, sending `EXIT` to the server when it can connect.
`upload <path>` sends `UPLOAD <basename>`, the file size in decimal, and then
the file in chunks of at most 1024 bytes. `download <path>` sends
`DOWNLOAD <basename>` and reads a one-line reply. A reply starting with
`ERROR` aborts; any other reply is read as `OK <size>`. After such a reply,
the client receives the payload into a file named after the basename.

The sockets, the console and the file system are replaced by values:

- A connection read by `recvLine` is a `string` with a cursor. Its end stands
  for a `recv` that returns zero or an error.
- The successive returns of `send` during an upload are a `seq<int>`. `-1` is
  an error; any other value is the number of the chunk's bytes accepted.
- The successive chunks `recv` delivers during a download are a
  `seq<seq<byte>>`. Running out stands for a `recv` that returns `<= 0`.
- A file is a `seq<byte>`; its size is its length.
- The console is a finite prefix of the lines `std::getline` returns. Once
  input ends, `getline` fails and leaves the line empty, which is rejected, so
  the source loop keeps going; a prefix without `exit` is a loop still running.
- Whether the connection opened on `exit` succeeds is a boolean parameter.

Modules, one per concern of the client:

- `Text`: whitespace-separated extraction (`istringstream >> string`),
  `std::to_string` of a size, and extraction of a size (`>> size_t`).
- `LineReader`: `recvLine`, as a specification function (`SplitLine`) and a
  loop (`RecvLine`).
- `Paths`: `only_filename`, including the `npos + 1` wrap-around to 0 in
  64-bit `size_t`.
- `Commands`: the classification of a console line and the session loop.
- `Protocol`: the `UPLOAD`/`DOWNLOAD` headers and the reply parser. The
  headers' partner is a reference reader built from the client's own line
  reading and word extraction.
- `Transfer`: the upload and download loops over a `BUFFER_SIZE` (1024) byte
  array. Each loop is proved against a recursive specification function.
- `Client`: one upload or download end to end.

Behaviour of the source that the model makes explicit:

- A reply that arrives empty is parsed as `OK 0`. This happens when the server
  closes without answering. The client then creates an empty file and reports
  the download as complete (`Client.DownloadSession`,
  `Protocol.ParseReplyWithoutSize`).
- A short send (fewer bytes than the chunk) is not retried. The loop goes on
  with the next chunk, so the bytes the server receives have a gap. The client
  then reports the upload as incomplete, because completion holds exactly when
  every byte of the file was accepted in order (`Transfer.UploadCompleteIff`).
- `recv` always asks for `BUFFER_SIZE` bytes. The output file can therefore
  exceed the announced size, by less than one buffer
  (`Transfer.DownloadChunksSpec`).

## Model

| member | source | states |
|---|---|---|
| `LineReader.SplitLine` | fileserver/client.cpp:22-36 | The line returned never contains a newline. If a newline arrives, the input is the line, then that newline, then the unread rest. Otherwise the line is the whole input and nothing is left. |
| `LineReader.SplitLineOf` | fileserver/client.cpp:28-32 | A line sent with its newline is read back exactly, and what follows the newline stays unread. |
| `LineReader.RecvLine` | fileserver/client.cpp:22-36 | The byte-at-a-time loop returns the characters before the first newline and consumes the newline. At end of input it returns everything read so far, possibly nothing. Its result equals `SplitLine`. |
| `Text.Tokens` | fileserver/client.cpp:58-60 | Successive `>>` extractions yield non-empty words without whitespace. |
| `Text.TokensSkipSpace` | fileserver/client.cpp:58-60 | Leading whitespace yields no word and does not change the words after it. |
| `Text.TokenAt` | fileserver/client.cpp:59-60 | The `i`-th extraction has no whitespace, and is empty exactly when the line has at most `i` words. |
| `Text.Decimal` | fileserver/client.cpp:98 | `to_string` of a size is a non-empty run of digits with no leading zero and no whitespace. |
| `Text.DecimalRoundTrip` | fileserver/client.cpp:98 | Reading the decimal digits `to_string` writes gives back the size. |
| `Text.SizeOf` | fileserver/client.cpp:140-142 | Extracting a size from an empty word, or one not starting with a digit, stores 0. |
| `Text.SizeOfDecimal` | fileserver/client.cpp:142 | Extracting a size from the decimal rendering of `n` yields `n`. |
| `Paths.FindLastOf` | fileserver/client.cpp:65 | Returns `npos` exactly when the path has no `/` or `\`. Otherwise it returns the index of a separator with no separator after it. |
| `Paths.OnlyFilename` | fileserver/client.cpp:65 | The basename has no separator and is a suffix of the path. It is preceded by a separator unless it is the whole path. A path with no separator is kept whole, because `npos + 1` wraps to 0. |
| `Paths.OnlyFilenameIdempotent` | fileserver/client.cpp:65 | Taking the basename of a basename changes nothing. |
| `Paths.OnlyFilenameDropsDirectory` | fileserver/client.cpp:65 | For any directory prefix ending in a separator, followed by a separator-free name, the result is exactly that name. |
| `Commands.Classify` | fileserver/client.cpp:43-63 | A transfer is recognised only when the line is not `exit`. Its path is a single whitespace-free word. A rejected line's first word is neither `upload` nor `download`. |
| `Commands.ClassifyByFirstWord` | fileserver/client.cpp:57-63 | Any line other than `exit`, made of blanks, a first word and a rest, is decided by that word: `upload` or `download` take the rest's first word as the path (empty if none), and any other word is rejected. |
| `Commands.ClassifyBlank` | fileserver/client.cpp:41-63 | A blank line, including the empty line `getline` leaves at end of input, is rejected. |
| `Commands.ExitIsExact` | fileserver/client.cpp:43 | A line ends the session if and only if it is exactly `exit`. |
| `Commands.ExitWithBlanks` | fileserver/client.cpp:43-63 | `exit` with any blanks before or after it does not end the session: it is rejected as a command whose first word is `exit`. |
| `Commands.ClassifyTransfer` | fileserver/client.cpp:57-63 | `upload <p>` and `download <p>` are recognised with path `p`. A missing path reads as the empty string. |
| `Commands.RequestsOf` | fileserver/client.cpp:57-65 | Every request made is an upload or a download, and announces the basename of its path. |
| `Commands.RequestsOfCount` | fileserver/client.cpp:57-65 | At most one request per line. A session of rejected lines makes no request. Every request carries a whitespace-free path and a separator-free basename. |
| `Commands.Session` | fileserver/client.cpp:39-65 | The loop stops exactly at the first line equal to `exit`, and then sends `EXIT\n` if and only if its connection succeeds. It never stops earlier. The requests are those of the transfer lines before it, in order. Rejected lines add none. |
| `Protocol.UploadHeader` | fileserver/client.cpp:94-99 | For a name without a newline, the header is two lines: `UPLOAD <name>` and the decimal size, with nothing after them. |
| `Protocol.DownloadHeader` | fileserver/client.cpp:129-130 | For a name without a newline, the header is the one line `DOWNLOAD <name>`, with nothing after it. |
| `Protocol.UploadHeaderRoundTrip` | fileserver/client.cpp:94-99 | Reading `UPLOAD <name>\n<size>\n` back yields command `UPLOAD`, the same name and the same size, and leaves the payload unread. This holds for any whitespace-free name, the empty name included. |
| `Protocol.DownloadHeaderRoundTrip` | fileserver/client.cpp:129-130 | Reading `DOWNLOAD <name>\n` back yields command `DOWNLOAD` and the same name, and consumes nothing after the newline. |
| `Protocol.Prefix5` | fileserver/client.cpp:133 | `substr(0, 5)` is the first five characters, or the whole reply when it is shorter. |
| `Protocol.ParseReply` | fileserver/client.cpp:132-142 | A reply aborts the download if and only if it has at least five characters and they are `ERROR`. Otherwise a reply with fewer than two words yields size 0. |
| `Protocol.ParseReplyBySecondWord` | fileserver/client.cpp:132-142 | Any reply not starting with `ERROR`, whatever its first word, blanks and trailing words, yields the value of its second word as the size. |
| `Protocol.ParseReplyOk` | fileserver/client.cpp:138-142 | The reply `OK <n>` yields the size `n`. |
| `Protocol.ParseReplyWithoutSize` | fileserver/client.cpp:139-142 | An empty reply, or one word that does not start with `E`, yields size 0 rather than an error. |
| `Transfer.Fill` | fileserver/client.cpp:104-105 | Stands for both `file.read` here and `recv` at fileserver/client.cpp:150. The buffer's first `count` bytes are the data read or received, `count` is its length, and the bytes after them are left as they were. |
| `Transfer.UploadSpec` | fileserver/client.cpp:102-119 | An empty file hands send no chunk, and a non-empty one at least one. There is at most one chunk per send result. A failed run handed send at least one chunk. |
| `Transfer.UploadChunks` | fileserver/client.cpp:102-110 | Every chunk holds 1 to `BUFFER_SIZE` bytes. Concatenated, the chunks are a prefix of the file, in file order. If no send failed, they are the whole file. |
| `Transfer.UploadCompleteIff` | fileserver/client.cpp:103-126 | The bytes accepted never exceed the file. Their count reaches the file size exactly when they are the whole file. A send error always leaves the count short. |
| `Transfer.UploadLoop` | fileserver/client.cpp:102-126 | The loop hands send the chunks of the specification and keeps the accepted bytes. `sent` is their count. Completion is reported iff `sent >= file_size`. |
| `Transfer.DownloadChunks` | fileserver/client.cpp:148-153 | No more chunks are kept than there are receives, and none exactly when nothing is expected or no receive succeeds. That the kept chunks are the first receives, in order, is proved in `Transfer.DownloadChunksSpec`. |
| `Transfer.DownloadChunksSpec` | fileserver/client.cpp:148-161 | The loop ends short of the size only when the receives run out. It stops as soon as the size is reached, so it overshoots by less than one buffer. |
| `Transfer.DownloadLoop` | fileserver/client.cpp:146-168 | The output file is the concatenation of the kept receives, and `received` is its length. Incompleteness is reported iff `received < filesize`. |
| `Client.UploadSession` | fileserver/client.cpp:78-126 | The header sent is the upload header for the basename and the file's length, and reads back as such. The chunks handed to send and the bytes accepted are those `Transfer.UploadSpec` gives for the file and the send results. The chunk properties hold. Completion is reported iff the bytes accepted are exactly the file. An empty file is complete with no chunk sent. |
| `Client.DownloadSession` | fileserver/client.cpp:127-168 | The request sent is the download header for the basename. The download is aborted, with no file, iff the reply starts with `ERROR`. Otherwise the file is saved under the basename and holds the kept receives, and the completion flag and overshoot bound hold. An empty reply saves an empty, complete file. |
| `Client.DownloadOfWholePayload` | fileserver/client.cpp:146-168 | Payload bytes totalling `n`, however they are split into receives, are saved exactly and bring `received` to `n`, so the download of `OK <n>` is complete. |

## Left out

- Socket creation, `connect` and its failure, `close`, and the hard-coded server address and port (fileserver/client.cpp:9-10, 44-54, 68-77). For a transfer line, a failed connection skips the line; the model starts each transfer with the connection open. On the `exit` line, a failed connection still ends the loop, only without sending `EXIT` (`Commands.Session` takes this as a parameter).
- `Commands.Session` runs over a finite prefix of the console. The source loop never ends without `exit`: at end of input every further line is empty and rejected. `exited == false` means the loop is still running.
- The server side is not part of this model. The header round trips use a reference reader built from the client's own tokenisation. The repository's server (09实现文件上传下载系统显示客户端退出/server.cpp:61-85) reads only the command line that way and takes the size line as file content.
- Opening the file to upload, and its failure (fileserver/client.cpp:79-84). Creating the download file, and write failures. Size discovery with `seekg`/`tellg`. The file is given as a byte sequence.
- Console messages and the progress percentage (fileserver/client.cpp:113-118, 155-160). They are display-only and use floating point.
- Size extraction from the `OK` reply: signs, overflow of `size_t`, and other `num_get` details. The model takes the value of the leading digits of the second word, and 0 when there are none.
- `Paths.OnlyFilename` requires the path to be shorter than `npos`, as every `std::string` is.
- `Commands.Session` does not say whether a transfer succeeded. The transfers themselves are modelled by `Client.UploadSession` and `Client.DownloadSession`.
- The payload is kept separate from the reply line. This loses nothing, because `recvLine` reads one byte at a time and stops at the newline.
- Partial sends are modelled as the source has them: the remainder of the chunk is dropped. Resending it is not modelled, because the source does not do it.
