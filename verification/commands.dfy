/**
 * The client's interactive loop as far as it decides anything: each console
 * line is either the exact word `exit`, which ends the session, or split into
 * a command word and a file path; only `upload` and `download` go on to open a
 * connection, anything else is rejected and the next line is read.
 */
module Commands {
  import opened Text
  import opened Paths

  datatype Command = Exit | Upload(path: string) | Download(path: string) | Rejected(word: string)

  /** What the loop body makes of one console line. */
  function Classify(input: string): (c: Command)
    ensures c.Upload? || c.Download? ==> NoSpace(c.path) && |c.path| <= |input| && input != "exit"
    ensures c.Rejected? ==> c.word != "upload" && c.word != "download"
  {
    if input == "exit" then Exit
    else
      var cmd := TokenAt(input, 0);
      var filename := TokenAt(input, 1);
      if cmd == "upload" then Upload(filename)
      else if cmd == "download" then Download(filename)
      else Rejected(cmd)
  }

  /** Only the exact line `exit` ends the session. */
  lemma ExitIsExact(input: string)
    ensures Classify(input) == Exit <==> input == "exit"
  {
  }

  /**
   * `exit` with any blanks before or after it is not the exit line: it is a
   * command whose first word is `exit`, and is rejected.
   */
  lemma ExitWithBlanks(lead: string, rest: string)
    requires AllSpace(lead) && AllSpace(rest)
    requires lead != [] || rest != []
    ensures Classify(lead + "exit" + rest) == Rejected("exit")
  {
    assert NoSpace("exit");
    assert |lead + "exit" + rest| > 4;
    ClassifyByFirstWord(lead, "exit", rest);
  }

  /** `upload <path>` and `download <path>` are recognised with the path given, and a missing path reads as "". */
  lemma ClassifyTransfer(word: string, path: string)
    requires word == "upload" || word == "download"
    requires NoSpace(path)
    ensures Classify(word + " " + path) == if word == "upload" then Upload(path) else Download(path)
  {
    assert AllSpace("") && AllSpace(" ");
    assert word + " " + path == "" + word + (" " + path);
    ClassifyByFirstWord("", word, " " + path);
    TokensSkipSpace(" ", path);
    TokensOfSingle(path);
  }

  /**
   * Any line that is not exactly `exit` is classified by its first word, whatever
   * whitespace precedes it: `upload` and `download` take the next word as the
   * path ("" when there is none), and every other word is rejected.
   */
  lemma ClassifyByFirstWord(lead: string, w: string, rest: string)
    requires AllSpace(lead)
    requires w != [] && NoSpace(w)
    requires rest == [] || IsSpace(rest[0])
    requires lead + w + rest != "exit"
    ensures w != "upload" && w != "download" ==> Classify(lead + w + rest) == Rejected(w)
    ensures w == "upload" ==> Classify(lead + w + rest) == Upload(TokenAt(rest, 0))
    ensures w == "download" ==> Classify(lead + w + rest) == Download(TokenAt(rest, 0))
  {
    FirstTokens(lead, w, rest);
  }

  /** A blank line, including the "" left by a `getline` at end of input, is rejected with an empty command word. */
  lemma ClassifyBlank(input: string)
    requires AllSpace(input)
    ensures Classify(input) == Rejected("")
  {
    TokensSkipSpace(input, "");
    assert input + "" == input;
  }

  /**
   * What the client sends the server before leaving, on a connection of its
   * own, when that connection can be made; the loop ends either way.
   */
  const EXIT_FRAME: string := "EXIT\n"

  /** A connection the loop opens for a transfer: the upload or download command, and the basename it will announce. */
  datatype Request = Request(command: Command, name: string)

  /** The requests made for the lines of a session in which no line is `exit`. */
  function RequestsOf(lines: seq<string>): (rs: seq<Request>)
    requires forall i :: 0 <= i < |lines| ==> |lines[i]| < NPOS
    ensures forall r :: r in rs ==>
      (r.command.Upload? || r.command.Download?) && |r.command.path| < NPOS && r.name == OnlyFilename(r.command.path)
  {
    if lines == [] then []
    else
      var c := Classify(lines[|lines| - 1]);
      var before := RequestsOf(lines[..|lines| - 1]);
      if c.Upload? || c.Download? then before + [Request(c, OnlyFilename(c.path))] else before
  }

  /**
   * At most one request per line; a session of rejected lines makes none; each
   * request names a whitespace-free path and a separator-free basename.
   */
  lemma {:induction false} RequestsOfCount(lines: seq<string>)
    requires forall i :: 0 <= i < |lines| ==> |lines[i]| < NPOS
    ensures |RequestsOf(lines)| <= |lines|
    ensures (forall i :: 0 <= i < |lines| ==> Classify(lines[i]).Rejected?) ==> RequestsOf(lines) == []
    ensures forall r :: r in RequestsOf(lines) ==> NoSeparator(r.name) && NoSpace(r.command.path)
  {
    if lines != [] {
      RequestsOfCount(lines[..|lines| - 1]);
    }
  }

  /** Reading one more line adds that line's request, if it makes one, after the earlier ones. */
  lemma RequestsOfNext(lines: seq<string>, i: nat)
    requires i < |lines| && forall k :: 0 <= k < |lines| ==> |lines[k]| < NPOS
    ensures var c := Classify(lines[i]);
      RequestsOf(lines[..i + 1]) ==
        RequestsOf(lines[..i]) + if c.Upload? || c.Download? then [Request(c, OnlyFilename(c.path))] else []
  {
    var prefix := lines[..i + 1];
    assert prefix[|prefix| - 1] == lines[i];
    assert prefix[..|prefix| - 1] == lines[..i];
  }

  /**
   * The console loop over the lines given, in order, until one is exactly
   * `exit`. `lines` is a finite prefix of what the console delivers (once
   * `getline` hits end of input it keeps delivering ""), and `exitConnects`
   * says whether the connection opened on `exit` succeeds. Returns how many
   * lines were read, the transfer requests made, whether the loop ended, and
   * the frame sent on leaving. When the given lines are all read without an
   * `exit`, the loop has not ended: it would go on reading.
   */
  method Session(lines: seq<string>, exitConnects: bool)
    returns (consumed: nat, requests: seq<Request>, exited: bool, farewell: string)
    requires forall i :: 0 <= i < |lines| ==> |lines[i]| < NPOS
    ensures farewell == if exited && exitConnects then EXIT_FRAME else ""
    ensures consumed <= |lines|
    ensures exited <==> "exit" in lines
    ensures exited ==> consumed >= 1 && lines[consumed - 1] == "exit" && "exit" !in lines[..consumed - 1]
    ensures !exited ==> consumed == |lines|
    ensures requests == RequestsOf(lines[..if exited then consumed - 1 else consumed])
  {
    consumed, requests, exited, farewell := 0, [], false, "";
    while consumed < |lines|
      invariant consumed <= |lines|
      invariant "exit" !in lines[..consumed]
      invariant requests == RequestsOf(lines[..consumed])
    {
      var input := lines[consumed];
      var c := Classify(input);
      if c.Exit? {
        exited := true;
        if exitConnects {
          farewell := EXIT_FRAME;
        }
        assert input == "exit" && input in lines;
        consumed := consumed + 1;
        break;
      }
      RequestsOfNext(lines, consumed);
      if c.Upload? || c.Download? {
        requests := requests + [Request(c, OnlyFilename(c.path))];
      } else {
        assert requests + [] == requests;
      }
      assert lines[..consumed + 1] == lines[..consumed] + [input];
      consumed := consumed + 1;
    }
    if !exited {
      assert lines[..consumed] == lines;
    }
  }
}
