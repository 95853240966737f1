/**
 * The text frames the client exchanges with the file server: the request
 * headers it sends for an upload or a download, and the one-line reply it
 * reads before a download's payload.
 */
module Protocol {
  import opened Text
  import opened LineReader

  /**
   * `"UPLOAD " + only_filename + "\n"` followed by `std::to_string(file_size) + "\n"`:
   * for a name without a newline, two lines, the command line and the size line,
   * with nothing after them.
   */
  function UploadHeader(name: string, size: nat): (h: string)
    ensures '\n' !in name ==> SplitLine(h) == ("UPLOAD " + name, Decimal(size) + "\n")
    ensures '\n' !in name ==> SplitLine(SplitLine(h).1) == (Decimal(size), "")
  {
    var first := "UPLOAD " + name;
    var second := Decimal(size);
    var h := first + "\n" + second + "\n";
    assert h == first + "\n" + (second + "\n") by {
      assert first + "\n" + second + "\n" == first + "\n" + (second + "\n");
    }
    assert '\n' !in name ==> SplitLine(h) == (first, second + "\n") by {
      if '\n' !in name {
        assert '\n' !in first by {
          assert first == "UPLOAD " + name;
        }
        SplitLineOf(first, second + "\n");
      }
    }
    assert SplitLine(second + "\n") == (second, "") by {
      NoSpaceNoNewline(second);
      SplitLineOf(second, "");
      assert second + "\n" + "" == second + "\n";
    }
    h
  }

  /** `"DOWNLOAD " + only_filename + "\n"`: for a name without a newline, one line and nothing after it. */
  function DownloadHeader(name: string): (h: string)
    ensures '\n' !in name ==> SplitLine(h) == ("DOWNLOAD " + name, "")
  {
    var first := "DOWNLOAD " + name;
    var h := first + "\n";
    assert '\n' !in name ==> SplitLine(h) == (first, "") by {
      if '\n' !in name {
        assert '\n' !in first by {
          assert first == "DOWNLOAD " + name;
        }
        SplitLineOf(first, "");
        assert first + "\n" + "" == h;
      }
    }
    h
  }

  /** What a server reading a request learns from it: command word, file name, size, and the bytes after the header. */
  datatype RequestView = RequestView(command: string, filename: string, size: nat, rest: string)

  /**
   * A reference reader for the upload header, built from the client's own line
   * reading and word extraction: read a line and extract the command and file
   * name from it, then read a second line and extract the size.
   */
  function ReadUploadHeader(stream: string): RequestView {
    var first := SplitLine(stream);
    var second := SplitLine(first.1);
    RequestView(TokenAt(first.0, 0), TokenAt(first.0, 1), SizeOf(TokenAt(second.0, 0)), second.1)
  }

  /** A reference reader for the download header, built the same way: one line holding the command and the file name. */
  function ReadDownloadHeader(stream: string): RequestView {
    var first := SplitLine(stream);
    RequestView(TokenAt(first.0, 0), TokenAt(first.0, 1), 0, first.1)
  }

  lemma NoSpaceNoNewline(s: string)
    requires NoSpace(s)
    ensures '\n' !in s
  {
  }

  /** The words of a request line are read back as sent, for a name with no whitespace (possibly empty). */
  lemma CommandLineTokens(command: string, name: string)
    requires command != [] && NoSpace(command) && NoSpace(name)
    ensures TokenAt(command + " " + name, 0) == command
    ensures TokenAt(command + " " + name, 1) == name
    ensures '\n' !in command + " " + name
  {
    TokensOfPair(command, name);
    NoSpaceNoNewline(command);
    NoSpaceNoNewline(name);
  }

  /** The reference reader takes a line, then a second line, and leaves what follows unread. */
  lemma ReadUploadHeaderLines(first: string, second: string, payload: string)
    requires '\n' !in first && '\n' !in second
    ensures ReadUploadHeader(first + "\n" + second + "\n" + payload) ==
      RequestView(TokenAt(first, 0), TokenAt(first, 1), SizeOf(TokenAt(second, 0)), payload)
  {
    var afterFirst := second + "\n" + payload;
    assert first + "\n" + second + "\n" + payload == first + "\n" + afterFirst;
    SplitLineOf(first, afterFirst);
    SplitLineOf(second, payload);
  }

  /** Upload header round trip: a reader gets back the command, the basename and the size, and the payload stays unread. */
  lemma UploadHeaderRoundTrip(name: string, size: nat, payload: string)
    requires NoSpace(name)
    ensures ReadUploadHeader(UploadHeader(name, size) + payload) == RequestView("UPLOAD", name, size, payload)
  {
    var first := "UPLOAD " + name;
    var second := Decimal(size);
    assert first == "UPLOAD" + " " + name;
    CommandLineTokens("UPLOAD", name);
    NoSpaceNoNewline(second);
    ReadUploadHeaderLines(first, second, payload);
    TokensOfSingle(second);
    SizeOfDecimal(size);
  }

  /** Download header round trip: a reader gets back the command and the basename, and nothing else is consumed. */
  lemma DownloadHeaderRoundTrip(name: string, after: string)
    requires NoSpace(name)
    ensures ReadDownloadHeader(DownloadHeader(name) + after) == RequestView("DOWNLOAD", name, 0, after)
  {
    var first := "DOWNLOAD " + name;
    assert first == "DOWNLOAD" + " " + name;
    assert DownloadHeader(name) + after == first + "\n" + after;
    CommandLineTokens("DOWNLOAD", name);
    SplitLineOf(first, after);
  }

  /** How the client reads the server's reply to a download request. */
  datatype Reply = ServerError | Ready(size: nat)

  /** `response.substr(0, 5)`: at most the first five characters. */
  function Prefix5(s: string): (p: string)
    ensures |p| == if |s| < 5 then |s| else 5
    ensures p == s[..|p|]
  {
    if |s| < 5 then s else s[..5]
  }

  /**
   * A reply whose first five characters are `ERROR` aborts the download; any
   * other reply is taken as `OK <size>` and the size is extracted from its
   * second word (0 when there is none).
   */
  function ParseReply(line: string): (r: Reply)
    ensures r == ServerError <==> |line| >= 5 && line[..5] == "ERROR"
    ensures r.Ready? && |Tokens(line)| < 2 ==> r.size == 0
  {
    if Prefix5(line) == "ERROR" then ServerError else Ready(SizeOf(TokenAt(line, 1)))
  }

  /**
   * The status word is never checked: any reply that does not start with
   * `ERROR` yields the value of its second word, whatever the first word is
   * and whatever follows.
   */
  lemma ParseReplyBySecondWord(lead: string, status: string, sep: string, w: string, rest: string)
    requires AllSpace(lead)
    requires status != [] && NoSpace(status)
    requires sep != [] && AllSpace(sep)
    requires w != [] && NoSpace(w)
    requires rest == [] || IsSpace(rest[0])
    requires var line := lead + status + sep + w + rest; !(|line| >= 5 && line[..5] == "ERROR")
    ensures ParseReply(lead + status + sep + w + rest) == Ready(SizeOf(w))
  {
    var line := lead + status + sep + w + rest;
    assert line == lead + status + (sep + w + rest);
    FirstTokens(lead, status, sep + w + rest);
    FirstTokens(sep, w, rest);
  }

  /** A reply `OK <n>` as the server writes it yields the size `n`. */
  lemma ParseReplyOk(n: nat)
    ensures ParseReply("OK " + Decimal(n)) == Ready(n)
  {
    var line := "OK " + Decimal(n);
    assert Prefix5(line) != "ERROR" by {
      assert Prefix5(line)[0] == line[0] == 'O';
    }
    assert NoSpace("OK");
    TokensOfPair("OK", Decimal(n));
    assert "OK" + " " + Decimal(n) == line;
    SizeOfDecimal(n);
  }

  /**
   * An empty reply (the server closed without answering) or one without a
   * size is read as a zero-byte download, not as an error.
   */
  lemma ParseReplyWithoutSize(line: string)
    requires line == [] || (NoSpace(line) && line[0] != 'E')
    ensures ParseReply(line) == Ready(0)
  {
    TokensOfSingle(line);
  }
}
