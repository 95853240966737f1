/**
 * `recvLine`: reading one newline-terminated line from a connection, one
 * byte per receive. The connection is the sequence of characters it will
 * deliver and a cursor into it; reaching the end of the sequence stands for
 * a receive that returns zero (peer closed) or an error.
 */
module LineReader {

  /**
   * The line `recvLine` returns from the unread input `s`, and the input it
   * leaves unread: everything before the first newline, with that newline
   * consumed; or all of `s` when no newline arrives before the input ends.
   */
  function SplitLine(s: string): (r: (string, string))
    ensures '\n' !in r.0
    ensures if '\n' in s then s == r.0 + "\n" + r.1 else r.0 == s && r.1 == []
  {
    if s == [] then ([], [])
    else if s[0] == '\n' then ([], s[1..])
    else
      var t := SplitLine(s[1..]);
      assert s == [s[0]] + s[1..];
      ([s[0]] + t.0, t.1)
  }

  /** A line sent with its newline terminator is read back exactly, and the bytes after it stay unread. */
  lemma {:induction false} SplitLineOf(line: string, rest: string)
    requires '\n' !in line
    ensures SplitLine(line + "\n" + rest) == (line, rest)
  {
    var s := line + "\n" + rest;
    if line == [] {
      assert s[0] == '\n' && s[1..] == rest;
    } else {
      assert s[0] == line[0] && s[1..] == line[1..] + "\n" + rest;
      SplitLineOf(line[1..], rest);
      assert [line[0]] + line[1..] == line;
    }
  }

  /**
   * Reads from `input` starting at the cursor `pos` until a newline or the end
   * of the input, returning the line without its newline and the new cursor.
   */
  method RecvLine(input: string, pos: nat) returns (line: string, next: nat)
    requires pos <= |input|
    ensures pos <= next <= |input|
    ensures '\n' !in line
    ensures (line, input[next..]) == SplitLine(input[pos..])
    ensures next < |input| ==> next > pos && input[next - 1] == '\n' && line == input[pos..next - 1]
    ensures next == |input| && (next == pos || input[next - 1] != '\n') ==> line == input[pos..]
  {
    line := [];
    next := pos;
    var done := false;
    while !done && next < |input|
      invariant pos <= next <= |input|
      invariant '\n' !in line
      invariant !done ==> line == input[pos..next]
      invariant done ==> next > pos && input[next - 1] == '\n' && line == input[pos..next - 1]
      decreases |input| - next, !done
    {
      var ch := input[next];
      next := next + 1;
      if ch == '\n' {
        done := true;
      } else {
        line := line + [ch];
      }
    }
    if done {
      assert input[pos..] == line + "\n" + input[next..];
      SplitLineOf(line, input[next..]);
    } else {
      assert input[pos..next] == input[pos..] && input[next..] == [];
    }
  }
}
