/**
 * Character-level helpers the client relies on through the C++ standard
 * library: whitespace-separated extraction (`std::istringstream >> std::string`),
 * decimal rendering (`std::to_string(size_t)`) and decimal extraction
 * (`std::istringstream >> size_t`).
 */
module Text {

  /** The characters a stream extraction skips as whitespace in the C locale. */
  predicate IsSpace(c: char) {
    c == ' ' || c == '\t' || c == '\n' || c == '\r' || c == 11 as char || c == 12 as char
  }

  predicate NoSpace(s: string) {
    forall i :: 0 <= i < |s| ==> !IsSpace(s[i])
  }

  /** Length of the run of non-whitespace characters that starts `s`. */
  function WordLen(s: string): (n: nat)
    ensures n <= |s|
    ensures forall i :: 0 <= i < n ==> !IsSpace(s[i])
    ensures n < |s| ==> IsSpace(s[n])
    ensures s != [] && !IsSpace(s[0]) ==> n >= 1
  {
    if s == [] || IsSpace(s[0]) then 0 else 1 + WordLen(s[1..])
  }

  /** The words successive `>>` extractions into a `std::string` produce, in order. */
  function Tokens(s: string): (ts: seq<string>)
    ensures forall i :: 0 <= i < |ts| ==> ts[i] != [] && NoSpace(ts[i]) && |ts[i]| <= |s|
    decreases |s|
  {
    if s == [] then []
    else if IsSpace(s[0]) then Tokens(s[1..])
    else
      var n := WordLen(s);
      [s[..n]] + Tokens(s[n..])
  }

  /** The value the `i`-th `>>` into an initially empty `std::string` leaves: "" when the stream ran dry. */
  function TokenAt(s: string, i: nat): (w: string)
    ensures NoSpace(w) && |w| <= |s|
    ensures w == [] <==> i >= |Tokens(s)|
  {
    if i < |Tokens(s)| then Tokens(s)[i] else ""
  }

  predicate AllSpace(s: string) {
    forall i :: 0 <= i < |s| ==> IsSpace(s[i])
  }

  /** Leading whitespace is skipped: it contributes no token and does not change the tokens after it. */
  lemma {:induction false} TokensSkipSpace(lead: string, s: string)
    requires AllSpace(lead)
    ensures Tokens(lead + s) == Tokens(s)
    decreases |lead|
  {
    if lead != [] {
      assert (lead + s)[0] == lead[0] && IsSpace(lead[0]);
      assert Tokens(lead + s) == Tokens((lead + s)[1..]);
      assert (lead + s)[1..] == lead[1..] + s;
      TokensSkipSpace(lead[1..], s);
    } else {
      assert lead + s == s;
    }
  }

  lemma {:induction false} WordLenOfWord(w: string, rest: string)
    requires NoSpace(w)
    requires rest == [] || IsSpace(rest[0])
    ensures WordLen(w + rest) == |w|
    decreases |w|
  {
    if w != [] {
      assert (w + rest)[1..] == w[1..] + rest;
      WordLenOfWord(w[1..], rest);
    } else {
      assert w + rest == rest;
    }
  }

  /** A word followed by whitespace (or nothing) is extracted whole, and extraction carries on after it. */
  lemma {:induction false} TokensOfWord(w: string, rest: string)
    requires w != [] && NoSpace(w)
    requires rest == [] || IsSpace(rest[0])
    ensures Tokens(w + rest) == [w] + Tokens(rest)
  {
    WordLenOfWord(w, rest);
    assert (w + rest)[..|w|] == w;
    assert (w + rest)[|w|..] == rest;
  }

  /** After leading blanks, a word followed by whitespace (or nothing) is the first token, and the next token is the rest's first. */
  lemma FirstTokens(lead: string, w: string, rest: string)
    requires AllSpace(lead)
    requires w != [] && NoSpace(w)
    requires rest == [] || IsSpace(rest[0])
    ensures TokenAt(lead + w + rest, 0) == w
    ensures TokenAt(lead + w + rest, 1) == TokenAt(rest, 0)
  {
    assert lead + w + rest == lead + (w + rest);
    TokensSkipSpace(lead, w + rest);
    TokensOfWord(w, rest);
  }

  /** A string without whitespace is a single token, or none when it is empty. */
  lemma TokensOfSingle(w: string)
    requires NoSpace(w)
    ensures Tokens(w) == if w == [] then [] else [w]
  {
    if w != [] {
      TokensOfWord(w, []);
      assert w + [] == w;
    }
  }

  /** `a + " " + b` splits into the tokens of `a` and of `b` when `a` is one word. */
  lemma TokensOfPair(a: string, b: string)
    requires a != [] && NoSpace(a) && NoSpace(b)
    ensures Tokens(a + " " + b) == [a] + (if b == [] then [] else [b])
  {
    assert a + " " + b == a + (" " + b);
    TokensOfWord(a, " " + b);
    assert (" " + b)[1..] == b;
    TokensOfSingle(b);
  }

  predicate IsDigit(c: char) {
    '0' <= c <= '9'
  }

  predicate AllDigits(s: string) {
    forall i :: 0 <= i < |s| ==> IsDigit(s[i])
  }

  function DigitChar(d: nat): (c: char)
    requires d < 10
    ensures IsDigit(c) && c as int - '0' as int == d
  {
    ('0' as int + d) as char
  }

  /** `std::to_string` of an unsigned value: its decimal digits, most significant first, no leading zero. */
  function Decimal(n: nat): (s: string)
    ensures s != [] && AllDigits(s) && NoSpace(s)
    ensures |s| > 1 ==> s[0] != '0'
  {
    if n < 10 then [DigitChar(n)] else Decimal(n / 10) + [DigitChar(n % 10)]
  }

  /** The number a string of decimal digits denotes. */
  function DigitsValue(s: string): nat
    requires AllDigits(s)
  {
    if s == [] then 0 else DigitsValue(s[..|s| - 1]) * 10 + (s[|s| - 1] as int - '0' as int)
  }

  lemma {:induction false} DecimalRoundTrip(n: nat)
    ensures DigitsValue(Decimal(n)) == n
  {
    if n >= 10 {
      var s := Decimal(n);
      assert s[..|s| - 1] == Decimal(n / 10);
      DecimalRoundTrip(n / 10);
    }
  }

  /** Length of the run of digits that starts `s`. */
  function LeadingDigits(s: string): (n: nat)
    ensures n <= |s| && AllDigits(s[..n])
    ensures n < |s| ==> !IsDigit(s[n])
  {
    if s == [] || !IsDigit(s[0]) then 0
    else
      var m := LeadingDigits(s[1..]);
      assert s[..1 + m] == [s[0]] + s[1..][..m];
      1 + m
  }

  /**
   * What `>> size_t` extracts from a token: the value of its leading digits,
   * or 0 when there are none (a failed extraction stores 0).
   */
  function SizeOf(token: string): (n: nat)
    ensures token == [] || !IsDigit(token[0]) ==> n == 0
  {
    var k := LeadingDigits(token);
    DigitsValue(token[..k])
  }

  lemma {:induction false} LeadingDigitsAll(s: string)
    requires AllDigits(s)
    ensures LeadingDigits(s) == |s|
    decreases |s|
  {
    if s != [] {
      LeadingDigitsAll(s[1..]);
    }
  }

  /** Rendering a size and extracting it back gives the same size. */
  lemma SizeOfDecimal(n: nat)
    ensures SizeOf(Decimal(n)) == n
  {
    var s := Decimal(n);
    LeadingDigitsAll(s);
    assert s[..|s|] == s;
    DecimalRoundTrip(n);
  }
}
