/**
 * `only_filename`: the part of a user-supplied path after its last `/` or `\`,
 * computed as `filename.substr(filename.find_last_of("/\\") + 1)` with 64-bit
 * `size_t` arithmetic.
 */
module Paths {

  /** `std::string::npos`, the largest 64-bit `size_t`. */
  const NPOS: nat := 0xFFFF_FFFF_FFFF_FFFF

  /** `size_t` arithmetic is taken modulo this. */
  const SIZE_T_MODULUS: nat := 0x1_0000_0000_0000_0000

  predicate IsSeparator(c: char) {
    c == '/' || c == '\\'
  }

  predicate NoSeparator(s: string) {
    forall i :: 0 <= i < |s| ==> !IsSeparator(s[i])
  }

  /** `find_last_of("/\\")`: the index of the last separator, or `NPOS` when there is none. */
  function FindLastOf(s: string): (k: nat)
    requires |s| < NPOS
    ensures k == NPOS <==> NoSeparator(s)
    ensures k != NPOS ==> k < |s| && IsSeparator(s[k]) && NoSeparator(s[k + 1..])
  {
    if s == [] then NPOS
    else if IsSeparator(s[|s| - 1]) then |s| - 1
    else
      var k := FindLastOf(s[..|s| - 1]);
      assert k != NPOS ==> s[k + 1..] == s[..|s| - 1][k + 1..] + [s[|s| - 1]];
      k
  }

  /**
   * The basename the client sends and saves under. When there is no separator
   * `npos + 1` wraps to 0 and the whole path is kept.
   */
  function OnlyFilename(path: string): (name: string)
    requires |path| < NPOS
    ensures NoSeparator(name)
    ensures |name| <= |path| && path[|path| - |name|..] == name
    ensures |name| < |path| ==> IsSeparator(path[|path| - |name| - 1])
    ensures NoSeparator(path) ==> name == path
  {
    var start := (FindLastOf(path) + 1) % SIZE_T_MODULUS;
    path[start..]
  }

  /** Taking the basename of a basename changes nothing. */
  lemma OnlyFilenameIdempotent(path: string)
    requires |path| < NPOS
    ensures OnlyFilename(OnlyFilename(path)) == OnlyFilename(path)
  {
  }

  /** Any directory prefix ending in a separator is dropped. */
  lemma {:induction false} OnlyFilenameDropsDirectory(dir: string, name: string)
    requires |dir| + |name| < NPOS
    requires dir != [] && IsSeparator(dir[|dir| - 1])
    requires NoSeparator(name)
    ensures OnlyFilename(dir + name) == name
  {
    var p := dir + name;
    assert p[|dir| - 1] == dir[|dir| - 1];
    assert NoSeparator(p[|dir|..]);
    assert p[|dir|..] == name;
  }
}
