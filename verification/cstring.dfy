/**
 The C library string functions the walker and the image lookup call:
 `strcmp` on NUL-terminated byte strings, and `basename` on paths.
 */
module CString {
  import opened Bytes

  /** True when the NUL-terminated literal s has no NUL before its terminator. */
  predicate IsLiteral(s: seq<Byte>)
  {
    && |s| > 0
    && s[|s| - 1] == 0
    && forall i :: 0 <= i < |s| - 1 ==> s[i] != 0
  }

  /**
   `strcmp(s1 + k, s2 + k)`: compares unsigned bytes until the first
   difference or the first NUL. s2 is a literal, so the scan never reads
   s1 beyond index |s2| - 1.
   */
  function StrCmp(s1: seq<Byte>, s2: seq<Byte>, k: nat): (d: int)
    requires IsLiteral(s2) && |s2| <= |s1| && k < |s2|
    ensures d == 0 <==> s1[k..|s2|] == s2[k..]
    decreases |s2| - k
  {
    if s1[k] != s2[k] then s1[k] - s2[k]
    else if s1[k] == 0 then 0
    else
      var d := StrCmp(s1, s2, k + 1);
      assert s1[k..|s2|] == [s1[k]] + s1[k + 1..|s2|];
      assert s2[k..] == [s2[k]] + s2[k + 1..];
      d
  }

  predicate IsSuffix(s: string, t: string)
  {
    |s| <= |t| && t[|t| - |s|..] == s
  }

  /**
   The last component of a path: everything after its last '/', or the
   whole path when it has none.
   */
  function Basename(path: string): (name: string)
    ensures '/' !in name
    ensures IsSuffix(name, path)
    ensures |name| < |path| ==> path[|path| - |name| - 1] == '/'
  {
    if path == [] || path[|path| - 1] == '/' then []
    else Basename(path[..|path| - 1]) + [path[|path| - 1]]
  }

  /**
   Basename's contract pins the result down: a suffix of the path without
   '/' that is the whole path or follows a '/' is the last component.
   */
  lemma {:induction false} BasenameUnique(path: string, name: string)
    requires '/' !in name && IsSuffix(name, path)
    requires |name| < |path| ==> path[|path| - |name| - 1] == '/'
    ensures name == Basename(path)
  {
  }
}
