/** Windows path composition as `System.IO.Path` performs it for the SDK
    locator (Signing/Commands/SignCommand.cs:200, 206, 215). */
module Paths {

  /** The two directory separators Windows accepts. */
  predicate IsDirectorySeparator(c: char) {
    c == '\\' || c == '/'
  }

  predicate IsDriveLetter(c: char) {
    ('a' <= c <= 'z') || ('A' <= c <= 'Z')
  }

  /** `Path.IsPathRooted` on Windows: a leading separator or a drive prefix. */
  predicate IsPathRooted(p: string) {
    (|p| >= 1 && IsDirectorySeparator(p[0]))
    || (|p| >= 2 && IsDriveLetter(p[0]) && p[1] == ':')
  }

  predicate NoSeparator(s: string) {
    forall i :: 0 <= i < |s| ==> !IsDirectorySeparator(s[i])
  }

  /** Concatenation with one backslash between, unless a separator is
      already at the seam. */
  function JoinSegments(a: string, b: string): (r: string)
    requires |a| > 0 && |b| > 0
    ensures a <= r && r[|r| - 1] == b[|b| - 1]
    ensures |r| == |a| + |b| || |r| == |a| + 1 + |b|
  {
    if IsDirectorySeparator(a[|a| - 1]) || IsDirectorySeparator(b[0]) then a + b
    else a + "\\" + b
  }

  /** `Path.Combine(a, b)`. */
  function Combine(a: string, b: string): (r: string)
    ensures |a| == 0 ==> r == b
    ensures |a| > 0 && |b| == 0 ==> r == a
    ensures |a| > 0 && IsPathRooted(b) ==> r == b
    ensures |a| > 0 && |b| > 0 ==> |r| > 0 && r[|r| - 1] == b[|b| - 1]
  {
    if |a| == 0 then b
    else if |b| == 0 then a
    else if IsPathRooted(b) then b
    else JoinSegments(a, b)
  }

  /** Unless the second part is rooted, the first part is kept as a prefix. */
  lemma CombineKeepsPrefix(a: string, b: string)
    requires !IsPathRooted(b)
    ensures a <= Combine(a, b)
  {
  }

  /** `Path.Combine(a, b, c)`, following the three-argument overload case by
      case: empty parts are dropped, a rooted later part discards what comes
      before it, and otherwise the three are joined. */
  function Combine3(a: string, b: string, c: string): (r: string)
  {
    if |a| == 0 then Combine(b, c)
    else if |b| == 0 then Combine(a, c)
    else if |c| == 0 then Combine(a, b)
    else if IsPathRooted(c) then c
    else if IsPathRooted(b) then Combine(b, c)
    else JoinSegments(JoinSegments(a, b), c)
  }

  /** The three-argument overload is the two-argument one applied twice. */
  lemma Combine3IsNestedCombine(a: string, b: string, c: string)
    ensures Combine3(a, b, c) == Combine(Combine(a, b), c)
  {
  }

  /** `Path.GetFileName`: what follows the last separator. */
  function GetFileName(p: string): (r: string)
    ensures |r| <= |p| && p[|p| - |r|..] == r
    ensures NoSeparator(r)
    ensures |r| < |p| ==> IsDirectorySeparator(p[|p| - |r| - 1])
    decreases |p|
  {
    if |p| == 0 then ""
    else if IsDirectorySeparator(p[|p| - 1]) then ""
    else
      var init := p[..|p| - 1];
      var t := GetFileName(init);
      assert p[|p| - |t| - 1..] == init[|init| - |t|..] + [p[|p| - 1]];
      assert |t| < |init| ==> p[|p| - |t| - 2] == init[|init| - |t| - 1];
      t + [p[|p| - 1]]
  }

  /** An entry name as a directory listing yields it: non-empty, no separator
      and no drive prefix. */
  predicate IsEntryName(n: string) {
    |n| > 0 && NoSeparator(n) && !IsPathRooted(n)
  }

  /** An entry name is its own file name. */
  lemma GetFileNameOfEntry(name: string)
    requires IsEntryName(name)
    ensures GetFileName(name) == name
  {
  }

  /** Taking the file name of a directory combined with an entry name gives
      the entry name back. */
  lemma {:induction false} GetFileNameOfCombine(dir: string, name: string)
    requires |dir| > 0 && IsEntryName(name)
    ensures GetFileName(Combine(dir, name)) == name
  {
    var p := Combine(dir, name);
    var prefix := if IsDirectorySeparator(dir[|dir| - 1]) then dir else dir + "\\";
    assert p == prefix + name;
    assert IsDirectorySeparator(prefix[|prefix| - 1]);
    GetFileNameAfterSeparator(prefix, name);
  }

  lemma {:induction false} GetFileNameAfterSeparator(prefix: string, name: string)
    requires |prefix| > 0 && IsDirectorySeparator(prefix[|prefix| - 1])
    requires NoSeparator(name)
    ensures GetFileName(prefix + name) == name
    decreases |name|
  {
    if |name| == 0 {
      assert prefix + name == prefix;
    } else {
      var p := prefix + name;
      var init := name[..|name| - 1];
      assert p[..|p| - 1] == prefix + init;
      assert p[|p| - 1] == name[|name| - 1];
      GetFileNameAfterSeparator(prefix, init);
      assert init + [name[|name| - 1]] == name;
    }
  }
}
