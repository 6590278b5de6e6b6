/** The part of `std::filesystem::path` the codec registry relies on: `extension()`
    of a path in POSIX form ('/' is the only separator). */
module Paths {
  import opened Results

  type Path = string

  /** Where the final component (`filename()`) of `p` starts: just past the last '/'. */
  function FileNameStart(p: Path): (k: nat)
    ensures k <= |p|
    ensures k == 0 || p[k - 1] == '/'
    ensures forall i :: k <= i < |p| ==> p[i] != '/'
  {
    if |p| == 0 then 0
    else if p[|p| - 1] == '/' then |p|
    else FileNameStart(p[..|p| - 1])
  }

  /** `path::filename()`: the final component, empty when `p` ends in '/'. */
  function FileName(p: Path): (name: string)
    ensures |name| <= |p| && name == p[|p| - |name|..]
    ensures forall i :: 0 <= i < |name| ==> name[i] != '/'
  {
    p[FileNameStart(p)..]
  }

  /** Index of the last '.' of `s`, if any (the search `path::extension()` makes). */
  function LastDot(s: string): (r: Option<nat>)
    ensures r.Some? ==> r.value < |s| && s[r.value] == '.'
    ensures r.Some? ==> forall i :: r.value < i < |s| ==> s[i] != '.'
    ensures r.None? ==> forall i :: 0 <= i < |s| ==> s[i] != '.'
  {
    if |s| == 0 then None
    else if s[|s| - 1] == '.' then Some(|s| - 1)
    else LastDot(s[..|s| - 1])
  }

  /** `path::extension()`: from the last '.' of the final component to its end, leading
      dot included; empty when there is no such dot, when the only dot opens the name
      (".bashrc"), and for the special names "." and "..". */
  function Extension(p: Path): (x: string)
    ensures x == "" || (x[0] == '.' && forall i :: 1 <= i < |x| ==> x[i] != '.' && x[i] != '/')
    ensures |x| <= |p| && x == p[|p| - |x|..]
    ensures x != "" <==>
      FileName(p) != ".." && exists i :: 0 < i < |FileName(p)| && FileName(p)[i] == '.'
  {
    var name := FileName(p);
    if name == "." || name == ".." then ""
    else match LastDot(name)
      case None => ""
      case Some(k) => if k == 0 then "" else name[k..]
  }

  /** Appending characters that contain no '/' keeps the final component's start. */
  lemma FileNameStartAppend(p: Path, t: string)
    requires forall i :: 0 <= i < |t| ==> t[i] != '/'
    ensures FileNameStart(p + t) == FileNameStart(p)
  {
    var k0 := FileNameStart(p);
    assert forall i :: k0 <= i < |p + t| ==> (p + t)[i] != '/' by {
      forall i | k0 <= i < |p + t| ensures (p + t)[i] != '/' {
        if i < |p| { assert (p + t)[i] == p[i]; } else { assert (p + t)[i] == t[i - |p|]; }
      }
    }
    assert k0 == 0 || (p + t)[k0 - 1] == '/';
  }

  /** Round trip: a path built as `base + "." + e`, where `base` names a file and `e` is a
      non-empty extension body, has extension exactly "." + e. */
  lemma ExtensionOfJoin(base: Path, e: string)
    requires |base| > 0 && base[|base| - 1] != '/'
    requires |e| > 0 && forall i :: 0 <= i < |e| ==> e[i] != '.' && e[i] != '/'
    ensures Extension(base + "." + e) == "." + e
  {
    var p := base + "." + e;
    assert p == base + ("." + e);
    FileNameStartAppend(base, "." + e);
    var k0 := FileNameStart(base);
    var stem := base[k0..];
    assert |stem| > 0;
    var name := FileName(p);
    assert name == stem + "." + e;
    assert name[|stem|] == '.';
    assert forall i :: |stem| < i < |name| ==> name[i] == e[i - |stem| - 1];
    assert name != "." && name != "..";
    var d := LastDot(name);
    assert d == Some(|stem|);
    assert name[|stem|..] == "." + e;
  }

  /** A dot in a directory name or at the start of the file name gives no extension. */
  lemma NoExtensionExamples()
    ensures Extension("dir.d/readme") == ""
    ensures Extension("home/.profile") == ""
  {
    var p := "dir.d/readme";
    assert p[5] == '/';
    assert FileNameStart(p) == 6;
    assert FileName(p) == "readme";
    var q := "home/.profile";
    assert q[4] == '/';
    assert FileNameStart(q) == 5;
    assert FileName(q) == ".profile";
  }
}
