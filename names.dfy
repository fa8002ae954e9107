/** File-name tests used by the installer: lower-casing, the nested-archive
    test, `os.path.splitext` on a bare file name, and the drag-and-drop filter. */
module Names {

  /** str.lower on one character (ASCII letters only, see README). */
  function LowerChar(c: char): char
  {
    if 'A' <= c <= 'Z' then (c as int + 32) as char else c
  }

  /** str.lower */
  function Lower(s: string): string
  {
    seq(|s|, i requires 0 <= i < |s| => LowerChar(s[i]))
  }

  /** str.endswith */
  predicate EndsWith(s: string, suffix: string)
  {
    |suffix| <= |s| && s[|s| - |suffix|..] == suffix
  }

  /** A discovered file is a nested archive when its lower-cased name ends in `.zip`. */
  predicate IsZipName(f: string)
  {
    EndsWith(Lower(f), ".zip")
  }

  /** The outer filter applied to every command-line argument. */
  predicate IsAcceptedArchive(arg: string)
  {
    var l := Lower(arg);
    EndsWith(l, ".rar") || EndsWith(l, ".zip") || EndsWith(l, ".7z")
  }

  /** Index of the last `c` in `s`, or -1. */
  function LastIndexOf(s: string, c: char): (r: int)
    ensures -1 <= r < |s|
    ensures r >= 0 ==> s[r] == c
    ensures forall i :: r < i < |s| ==> s[i] != c
  {
    if s == [] then -1
    else if s[|s| - 1] == c then |s| - 1
    else LastIndexOf(s[..|s| - 1], c)
  }

  /** True when some character of `s` is not a dot. */
  predicate HasNonDot(s: string)
  {
    exists i :: 0 <= i < |s| && s[i] != '.'
  }

  /** `os.path.splitext(f)[0]` for a name without separators: the text before
      the last dot, unless everything before that dot is dots (so `.zip` and
      `..zip` keep their whole name). */
  function BaseName(f: string): string
  {
    var d := LastIndexOf(f, '.');
    if d >= 0 && HasNonDot(f[..d]) then f[..d] else f
  }

  // ---------------------------------------------------------------------------

  lemma LowerAt(s: string, i: int)
    requires 0 <= i < |s|
    ensures |Lower(s)| == |s| && Lower(s)[i] == LowerChar(s[i])
  {
  }

  /** Lower-casing twice is lower-casing once. */
  lemma LowerIdempotent(s: string)
    ensures Lower(Lower(s)) == Lower(s)
  {
    forall i | 0 <= i < |s| ensures Lower(Lower(s))[i] == Lower(s)[i] {
      LowerAt(s, i);
      LowerAt(Lower(s), i);
    }
  }

  /** The nested-archive test, character by character: a dot and then `z`,
      `i`, `p` in either case. */
  lemma ZipNameCases(f: string)
    ensures IsZipName(f) <==>
      |f| >= 4 && f[|f| - 4] == '.' && f[|f| - 3] in "zZ" && f[|f| - 2] in "iI" && f[|f| - 1] in "pP"
  {
    var l := Lower(f);
    if |f| >= 4 {
      LowerAt(f, |f| - 4);
      LowerAt(f, |f| - 3);
      LowerAt(f, |f| - 2);
      LowerAt(f, |f| - 1);
      if IsZipName(f) {
        assert l[|l| - 4..][0] == '.';
        assert l[|l| - 4..][1] == 'z';
        assert l[|l| - 4..][2] == 'i';
        assert l[|l| - 4..][3] == 'p';
      } else {
        assert l[|l| - 4..] != ".zip";
      }
    }
  }

  /** The `.rar` part of the drag-and-drop filter, character by character. */
  lemma RarCases(arg: string)
    ensures EndsWith(Lower(arg), ".rar") <==>
      |arg| >= 4 && arg[|arg| - 4] == '.' && arg[|arg| - 3] in "rR" && arg[|arg| - 2] in "aA" && arg[|arg| - 1] in "rR"
  {
    var l := Lower(arg);
    var n := |arg|;
    if n >= 4 {
      LowerAt(arg, n - 4);
      LowerAt(arg, n - 3);
      LowerAt(arg, n - 2);
      LowerAt(arg, n - 1);
      if EndsWith(l, ".rar") {
        assert l[n - 4..][0] == '.' && l[n - 4..][1] == 'r' && l[n - 4..][2] == 'a' && l[n - 4..][3] == 'r';
      } else {
        assert l[n - 4..] != ".rar";
      }
    }
  }

  /** The `.7z` part of the drag-and-drop filter, character by character. */
  lemma SevenZipCases(arg: string)
    ensures EndsWith(Lower(arg), ".7z") <==>
      |arg| >= 3 && arg[|arg| - 3] == '.' && arg[|arg| - 2] == '7' && arg[|arg| - 1] in "zZ"
  {
    var l := Lower(arg);
    var n := |arg|;
    if n >= 3 {
      LowerAt(arg, n - 3);
      LowerAt(arg, n - 2);
      LowerAt(arg, n - 1);
      if EndsWith(l, ".7z") {
        assert l[n - 3..][0] == '.' && l[n - 3..][1] == '7' && l[n - 3..][2] == 'z';
      } else {
        assert l[n - 3..] != ".7z";
      }
    }
  }

  /** The drag-and-drop filter, character by character. */
  lemma AcceptedArchiveCases(arg: string)
    ensures IsAcceptedArchive(arg) <==>
      IsZipName(arg)
      || (|arg| >= 4 && arg[|arg| - 4] == '.' && arg[|arg| - 3] in "rR" && arg[|arg| - 2] in "aA" && arg[|arg| - 1] in "rR")
      || (|arg| >= 3 && arg[|arg| - 3] == '.' && arg[|arg| - 2] == '7' && arg[|arg| - 1] in "zZ")
  {
    RarCases(arg);
    SevenZipCases(arg);
  }

  /** Splitting the extension off `stem + ext`, where `ext` is `.zip` in any
      case, gives `stem` back, provided `stem` is not all dots. */
  lemma BaseNameOfZip(stem: string, ext: string)
    requires |ext| == 4 && Lower(ext) == ".zip"
    requires HasNonDot(stem)
    ensures IsZipName(stem + ext)
    ensures BaseName(stem + ext) == stem
  {
    var f := stem + ext;
    LowerAt(ext, 0);
    LowerAt(ext, 1);
    LowerAt(ext, 2);
    LowerAt(ext, 3);
    assert f[|stem|] == '.';
    assert f[|stem| + 1] != '.' && f[|stem| + 2] != '.' && f[|stem| + 3] != '.';
    var d := LastIndexOf(f, '.');
    assert d == |stem|;
    assert f[..d] == stem;
    ZipNameCases(f);
  }

  /** The name of every nested archive is either its base name followed by a
      four-character extension, or (when only dots precede `.zip`) its own
      base name. */
  lemma BaseNameOfZipName(f: string)
    requires IsZipName(f)
    ensures HasNonDot(f[..|f| - 4]) ==> BaseName(f) == f[..|f| - 4] && f == BaseName(f) + f[|f| - 4..]
    ensures !HasNonDot(f[..|f| - 4]) ==> BaseName(f) == f
  {
    ZipNameCases(f);
    var d := LastIndexOf(f, '.');
    assert d == |f| - 4;
  }
}
