/**
 * The two functions of Python's `ntpath` (the Windows flavour of `os.path`) that the
 * application uses on file names: `splitext` and `basename`. Both `\` and `/` separate
 * directories on Windows.
 */
module PathNames {

  const Separators: set<char> := {'\\', '/'}

  /** The index of the last character of `s` that is one of `cs`, or -1 (`str.rfind`). */
  function LastIndexIn(s: string, cs: set<char>): (k: int)
    ensures -1 <= k < |s|
    ensures k >= 0 ==> s[k] in cs
    ensures forall j :: k < j < |s| ==> s[j] !in cs
    decreases |s|
  {
    if |s| == 0 then -1
    else if s[|s| - 1] in cs then |s| - 1
    else LastIndexIn(s[..|s| - 1], cs)
  }

  /**
   * The last path component has a dot with a non-dot character somewhere before it:
   * `p[i]` is that character, `p[j]` the dot, and no separator follows `p[i]`.
   */
  predicate HasExtension(p: string) {
    exists i, j :: 0 <= i < j < |p| && p[i] != '.' && p[j] == '.' && NoSeparatorFrom(p, i)
  }

  predicate NoSeparatorFrom(p: string, i: nat) {
    forall m :: i <= m < |p| ==> p[m] !in Separators
  }

  /**
   * `os.path.splitext(p)`: the extension is everything from the last dot of the last
   * path component, unless only dots precede that dot in the component (".profile"
   * has no extension).
   */
  function SplitExt(p: string): (r: (string, string))
    ensures r.0 + r.1 == p
    ensures r.1 != [] ==> r.1[0] == '.'
    ensures forall j :: 0 < j < |r.1| ==> r.1[j] != '.' && r.1[j] !in Separators
  {
    var sepIndex := LastIndexIn(p, Separators);
    var dotIndex := LastIndexIn(p, {'.'});
    if dotIndex > sepIndex && exists j :: sepIndex + 1 <= j < dotIndex && p[j] != '.' then
      (p[..dotIndex], p[dotIndex..])
    else
      (p, [])
  }

  /**
   * The extension is not empty exactly when the last component has a dot after a
   * non-dot character; it then starts at the last dot of the path.
   */
  lemma SplitExtHasExtension(p: string)
    ensures SplitExt(p).1 != [] <==> HasExtension(p)
  {
    HasExtensionAt(p, LastIndexIn(p, Separators), LastIndexIn(p, {'.'}));
  }

  /** The test `splitext` makes, in terms of the last separator and the last dot. */
  lemma HasExtensionAt(p: string, sepIndex: int, dotIndex: int)
    requires sepIndex == LastIndexIn(p, Separators) && dotIndex == LastIndexIn(p, {'.'})
    ensures HasExtension(p) <==> dotIndex > sepIndex && exists j :: sepIndex + 1 <= j < dotIndex && p[j] != '.'
  {
    if HasExtension(p) {
      var i, j :| 0 <= i < j < |p| && p[i] != '.' && p[j] == '.' && NoSeparatorFrom(p, i);
      assert sepIndex < i;
      assert j <= dotIndex;
      assert sepIndex + 1 <= i < dotIndex && p[i] != '.';
    }
    if dotIndex > sepIndex && exists j :: sepIndex + 1 <= j < dotIndex && p[j] != '.' {
      var i :| sepIndex + 1 <= i < dotIndex && p[i] != '.';
      assert NoSeparatorFrom(p, i);
      assert 0 <= i < dotIndex < |p| && p[dotIndex] == '.';
    }
  }

  /**
   * The directory part of a path never changes its extension: `splitext` looks only at
   * what follows the last separator, and that lies inside `name` (or is all of it).
   */
  lemma SplitExtIgnoresDirectory(dir: string, sep: char, name: string)
    requires sep in Separators
    ensures SplitExt(dir + [sep] + name).1 == SplitExt(name).1
  {
    var a := dir + [sep];
    var p := a + name;
    var sp, dn := LastIndexIn(name, Separators), LastIndexIn(name, {'.'});
    var si, di := LastIndexIn(p, Separators), LastIndexIn(p, {'.'});
    LastIndexBehind(a, name, Separators, sp);
    ExtensionAt(name, sp, dn);
    ExtensionAt(p, si, di);
    if dn >= 0 {
      LastIndexBehind(a, name, {'.'}, dn);
      ShiftedNonDot(a, name, sp, dn);
      assert p[|a| + dn..] == name[dn..];
    } else {
      assert a[|a| - 1] !in {'.'};
      LastIndexBefore(a, name, {'.'});
    }
  }

  /** `splitext`'s extension in terms of the last separator and the last dot. */
  lemma ExtensionAt(p: string, si: int, di: int)
    requires si == LastIndexIn(p, Separators) && di == LastIndexIn(p, {'.'})
    ensures SplitExt(p).1 == if di > si && exists j :: si + 1 <= j < di && p[j] != '.' then p[di..] else []
  {
  }

  /** The last match in `a + name` is the last one in `name`, shifted, when `name` has one or `a` ends in one. */
  lemma LastIndexBehind(a: string, name: string, cs: set<char>, k: int)
    requires k == LastIndexIn(name, cs) && (k >= 0 || (a != [] && a[|a| - 1] in cs))
    ensures LastIndexIn(a + name, cs) == |a| + k
  {
    var p := a + name;
    assert forall j :: |a| <= j < |p| ==> p[j] == name[j - |a|];
    LastIndexAt(p, cs, |a| + k);
  }

  /** Without a match in `name` and none at the end of `a`, the last match of `a + name` lies before `a`'s end. */
  lemma LastIndexBefore(a: string, name: string, cs: set<char>)
    requires LastIndexIn(name, cs) < 0 && a != [] && a[|a| - 1] !in cs
    ensures LastIndexIn(a + name, cs) < |a| - 1
  {
  }

  lemma ShiftedNonDot(a: string, name: string, sp: int, dn: int)
    requires -1 <= sp && dn < |name|
    ensures (exists j :: sp + 1 <= j < dn && name[j] != '.') <==>
            (exists j :: |a| + sp + 1 <= j < |a| + dn && (a + name)[j] != '.')
  {
    var p := a + name;
    if exists j :: sp + 1 <= j < dn && name[j] != '.' {
      var j :| sp + 1 <= j < dn && name[j] != '.';
      assert p[|a| + j] == name[j];
    }
    if exists j :: |a| + sp + 1 <= j < |a| + dn && p[j] != '.' {
      var j :| |a| + sp + 1 <= j < |a| + dn && p[j] != '.';
      assert p[j] == name[j - |a|];
    }
  }

  /** `os.path.basename(p)`: what follows the last separator. */
  function Basename(p: string): (r: string)
    ensures forall j :: 0 <= j < |r| ==> r[j] !in Separators
    ensures |r| <= |p| && p[|p| - |r|..] == r
    ensures r == p || p[|p| - |r| - 1] in Separators
  {
    p[LastIndexIn(p, Separators) + 1..]
  }

  /** A name with no separator in it is its own basename. */
  lemma BasenameOfName(name: string)
    requires forall j :: 0 <= j < |name| ==> name[j] !in Separators
    ensures Basename(name) == name
  {
  }

  /** `LastIndexIn` is pinned down by its two defining facts. */
  lemma LastIndexAt(s: string, cs: set<char>, k: int)
    requires -1 <= k < |s|
    requires k >= 0 ==> s[k] in cs
    requires forall j :: k < j < |s| ==> s[j] !in cs
    ensures LastIndexIn(s, cs) == k
  {
  }

  lemma SplitExtExamples()
    ensures SplitExt("photo.JPG") == ("photo", ".JPG")
    ensures SplitExt("archive.tar.gz") == ("archive.tar", ".gz")
    ensures SplitExt(".profile") == (".profile", "")
    ensures SplitExt("dir.d\\README") == ("dir.d\\README", "")
  {
    SplitExtPhoto();
    SplitExtDoubleExtension();
    SplitExtDotFile();
    SplitExtDottedDirectory();
  }

  lemma SplitExtDotFile()
    ensures SplitExt(".profile") == (".profile", "")
  {
    LastIndexAt(".profile", Separators, -1);
    LastIndexAt(".profile", {'.'}, 0);
  }

  lemma SplitExtDottedDirectory()
    ensures SplitExt("dir.d\\README") == ("dir.d\\README", "")
  {
    LastIndexAt("dir.d\\README", Separators, 5);
    LastIndexAt("dir.d\\README", {'.'}, 3);
  }

  lemma SplitExtPhoto()
    ensures SplitExt("photo.JPG") == ("photo", ".JPG")
  {
    var p := "photo.JPG";
    LastIndexAt(p, Separators, -1);
    LastIndexAt(p, {'.'}, 5);
    assert p[0] != '.';
    assert p[..5] == "photo" && p[5..] == ".JPG";
  }

  lemma SplitExtDoubleExtension()
    ensures SplitExt("archive.tar.gz") == ("archive.tar", ".gz")
  {
    var p := "archive.tar.gz";
    LastIndexAt(p, Separators, -1);
    LastIndexAt(p, {'.'}, 11);
    assert p[0] != '.';
    assert p[..11] == "archive.tar" && p[11..] == ".gz";
  }
}
