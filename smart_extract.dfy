/**
 * `FileMoverApp.extract_zip_smart`: an archive is unpacked into a folder named after
 * the archive, and redundant wrapper folders are collapsed by taking the content of the
 * first directory, in walk order, that directly holds a file.
 */
module SmartExtract {
  import opened Wrappers
  import opened PathNames
  import opened Archive

  /** The output folder: the archive's basename without its last extension. */
  function ExtractFolderName(zipPath: string): (r: string)
    ensures forall j :: 0 <= j < |r| ==> r[j] !in Separators
    ensures r + SplitExt(Basename(zipPath)).1 == Basename(zipPath)
  {
    var name := Basename(zipPath);
    var (root, ext) := SplitExt(name);
    PrefixAvoids(root, ext, Separators);
    root
  }

  lemma PrefixAvoids(root: string, ext: string, cs: set<char>)
    requires forall j :: 0 <= j < |root + ext| ==> (root + ext)[j] !in cs
    ensures forall j :: 0 <= j < |root| ==> root[j] !in cs
  {
    forall j | 0 <= j < |root| ensures root[j] !in cs {
      assert root[j] == (root + ext)[j];
    }
  }

  lemma ExtractFolderNameExamples()
    ensures ExtractFolderName("C:\\Users\\me\\Downloads\\MyArchive.zip") == "MyArchive"
    ensures ExtractFolderName("shots/2025.05.29.zip") == "2025.05.29"
  {
    WindowsPathExample("C:\\Users\\me\\Downloads\\MyArchive.zip");
    SlashPathExample("shots/2025.05.29.zip");
  }

  lemma WindowsPathExample(p: string)
    requires p == "C:\\Users\\me\\Downloads\\MyArchive.zip"
    ensures ExtractFolderName(p) == "MyArchive"
  {
    assert p == "C:\\Users\\me\\Downloads" + ['\\'] + "MyArchive" + ".zip";
    ExtractFolderNameOf("C:\\Users\\me\\Downloads", '\\', "MyArchive", ".zip");
  }

  lemma SlashPathExample(p: string)
    requires p == "shots/2025.05.29.zip"
    ensures ExtractFolderName(p) == "2025.05.29"
  {
    assert p == "shots" + ['/'] + "2025.05.29" + ".zip";
    ExtractFolderNameOf("shots", '/', "2025.05.29", ".zip");
  }

  /**
   * An archive `stem + ext` in directory `dir`, where `ext` is the last extension and
   * the stem does not start with a dot, is unpacked into the folder `stem`.
   */
  lemma ExtractFolderNameOf(dir: string, sep: char, stem: string, ext: string)
    requires sep in Separators
    requires stem != [] && stem[0] != '.'
    requires forall c <- stem :: c !in Separators
    requires ext != [] && ext[0] == '.'
    requires forall j :: 0 < j < |ext| ==> ext[j] != '.' && ext[j] !in Separators
    ensures ExtractFolderName(dir + [sep] + stem + ext) == stem
  {
    var p := dir + [sep] + stem + ext;
    var k := |dir|;
    var d := |dir| + 1 + |stem|;
    assert forall j :: k < j < d ==> p[j] == stem[j - k - 1];
    assert forall j :: d <= j < |p| ==> p[j] == ext[j - d];
    ExtractFolderNameAt(p, k, d);
    assert p[k + 1..d] == stem;
  }

  /**
   * The folder name of a path whose last separator is at `k` (-1 for none) and whose last
   * dot is at `d`, with a non-dot character right after the separator: the text between.
   */
  lemma ExtractFolderNameAt(p: string, k: int, d: int)
    requires -1 <= k && k + 1 < d < |p|
    requires k >= 0 ==> p[k] in Separators
    requires forall j :: k < j < |p| ==> p[j] !in Separators
    requires p[k + 1] != '.' && p[d] == '.'
    requires forall j :: d < j < |p| ==> p[j] != '.'
    ensures ExtractFolderName(p) == p[k + 1..d]
  {
    LastIndexAt(p, Separators, k);
    var b := Basename(p);
    assert b == p[k + 1..];
    LastIndexAt(b, Separators, -1);
    LastIndexAt(b, {'.'}, d - k - 1);
    assert b[0] != '.';
    assert b[..d - k - 1] == p[k + 1..d];
  }

  /**
   * The first directory of `d`, in walk order, that directly holds a file, with its
   * path below `d`; None when no directory of the tree holds a file.
   */
  function FirstWithFiles(d: Dir): (r: Option<Visit>)
    ensures r.Some? ==> r.value.dir.files != []
    decreases d, 1
  {
    if d.files != [] then Some(Visit([], d)) else FirstWithFilesIn(d.subdirs)
  }

  function FirstWithFilesIn(ds: seq<Dir>): (r: Option<Visit>)
    ensures r.Some? ==> r.value.dir.files != []
    decreases ds, 0
  {
    if ds == [] then None
    else match FirstWithFiles(ds[0])
      case Some(v) => Some(Visit([ds[0].name] + v.path, v.dir))
      case None => FirstWithFilesIn(ds[1..])
  }

  /** The first visit of a walk whose directory holds a file (the `if files: return root` loop). */
  function FirstVisitWithFiles(visits: seq<Visit>): Option<Visit> {
    if visits == [] then None
    else if visits[0].dir.files != [] then Some(visits[0])
    else FirstVisitWithFiles(visits[1..])
  }

  function Under(path: seq<string>, o: Option<Visit>): Option<Visit> {
    match o
    case Some(v) => Some(Visit(path + v.path, v.dir))
    case None => None
  }

  lemma {:induction false} FirstVisitOfConcat(a: seq<Visit>, b: seq<Visit>)
    ensures FirstVisitWithFiles(a + b) ==
      if FirstVisitWithFiles(a).Some? then FirstVisitWithFiles(a) else FirstVisitWithFiles(b)
  {
    if a != [] {
      assert (a + b)[0] == a[0];
      assert (a + b)[1..] == a[1..] + b;
      FirstVisitOfConcat(a[1..], b);
    } else {
      assert a + b == b;
    }
  }

  /** Searching the walk of `d` and searching the tree itself find the same directory. */
  lemma {:induction false} WalkFindsFirstWithFiles(d: Dir, path: seq<string>)
    ensures FirstVisitWithFiles(Walk(d, path)) == Under(path, FirstWithFiles(d))
    decreases d, 1
  {
    var w := Walk(d, path);
    assert w[1..] == WalkAll(d.subdirs, path);
    if d.files != [] {
      assert path + [] == path;
    } else {
      WalkAllFindsFirstWithFiles(d.subdirs, path);
    }
  }

  lemma {:induction false} WalkAllFindsFirstWithFiles(ds: seq<Dir>, path: seq<string>)
    ensures FirstVisitWithFiles(WalkAll(ds, path)) == Under(path, FirstWithFilesIn(ds))
    decreases ds, 0
  {
    if ds != [] {
      var child := path + [ds[0].name];
      FirstVisitOfConcat(Walk(ds[0], child), WalkAll(ds[1..], path));
      WalkFindsFirstWithFiles(ds[0], child);
      WalkAllFindsFirstWithFiles(ds[1..], path);
      match FirstWithFiles(ds[0])
      case Some(v) =>
        assert child + v.path == path + ([ds[0].name] + v.path);
      case None =>
    }
  }

  /** The directory whose content is moved out: the first in walk order with a file, else the top itself. */
  function ChosenSource(top: Dir): Visit {
    FirstWithFiles(top).GetOr(Visit([], top))
  }

  /**
   * `find_deepest_dir_with_files`: walk the tree top-down and stop at the first directory
   * that directly holds a file; fall back to the top directory.
   */
  method FindDeepestDirWithFiles(top: Dir) returns (source: Visit)
    ensures source == ChosenSource(top)
  {
    var visits := Walk(top, []);
    WalkFindsFirstWithFiles(top, []);
    for n := 0 to |visits|
      invariant FirstVisitWithFiles(visits) == FirstVisitWithFiles(visits[n..])
    {
      assert visits[n..][1..] == visits[n + 1..];
      if visits[n].dir.files != [] {
        return visits[n];
      }
    }
    return Visit([], top);
  }

  /** When the top directory holds a file itself, it is the one chosen. */
  lemma TopWithFilesIsChosen(top: Dir)
    requires top.files != []
    ensures ChosenSource(top) == Visit([], top)
  {
  }

  /** When no directory of the walk holds a file, the top directory is chosen. */
  lemma NoFilesFallsBackToTop(top: Dir)
    requires forall n :: 0 <= n < |Walk(top, [])| ==> Walk(top, [])[n].dir.files == []
    ensures ChosenSource(top) == Visit([], top)
  {
    NoVisitWithFiles(Walk(top, []));
    WalkFindsFirstWithFiles(top, []);
  }

  lemma {:induction false} NoVisitWithFiles(visits: seq<Visit>)
    requires forall n :: 0 <= n < |visits| ==> visits[n].dir.files == []
    ensures FirstVisitWithFiles(visits) == None
  {
    if visits != [] {
      NoVisitWithFiles(visits[1..]);
    }
  }

  /** The chosen directory is one the walk reaches, and every directory walked before it holds no file. */
  lemma ChosenIsFirstInWalk(top: Dir)
    requires FirstWithFiles(top).Some?
    ensures exists n :: (0 <= n < |Walk(top, [])| && Walk(top, [])[n] == ChosenSource(top) &&
      forall m :: 0 <= m < n ==> Walk(top, [])[m].dir.files == [])
  {
    WalkFindsFirstWithFiles(top, []);
    assert [] + FirstWithFiles(top).value.path == FirstWithFiles(top).value.path;
    FirstVisitPosition(Walk(top, []));
  }

  lemma {:induction false} FirstVisitPosition(visits: seq<Visit>)
    requires FirstVisitWithFiles(visits).Some?
    ensures exists n :: (0 <= n < |visits| && visits[n] == FirstVisitWithFiles(visits).value &&
      forall m :: 0 <= m < n ==> visits[m].dir.files == [])
  {
    if visits[0].dir.files == [] {
      FirstVisitPosition(visits[1..]);
      var n :| 0 <= n < |visits[1..]| && visits[1..][n] == FirstVisitWithFiles(visits[1..]).value &&
        forall m :: 0 <= m < n ==> visits[1..][m].dir.files == [];
      assert visits[n + 1] == FirstVisitWithFiles(visits).value;
      forall m | 0 <= m < n + 1 ensures visits[m].dir.files == [] {
        if m > 0 { assert visits[m] == visits[1..][m - 1]; }
      }
    } else {
      assert visits[0] == FirstVisitWithFiles(visits).value;
    }
  }

  /**
   * Wrapper collapsing: putting a tree that holds a file somewhere inside one more
   * folder without files changes neither which content is chosen nor, beyond the
   * extra name, where it is.
   */
  lemma WrapperCollapses(inner: Dir, wrapperName: string)
    requires FirstWithFiles(inner).Some?
    ensures ChosenSource(Dir(wrapperName, [], [inner])).dir == ChosenSource(inner).dir
    ensures ChosenSource(Dir(wrapperName, [], [inner])).path == [inner.name] + ChosenSource(inner).path
  {
    var wrapped := Dir(wrapperName, [], [inner]);
    var v := FirstWithFiles(inner).value;
    assert [inner][0] == inner;
    assert FirstWithFilesIn([inner]) == Some(Visit([inner.name] + v.path, v.dir));
    assert FirstWithFiles(wrapped) == FirstWithFilesIn([inner]);
  }

  /** The result of a smart extract: the output folder and the entries moved into it. */
  datatype Extracted = Extracted(folder: string, files: seq<string>, subdirs: seq<Dir>)

  /**
   * `extract_zip_smart` on an archive whose content, once extracted, is `archive`: the
   * entries of the chosen directory end up in a folder named after the archive.
   */
  method ExtractZipSmart(zipPath: string, archive: Dir) returns (r: Extracted)
    ensures r.folder == ExtractFolderName(zipPath)
    ensures FirstWithFiles(archive).Some? ==> r.files != []
    ensures r.files == ChosenSource(archive).dir.files && r.subdirs == ChosenSource(archive).dir.subdirs
  {
    var folder := ExtractFolderName(zipPath);
    var source := FindDeepestDirWithFiles(archive);
    r := Extracted(folder, source.dir.files, source.dir.subdirs);
  }
}
