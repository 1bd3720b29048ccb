/**
 * The state the main window keeps between user actions: the list of selected file
 * paths, filled by the file dialog (`select_files`) and by drag and drop (`on_drop`),
 * and emptied by a batch run (`execute`) that completes.
 */
module FileMover {
  import opened Text
  import opened PathNames

  predicate NoDuplicates(s: seq<string>) {
    forall i, j :: 0 <= i < j < |s| ==> s[i] != s[j]
  }

  /**
   * `list` after each of `paths`, in turn, is appended unless already present
   * (`if path not in self.file_paths: self.file_paths.append(path)`).
   */
  function Appended(list: seq<string>, paths: seq<string>): (r: seq<string>)
    ensures list <= r
    ensures forall p :: p in r <==> p in list || p in paths
    ensures NoDuplicates(list) ==> NoDuplicates(r)
    decreases |paths|
  {
    if paths == [] then list
    else
      var before := Appended(list, paths[..|paths| - 1]);
      var p := paths[|paths| - 1];
      assert forall q :: q in paths <==> q in paths[..|paths| - 1] || q == p;
      if p in before then before else before + [p]
  }

  /**
   * An independent reading of the same policy, from the front: the paths not yet seen,
   * each at its first occurrence.
   */
  function FirstSeen(paths: seq<string>, seen: set<string>): seq<string>
    decreases |paths|
  {
    if paths == [] then []
    else if paths[0] in seen then FirstSeen(paths[1..], seen)
    else [paths[0]] + FirstSeen(paths[1..], seen + {paths[0]})
  }

  lemma {:induction false} FirstSeenSnoc(paths: seq<string>, p: string, seen: set<string>)
    ensures FirstSeen(paths + [p], seen)
         == FirstSeen(paths, seen) + (if p in seen || p in paths then [] else [p])
    decreases |paths|
  {
    if paths == [] {
      assert [p][1..] == [];
    } else {
      assert (paths + [p])[1..] == paths[1..] + [p];
      if paths[0] in seen {
        FirstSeenSnoc(paths[1..], p, seen);
      } else {
        FirstSeenSnoc(paths[1..], p, seen + {paths[0]});
      }
    }
  }

  /** The elements FirstSeen adds are exactly the unseen paths. */
  lemma {:induction false} FirstSeenElements(paths: seq<string>, seen: set<string>)
    ensures forall q :: q in FirstSeen(paths, seen) <==> q in paths && q !in seen
    decreases |paths|
  {
    if paths != [] {
      if paths[0] in seen {
        FirstSeenElements(paths[1..], seen);
      } else {
        FirstSeenElements(paths[1..], seen + {paths[0]});
      }
      assert forall q :: q in paths <==> q == paths[0] || q in paths[1..];
    }
  }

  /**
   * Adding paths keeps the old list as it was and puts after it the paths it did not
   * hold, each once, in the order they were first seen.
   */
  lemma {:induction false} AppendedIsFirstSeen(list: seq<string>, paths: seq<string>)
    ensures Appended(list, paths) == list + FirstSeen(paths, set q | q in list)
    decreases |paths|
  {
    if paths != [] {
      var init := paths[..|paths| - 1];
      var p := paths[|paths| - 1];
      AppendedIsFirstSeen(list, init);
      assert init + [p] == paths;
      FirstSeenSnoc(init, p, set q | q in list);
      FirstSeenElements(init, set q | q in list);
    }
  }

  lemma {:induction false} FirstSeenAllSeen(paths: seq<string>, seen: set<string>)
    requires forall p <- paths :: p in seen
    ensures FirstSeen(paths, seen) == []
    decreases |paths|
  {
    if paths != [] {
      assert paths[0] in paths;
      assert forall p <- paths[1..] :: p in paths;
      FirstSeenAllSeen(paths[1..], seen);
    }
  }

  /** Adding the same paths a second time changes nothing. */
  lemma AppendedIdempotent(list: seq<string>, paths: seq<string>)
    ensures Appended(Appended(list, paths), paths) == Appended(list, paths)
  {
    var once := Appended(list, paths);
    AppendedIsFirstSeen(once, paths);
    FirstSeenAllSeen(paths, set q | q in once);
    assert once + [] == once;
  }

  /** `path.strip("{").strip("}")`: undoes the braces Tcl puts around a dropped path with spaces. */
  function StripBraces(p: string): string {
    StripChars(StripChars(p, {'{'}), {'}'})
  }

  /** A braced path is unwrapped to the path inside. */
  lemma StripBracesUnwraps(p: string)
    requires p != [] && p[0] !in {'{', '}'} && p[|p| - 1] !in {'{', '}'}
    ensures StripBraces("{" + p + "}") == p
  {
    OpeningBraceStripped(p);
    ClosingBraceStripped(p);
  }

  lemma OpeningBraceStripped(p: string)
    requires p != [] && p[0] !in {'{', '}'}
    ensures StripChars("{" + p + "}", {'{'}) == p + "}"
  {
    assert "{" + p + "}" == "{" + (p + "}");
    TrimLeftPadding("{", p + "}", {'{'});
    assert p + "}" + [] == p + "}";
    TrimRightPadding(p + "}", [], {'{'});
  }

  lemma ClosingBraceStripped(p: string)
    requires p != [] && p[0] !in {'{', '}'} && p[|p| - 1] !in {'{', '}'}
    ensures StripChars(p + "}", {'}'}) == p
  {
    assert [] + (p + "}") == p + "}";
    TrimLeftPadding([], p + "}", {'}'});
    TrimRightPadding(p, "}", {'}'});
  }

  /** A path that neither starts with a brace nor ends with one is left as it is. */
  lemma StripBracesKeeps(p: string)
    requires p != [] && p[0] !in {'{', '}'} && p[|p| - 1] !in {'{', '}'}
    ensures StripBraces(p) == p
  {
    assert [] + p == p && p + [] == p;
    TrimLeftPadding([], p, {'{'});
    TrimRightPadding(p, [], {'{'});
    TrimLeftPadding([], p, {'}'});
    TrimRightPadding(p, [], {'}'});
  }

  function MapStripBraces(paths: seq<string>): (r: seq<string>)
    ensures |r| == |paths|
    ensures forall i :: 0 <= i < |paths| ==> r[i] == StripBraces(paths[i])
  {
    seq(|paths|, i requires 0 <= i < |paths| => StripBraces(paths[i]))
  }

  // ---------------------------------------------------------------------------
  // One batch run
  // ---------------------------------------------------------------------------

  /** What `execute` does with a file: a `.zip` (any case) has its images extracted, anything else is copied. */
  datatype Action = ExtractImages | CopyFile

  predicate EndsWith(s: string, suffix: string) {
    |suffix| <= |s| && s[|s| - |suffix|..] == suffix
  }

  function ActionFor(path: string): Action {
    if EndsWith(Lower(Basename(path)), ".zip") then ExtractImages else CopyFile
  }

  /** The name ends in '.', then 'z', 'i', 'p', each letter in either case. */
  predicate ZipSuffix(name: string) {
    |name| >= 4 && name[|name| - 4] == '.'
    && (name[|name| - 3] == 'z' || name[|name| - 3] == 'Z')
    && (name[|name| - 2] == 'i' || name[|name| - 2] == 'I')
    && (name[|name| - 1] == 'p' || name[|name| - 1] == 'P')
  }

  /** A file is extracted exactly when its name, not its directory, ends in ".zip" in any mix of cases. */
  lemma ActionForZip(path: string)
    ensures ActionFor(path) == ExtractImages <==> ZipSuffix(Basename(path))
  {
    var name := Basename(path);
    if |name| >= 4 {
      LowerZipSuffix(name);
    }
  }

  lemma LowerZipSuffix(name: string)
    requires |name| >= 4
    ensures EndsWith(Lower(name), ".zip") <==> ZipSuffix(name)
  {
    var n := |name|;
    var tail := Lower(name)[n - 4..];
    assert tail == [LowerChar(name[n - 4]), LowerChar(name[n - 3]), LowerChar(name[n - 2]), LowerChar(name[n - 1])];
    LowerCharIs(name[n - 4], '.', '.');
    LowerCharIs(name[n - 3], 'z', 'Z');
    LowerCharIs(name[n - 2], 'i', 'I');
    LowerCharIs(name[n - 1], 'p', 'P');
    assert tail == ".zip" <==> tail[0] == '.' && tail[1] == 'z' && tail[2] == 'i' && tail[3] == 'p';
  }

  /** `c.lower()` is `lower` exactly when `c` is `lower` or its upper-case form. */
  lemma LowerCharIs(c: char, lower: char, upper: char)
    requires (lower == '.' && upper == '.') || (lower == 'z' && upper == 'Z')
          || (lower == 'i' && upper == 'I') || (lower == 'p' && upper == 'P')
    ensures LowerChar(c) == lower <==> c == lower || c == upper
  {
  }

  /** The case of the letters in a path never changes the action it gets. */
  lemma ActionIgnoresCase(path: string)
    ensures ActionFor(Lower(path)) == ActionFor(path)
  {
    LowerKeepsSeparators(path);
    LowerIdempotent(Basename(path));
  }

  /** Lower-casing leaves every separator where it was, so it commutes with `Basename`. */
  lemma LowerKeepsSeparators(path: string)
    ensures Basename(Lower(path)) == Lower(Basename(path))
  {
    var k := LastIndexIn(path, Separators);
    var low := Lower(path);
    assert forall j :: 0 <= j < |path| ==> (low[j] in Separators <==> path[j] in Separators);
    LastIndexAt(low, Separators, k);
  }

  /** A name taken from a directory gets the action the bare name gets. */
  lemma ActionIgnoresDirectory(dir: string, name: string)
    requires forall j :: 0 <= j < |name| ==> name[j] !in Separators
    ensures ActionFor(dir + "\\" + name) == ActionFor(name)
  {
    var p := dir + "\\" + name;
    assert forall j :: |dir| < j < |p| ==> p[j] == name[j - |dir| - 1];
    LastIndexAt(p, Separators, |dir|);
    assert p[|dir| + 1..] == name;
    BasenameOfName(name);
  }

  /** A name ending in ".zip", in any case, under any directory, is extracted. */
  lemma ZipInDirectory(dir: string, name: string)
    requires forall j :: 0 <= j < |name| ==> name[j] !in Separators
    requires ZipSuffix(name)
    ensures ActionFor(dir + "\\" + name) == ExtractImages
  {
    ActionIgnoresDirectory(dir, name);
    BasenameOfName(name);
    ActionForZip(name);
  }

  /** An upper-case archive name in a Windows path is extracted. */
  lemma UpperCaseZipExtracted()
    ensures ActionFor("C:\\in\\A.ZIP") == ExtractImages
  {
    var name := "A.ZIP";
    assert ZipSuffix(name);
    assert "C:\\in\\A.ZIP" == "C:\\in" + "\\" + name;
    ZipInDirectory("C:\\in", name);
  }

  /** How processing one file ended: done, refused with a PermissionError, or any other error. */
  datatype FileOutcome = Done | PermissionDenied | Failed

  datatype Attempt = Attempt(fileName: string, action: Action, outcome: FileOutcome)

  /** The files tried, in order, and whether an error other than a permission error stopped the run. */
  datatype BatchReport = BatchReport(attempts: seq<Attempt>, aborted: bool)

  function AttemptFor(path: string, outcome: (string, Action) -> FileOutcome): Attempt {
    Attempt(Basename(path), ActionFor(path), outcome(path, ActionFor(path)))
  }

  /** Every file in order, with the action it gets and how it would end. */
  function Plan(paths: seq<string>, outcome: (string, Action) -> FileOutcome): (planned: seq<Attempt>)
    ensures |planned| == |paths|
    ensures forall i :: 0 <= i < |paths| ==> planned[i] == AttemptFor(paths[i], outcome)
  {
    seq(|paths|, i requires 0 <= i < |paths| => AttemptFor(paths[i], outcome))
  }

  /**
   * Each planned attempt names the file by its last component alone, and extracts it
   * exactly when that name ends in ".zip" in any case.
   */
  lemma PlanNamesFiles(paths: seq<string>, outcome: (string, Action) -> FileOutcome)
    ensures forall i :: 0 <= i < |paths| ==>
      var a := Plan(paths, outcome)[i];
      && (forall j :: 0 <= j < |a.fileName| ==> a.fileName[j] !in Separators)
      && EndsWith(paths[i], a.fileName)
      && (a.action == ExtractImages <==> ZipSuffix(a.fileName))
  {
    forall i | 0 <= i < |paths| {
      ActionForZip(paths[i]);
    }
  }

  /**
   * The batch policy over the planned attempts: files are tried in order; a permission
   * error is reported and the run goes on; any other error is reported and ends the run.
   */
  function Batch(planned: seq<Attempt>): (r: BatchReport)
    ensures r.attempts <= planned
    ensures forall i :: 0 <= i < |r.attempts| - 1 ==> r.attempts[i].outcome != Failed
    ensures r.aborted <==> |r.attempts| > 0 && r.attempts[|r.attempts| - 1].outcome == Failed
    ensures !r.aborted ==> r.attempts == planned
    decreases |planned|
  {
    if planned == [] then BatchReport([], false)
    else if planned[0].outcome == Failed then BatchReport([planned[0]], true)
    else
      var rest := Batch(planned[1..]);
      BatchReport([planned[0]] + rest.attempts, rest.aborted)
  }

  /** A run aborts exactly when some file fails with an error other than a permission error. */
  lemma BatchAbortsIffSomeFailure(planned: seq<Attempt>)
    ensures Batch(planned).aborted <==> exists i :: 0 <= i < |planned| && planned[i].outcome == Failed
  {
    var r := Batch(planned);
    if r.aborted {
      var i := |r.attempts| - 1;
      assert r.attempts[i] == planned[i];
    }
  }

  /** Permission errors alone never stop a run: every file is tried. */
  lemma PermissionErrorsDoNotStop(paths: seq<string>, outcome: (string, Action) -> FileOutcome)
    requires forall p <- paths :: outcome(p, ActionFor(p)) != Failed
    ensures Batch(Plan(paths, outcome)) == BatchReport(Plan(paths, outcome), false)
  {
    var planned := Plan(paths, outcome);
    BatchAbortsIffSomeFailure(planned);
  }

  /** The loop of `execute`, with its early return on an error other than a permission error. */
  method RunBatch(paths: seq<string>, outcome: (string, Action) -> FileOutcome) returns (report: BatchReport)
    ensures report == Batch(Plan(paths, outcome))
  {
    ghost var planned := Plan(paths, outcome);
    var attempts: seq<Attempt> := [];
    for i := 0 to |paths|
      invariant attempts == planned[..i]
      invariant forall m :: 0 <= m < i ==> attempts[m].outcome != Failed
    {
      var a := Process(paths[i], outcome);
      PlanStep(planned, attempts, i, a);
      attempts := attempts + [a];
      if a.outcome == Failed {
        BatchFirstFailure(planned, i);
        return BatchReport(attempts, true);
      }
    }
    assert attempts == planned;
    BatchAllPass(planned);
    return BatchReport(attempts, false);
  }

  lemma PlanStep(planned: seq<Attempt>, attempts: seq<Attempt>, i: nat, a: Attempt)
    requires i < |planned| && attempts == planned[..i] && a == planned[i]
    requires forall m :: 0 <= m < i ==> attempts[m].outcome != Failed
    ensures attempts + [a] == planned[..i + 1]
    ensures forall m :: 0 <= m < i ==> planned[m].outcome != Failed
  {
  }

  /** One file of the batch: its name, the action its name selects, and how processing it ends. */
  method Process(path: string, outcome: (string, Action) -> FileOutcome) returns (a: Attempt)
    ensures a == AttemptFor(path, outcome)
  {
    var fileName := Basename(path);
    var action := if EndsWith(Lower(fileName), ".zip") then ExtractImages else CopyFile;
    a := Attempt(fileName, action, outcome(path, action));
  }

  /** Without a failure the run tries every file. */
  lemma {:induction false} BatchAllPass(planned: seq<Attempt>)
    requires forall m :: 0 <= m < |planned| ==> planned[m].outcome != Failed
    ensures Batch(planned) == BatchReport(planned, false)
    decreases |planned|
  {
    if planned != [] {
      BatchAllPass(planned[1..]);
      assert [planned[0]] + planned[1..] == planned;
    }
  }

  /** The run ends at the first failure. */
  lemma {:induction false} BatchFirstFailure(planned: seq<Attempt>, k: nat)
    requires k < |planned| && planned[k].outcome == Failed
    requires forall m :: 0 <= m < k ==> planned[m].outcome != Failed
    ensures Batch(planned) == BatchReport(planned[..k + 1], true)
    decreases k
  {
    if k == 0 {
      assert planned[..1] == [planned[0]];
    } else {
      BatchFirstFailure(planned[1..], k - 1);
      assert [planned[0]] + planned[1..][..k] == planned[..k + 1];
    }
  }

  /** How `execute` ended. */
  datatype ExecuteResult =
    | NothingSelected
    | Cancelled
    | DestinationFailed(eventName: string, subfolder: string)
    | Ran(eventName: string, subfolder: string, report: BatchReport)

  /** The main window's state: the paths waiting to be processed. */
  class FileMoverApp {
    var filePaths: seq<string>

    ghost predicate Valid()
      reads this
    {
      NoDuplicates(filePaths)
    }

    constructor()
      ensures filePaths == [] && Valid()
    {
      filePaths := [];
    }

    /** `select_files`: the paths chosen in the file dialog. */
    method SelectFiles(chosen: seq<string>)
      requires Valid()
      modifies this
      ensures Valid()
      ensures filePaths == Appended(old(filePaths), chosen)
    {
      for i := 0 to |chosen|
        invariant filePaths == Appended(old(filePaths), chosen[..i])
      {
        assert chosen[..i + 1][..i] == chosen[..i];
        if chosen[i] !in filePaths {
          filePaths := filePaths + [chosen[i]];
        }
      }
      assert chosen[..|chosen|] == chosen;
    }

    /** `on_drop`: the dropped paths (already split into words), each with its braces stripped. */
    method OnDrop(dropped: seq<string>)
      requires Valid()
      modifies this
      ensures Valid()
      ensures filePaths == Appended(old(filePaths), MapStripBraces(dropped))
    {
      ghost var stripped := MapStripBraces(dropped);
      for i := 0 to |dropped|
        invariant filePaths == Appended(old(filePaths), stripped[..i])
      {
        var path := StripBraces(dropped[i]);
        assert stripped[..i + 1][..i] == stripped[..i];
        if path !in filePaths {
          filePaths := filePaths + [path];
        }
      }
      assert stripped[..|dropped|] == stripped;
    }

    /**
     * `execute`: nothing happens without files; with an empty event name the user is
     * asked whether to go on (`proceedWithoutName` is the answer); then the destination
     * folder is created (`destinationCreated` is whether that worked: a failure there
     * ends `execute` before any file is tried); then the batch runs and the list is
     * emptied only when no file aborted it.
     */
    method Execute(eventEntry: string, subfolderEntry: string, proceedWithoutName: bool,
                   destinationCreated: bool, outcome: (string, Action) -> FileOutcome) returns (r: ExecuteResult)
      requires Valid()
      modifies this
      ensures Valid()
      ensures old(filePaths) == [] ==> r == NothingSelected
      ensures old(filePaths) != [] && Strip(eventEntry) == [] && !proceedWithoutName ==> r == Cancelled
      ensures old(filePaths) != [] && (Strip(eventEntry) != [] || proceedWithoutName) && !destinationCreated ==>
        r == DestinationFailed(Strip(eventEntry), Strip(subfolderEntry))
      ensures old(filePaths) != [] && (Strip(eventEntry) != [] || proceedWithoutName) && destinationCreated ==>
        r == Ran(Strip(eventEntry), Strip(subfolderEntry), Batch(Plan(old(filePaths), outcome)))
      ensures filePaths == (if r.Ran? && !r.report.aborted then [] else old(filePaths))
    {
      if filePaths == [] {
        return NothingSelected;
      }
      var eventName := Strip(eventEntry);
      if eventName == [] && !proceedWithoutName {
        return Cancelled;
      }
      var subfolder := Strip(subfolderEntry);
      if !destinationCreated {
        return DestinationFailed(eventName, subfolder);
      }
      var report := RunBatch(filePaths, outcome);
      if !report.aborted {
        filePaths := [];
      }
      return Ran(eventName, subfolder, report);
    }
  }
}
