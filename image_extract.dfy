/**
 * `FileMoverApp.extract_and_copy_images`: every image file found anywhere in the
 * extracted archive is copied flat into the target directory; a name already taken
 * there is replaced by `base_1.ext`, `base_2.ext`, ... until a free one is found.
 * The target directory is the set of names it holds, which grows with each copy.
 */
module ImageExtract {
  import opened Wrappers
  import opened Text
  import opened PathNames
  import opened Archive

  /** `is_image`: the lower-cased extension is one of the supported ones. */
  predicate IsImage(fileName: string, supported: set<string>) {
    Lower(SplitExt(fileName).1) in supported
  }

  /**
   * `is_image(os.path.join(root, file))` is `is_image(file)`: the test reads only the
   * extension, and the directory part never changes it.
   */
  lemma IsImageIgnoresDirectory(dir: string, sep: char, name: string, supported: set<string>)
    requires sep in Separators
    ensures IsImage(dir + [sep] + name, supported) <==> IsImage(name, supported)
  {
    SplitExtIgnoresDirectory(dir, sep, name);
  }

  /** The image files of `files`, in their order. */
  function Images(files: seq<string>, supported: set<string>): seq<string>
    decreases |files|
  {
    if files == [] then []
    else
      var last := files[|files| - 1];
      Images(files[..|files| - 1], supported) + (if IsImage(last, supported) then [last] else [])
  }

  /** A file is kept exactly as often as it occurs, when it is an image, and not at all otherwise. */
  lemma {:induction false} ImagesAreTheImageFiles(files: seq<string>, supported: set<string>)
    ensures forall x ::
      multiset(Images(files, supported))[x] == (if IsImage(x, supported) then multiset(files)[x] else 0)
    decreases |files|
  {
    if files != [] {
      var init, last := files[..|files| - 1], files[|files| - 1];
      assert files == init + [last];
      ImagesAreTheImageFiles(init, supported);
    }
  }

  lemma ImagesStep(files: seq<string>, i: nat, supported: set<string>)
    requires i < |files|
    ensures Images(files[..i + 1], supported) ==
      Images(files[..i], supported) + (if IsImage(files[i], supported) then [files[i]] else [])
  {
    assert files[..i + 1][..i] == files[..i];
  }

  function DigitChar(d: nat): char
    requires d < 10
  {
    ('0' as int + d) as char
  }

  /** `str(n)` for a natural number: decimal digits, no leading zero. */
  function Decimal(n: nat): (s: string)
    ensures |s| >= 1 && (n >= 10 ==> |s| >= 2)
    decreases n
  {
    if n < 10 then [DigitChar(n)] else Decimal(n / 10) + [DigitChar(n % 10)]
  }

  /** Different numbers are written differently. */
  lemma {:induction false} DecimalInjective(a: nat, b: nat)
    requires Decimal(a) == Decimal(b)
    ensures a == b
    decreases a
  {
    if a >= 10 && b >= 10 {
      var sa, sb := Decimal(a), Decimal(b);
      assert sa[|sa| - 1] == DigitChar(a % 10) && sb[|sb| - 1] == DigitChar(b % 10);
      assert sa[..|sa| - 1] == Decimal(a / 10) && sb[..|sb| - 1] == Decimal(b / 10);
      DecimalInjective(a / 10, b / 10);
    } else if a < 10 && b < 10 {
      assert Decimal(a)[0] == DigitChar(a);
    }
  }

  /**
   * The k-th name tried for `name`: the name itself first, then `base_k + ext`, where
   * `base, ext = os.path.splitext(name)`.
   */
  function Candidate(name: string, k: nat): string {
    if k == 0 then name else SplitExt(name).0 + "_" + Decimal(k) + SplitExt(name).1
  }

  /** The names tried for one file are pairwise different. */
  lemma CandidateInjective(name: string, a: nat, b: nat)
    requires Candidate(name, a) == Candidate(name, b)
    ensures a == b
  {
    var (base, ext) := SplitExt(name);
    if a != 0 && b != 0 {
      var x, y := Candidate(name, a), Candidate(name, b);
      var da, db := Decimal(a), Decimal(b);
      assert |da| == |db|;
      assert x[|base| + 1..|base| + 1 + |da|] == da;
      assert y[|base| + 1..|base| + 1 + |db|] == db;
      DecimalInjective(a, b);
    }
  }

  /**
   * `dest` is the name the naming loop settles on: not in `existing`, and the first
   * candidate for `name` that is not.
   */
  ghost predicate IsFirstFree(existing: set<string>, name: string, dest: string) {
    dest !in existing &&
    exists k: nat :: dest == Candidate(name, k) && forall j: nat :: j < k ==> Candidate(name, j) in existing
  }

  /** At most one name is the first free one. */
  lemma FirstFreeUnique(existing: set<string>, name: string, d1: string, d2: string)
    requires IsFirstFree(existing, name, d1) && IsFirstFree(existing, name, d2)
    ensures d1 == d2
  {
    var k1: nat :| d1 == Candidate(name, k1) && forall j: nat :: j < k1 ==> Candidate(name, j) in existing;
    var k2: nat :| d2 == Candidate(name, k2) && forall j: nat :: j < k2 ==> Candidate(name, j) in existing;
  }

  /**
   * The naming loop of `extract_and_copy_images`: start from the file's own name and
   * try `base_1.ext`, `base_2.ext`, ... while the name is taken. It ends for every
   * finite directory, because the names it tries are all different.
   */
  method FreeName(existing: set<string>, name: string) returns (dest: string)
    ensures IsFirstFree(existing, name, dest)
    ensures name !in existing ==> dest == name
  {
    dest := name;
    var counter := 1;
    var (base, ext) := SplitExt(dest);
    ghost var untried := existing;
    while dest in existing
      invariant counter >= 1
      invariant dest == Candidate(name, counter - 1)
      invariant forall j: nat :: j < counter - 1 ==> Candidate(name, j) in existing
      invariant untried <= existing
      invariant forall x :: x in existing && x !in untried ==>
        exists j: nat :: j < counter - 1 && x == Candidate(name, j)
      decreases untried
    {
      if dest !in untried {
        var j: nat :| j < counter - 1 && dest == Candidate(name, j);
        CandidateInjective(name, j, counter - 1);
      }
      untried := untried - {dest};
      dest := base + "_" + Decimal(counter) + ext;
      counter := counter + 1;
    }
  }

  /** A name that is free is kept. */
  lemma FreeNameIsKept(existing: set<string>, name: string, dest: string)
    requires name !in existing
    requires IsFirstFree(existing, name, dest)
    ensures dest == name
  {
    assert IsFirstFree(existing, name, Candidate(name, 0));
    FirstFreeUnique(existing, name, dest, name);
  }

  /** The second copy of a name gets the suffix `_1`. */
  lemma SecondCopyGetsSuffixOne(name: string, dest: string)
    requires IsFirstFree({name}, name, dest)
    ensures dest == SplitExt(name).0 + "_1" + SplitExt(name).1
  {
    assert IsFirstFree({name}, name, Candidate(name, 1));
    FirstFreeUnique({name}, name, dest, Candidate(name, 1));
    assert Decimal(1) == "1";
  }

  function SetOf(s: seq<string>): set<string> {
    set x | x in s
  }

  /** The image files of an extracted tree, in the order the walk meets them. */
  function ExtractedImages(archive: Dir, supported: set<string>): seq<string> {
    Images(FilesOf(Walk(archive, [])), supported)
  }

  /**
   * `copied` are the names the naming loop gives to `images`, copied one after the
   * other into a directory that held `target`: each is the first free name once the
   * copies before it are there.
   */
  ghost predicate CopiedInTurn(target: set<string>, images: seq<string>, copied: seq<string>) {
    |copied| == |images| &&
    forall n :: 0 <= n < |copied| ==> IsFirstFree(target + SetOf(copied[..n]), images[n], copied[n])
  }

  lemma CopiedInTurnExtend(target: set<string>, images: seq<string>, copied: seq<string>, name: string, dest: string)
    requires CopiedInTurn(target, images, copied)
    requires IsFirstFree(target + SetOf(copied), name, dest)
    ensures CopiedInTurn(target, images + [name], copied + [dest])
  {
    var copied', images' := copied + [dest], images + [name];
    forall n | 0 <= n < |copied'|
      ensures IsFirstFree(target + SetOf(copied'[..n]), images'[n], copied'[n])
    {
      if n < |copied| {
        assert copied'[..n] == copied[..n];
      } else {
        assert copied'[..n] == copied;
      }
    }
  }

  /** Copying in turn never overwrites a name that was there, nor one copied before. */
  lemma CopiedInTurnNeverOverwrites(target: set<string>, images: seq<string>, copied: seq<string>)
    requires CopiedInTurn(target, images, copied)
    ensures forall n :: 0 <= n < |copied| ==> copied[n] !in target
    ensures forall m, n :: 0 <= m < n < |copied| ==> copied[m] != copied[n]
  {
    forall m, n | 0 <= m < n < |copied| ensures copied[m] != copied[n] {
      assert copied[m] in SetOf(copied[..n]);
    }
  }

  /**
   * `extract_and_copy_images(zip_path, target_dir)` once 7-Zip has run: `extracted` is
   * the unpacked tree, or None when the extractor could not be started. Returns the
   * names given to the copies, in copy order, and the target directory afterwards.
   */
  method ExtractAndCopyImages(extracted: Option<Dir>, target: set<string>, supported: set<string>)
    returns (copied: seq<string>, after: set<string>)
    ensures extracted.None? ==> copied == []
    ensures extracted.Some? ==> CopiedInTurn(target, ExtractedImages(extracted.value, supported), copied)
    ensures after == target + SetOf(copied)
    ensures forall n :: 0 <= n < |copied| ==> copied[n] !in target
    ensures forall m, n :: 0 <= m < n < |copied| ==> copied[m] != copied[n]
  {
    copied, after := [], target;
    if extracted.None? {
      return;
    }
    var files := FilesOf(Walk(extracted.value, []));
    for i := 0 to |files|
      invariant CopiedInTurn(target, Images(files[..i], supported), copied)
      invariant after == target + SetOf(copied)
    {
      var file := files[i];
      ImagesStep(files, i, supported);
      // The source tests the joined path `os.path.join(root, file)`; whatever `root` is,
      // the answer is the file name's, which is what the walk's names are tested by here.
      forall root: string, sep: char | sep in Separators
        ensures IsImage(root + [sep] + file, supported) <==> IsImage(file, supported)
      {
        IsImageIgnoresDirectory(root, sep, file, supported);
      }
      if IsImage(file, supported) {
        var dest := FreeName(after, file);
        CopiedInTurnExtend(target, Images(files[..i], supported), copied, file, dest);
        assert SetOf(copied + [dest]) == SetOf(copied) + {dest};
        copied := copied + [dest];
        after := after + {dest};
      }
    }
    assert files[..|files|] == files;
    CopiedInTurnNeverOverwrites(target, Images(files, supported), copied);
  }
}
