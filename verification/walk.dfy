/** The three directory walks of cmd/main.go: `PrintFileInfo` counts Go
    files, `PrintSLOCCount` adds up their line counts and
    `PrintCountGoPackages` counts the directories that hold them.

    A walk is given as the sequence of entries `filepath.WalkDir` hands to
    the callback, in the order it hands them; the file system is a function
    from a path to the bytes stored there, and `filepath.Dir` is a function
    parameter, since nothing proved here depends on how it splits a path. */
module Walk {
  import Counting
  import Lines
  import Paths

  /** One visit of the walk callback: the path and whether it names a
      directory. */
  datatype Entry = Entry(path: string, isDir: bool)

  /** The test all three walks apply: a non-directory whose extension is
      exactly ".go", which is a non-directory whose path ends in ".go". */
  predicate IsGoFile(e: Entry)
    ensures IsGoFile(e) <==> !e.isDir && EndsInGo(e.path)
  {
    Paths.ExtIsGo(e.path);
    assert Paths.IsSuffix(".go", e.path) <==> EndsInGo(e.path) by {
      if EndsInGo(e.path) {
        assert e.path[|e.path| - 3..] == ".go";
      }
    }
    !e.isDir && Paths.Ext(e.path) == ".go"
  }

  /** The last three characters of `path` are '.', 'g' and 'o'. */
  predicate EndsInGo(path: string)
  {
    |path| >= 3 && path[|path| - 3] == '.' && path[|path| - 2] == 'g' && path[|path| - 1] == 'o'
  }

  /** The Go files of a walk, each as often as the walk visits it. The
      order is the walk order: see `GoFilesAppend`. */
  function GoFiles(entries: seq<Entry>): (r: seq<Entry>)
    ensures |r| == Counting.CountIf(entries, IsGoFile)
    ensures forall i :: 0 <= i < |r| ==> IsGoFile(r[i]) && r[i] in entries
    ensures forall i :: 0 <= i < |entries| && IsGoFile(entries[i]) ==> entries[i] in r
    ensures multiset(r) <= multiset(entries)
  {
    var r := Counting.Filter(entries, IsGoFile);
    assert forall i :: 0 <= i < |r| ==> r[i] in multiset(entries);
    r
  }

  /** One more entry adds itself at the end of the Go files exactly when it
      is one; with `GoFiles([]) == []` this fixes the order. */
  lemma GoFilesAppend(entries: seq<Entry>, e: Entry)
    ensures GoFiles(entries + [e]) == GoFiles(entries) + (if IsGoFile(e) then [e] else [])
  {
    assert (entries + [e])[..|entries|] == entries;
  }

  /** Every Go file appears in `GoFiles` exactly as often as the walk
      visits it, and nothing else appears. */
  lemma {:induction false} GoFilesMultiplicity(entries: seq<Entry>, e: Entry)
    ensures multiset(GoFiles(entries))[e] == if IsGoFile(e) then multiset(entries)[e] else 0
  {
    if |entries| > 0 {
      var init, last := entries[..|entries| - 1], entries[|entries| - 1];
      assert entries == init + [last];
      GoFilesMultiplicity(init, e);
      GoFilesAppend(init, last);
    }
  }

  /** The walk callback of `PrintFileInfo`: skip directories, count the
      entries whose extension is ".go". */
  method CountGoFiles(entries: seq<Entry>) returns (count: nat)
    ensures count == |set i | 0 <= i < |entries| && IsGoFile(entries[i])|
    ensures count == |GoFiles(entries)|
  {
    count := 0;
    for i := 0 to |entries|
      invariant count == Counting.CountIf(entries[..i], IsGoFile)
    {
      assert entries[..i + 1][..i] == entries[..i];
      var e := entries[i];
      if e.isDir {
        continue;
      }
      if Paths.Ext(e.path) == ".go" {
        count := count + 1;
      }
    }
    assert entries[..|entries|] == entries;
    Counting.CountIfIsIndexCount(entries, IsGoFile);
    assert Counting.Indices(entries, IsGoFile) == set i | 0 <= i < |entries| && IsGoFile(entries[i]);
  }

  /** The per-file line counts of `files`, added up. */
  function SlocSum(files: seq<Entry>, contents: string -> seq<Lines.byte>): nat
  {
    if |files| == 0 then 0
    else
      var last := files[|files| - 1];
      SlocSum(files[..|files| - 1], contents) + Lines.NewlineCount(contents(last.path))
  }

  /** The contents of `files` laid end to end. */
  function Sources(files: seq<Entry>, contents: string -> seq<Lines.byte>): seq<Lines.byte>
  {
    if |files| == 0 then []
    else Sources(files[..|files| - 1], contents) + contents(files[|files| - 1].path)
  }

  /** Adding file by file is counting the line feeds of all files together,
      so the total never exceeds the number of bytes read. */
  lemma {:induction false} SlocSumIsNewlinesOfSources(files: seq<Entry>, contents: string -> seq<Lines.byte>)
    ensures SlocSum(files, contents) == Lines.NewlineCount(Sources(files, contents))
    ensures SlocSum(files, contents) <= |Sources(files, contents)|
  {
    if |files| > 0 {
      var init := files[..|files| - 1];
      SlocSumIsNewlinesOfSources(init, contents);
      Lines.NewlineCountAppend(Sources(init, contents), contents(files[|files| - 1].path));
    }
  }

  /** The walk callback of `PrintSLOCCount`: skip directories, add the line
      count of every ".go" file. It sums over exactly the entries
      `CountGoFiles` counts. */
  method CountSLOC(entries: seq<Entry>, contents: string -> seq<Lines.byte>) returns (total: nat)
    ensures total == SlocSum(GoFiles(entries), contents)
    ensures total == Lines.NewlineCount(Sources(GoFiles(entries), contents))
  {
    total := 0;
    for i := 0 to |entries|
      invariant total == SlocSum(GoFiles(entries[..i]), contents)
    {
      var e := entries[i];
      SlocSumStepAt(entries, i, contents);
      if e.isDir {
        continue;
      }
      if Paths.Ext(e.path) == ".go" {
        var n := Lines.CountSLOCFromData(contents(e.path));
        total := total + n;
      }
    }
    assert entries[..|entries|] == entries;
    SlocSumIsNewlinesOfSources(GoFiles(entries), contents);
  }

  /** One more entry adds its line count to the total exactly when it is a
      Go file. */
  lemma SlocSumStep(entries: seq<Entry>, e: Entry, contents: string -> seq<Lines.byte>)
    ensures SlocSum(GoFiles(entries + [e]), contents) ==
      SlocSum(GoFiles(entries), contents) + (if IsGoFile(e) then Lines.NewlineCount(contents(e.path)) else 0)
  {
    GoFilesAppend(entries, e);
    if IsGoFile(e) {
      SlocSumAppend(GoFiles(entries), e, contents);
    } else {
      assert GoFiles(entries) + [] == GoFiles(entries);
    }
  }

  /** `SlocSumStep` for the prefix the loop has visited. */
  lemma SlocSumStepAt(entries: seq<Entry>, i: nat, contents: string -> seq<Lines.byte>)
    requires i < |entries|
    ensures SlocSum(GoFiles(entries[..i + 1]), contents) ==
      SlocSum(GoFiles(entries[..i]), contents) + (if IsGoFile(entries[i]) then Lines.NewlineCount(contents(entries[i].path)) else 0)
  {
    assert entries[..i + 1] == entries[..i] + [entries[i]];
    SlocSumStep(entries[..i], entries[i], contents);
  }

  lemma SlocSumAppend(files: seq<Entry>, e: Entry, contents: string -> seq<Lines.byte>)
    ensures SlocSum(files + [e], contents) == SlocSum(files, contents) + Lines.NewlineCount(contents(e.path))
  {
    assert (files + [e])[..|files|] == files;
  }

  /** Two file systems that agree on every Go file of the walk give the same
      total: directories and other files contribute nothing. */
  lemma SlocIgnoresOtherEntries(entries: seq<Entry>, c1: string -> seq<Lines.byte>, c2: string -> seq<Lines.byte>)
    requires forall e :: e in entries && IsGoFile(e) ==> c1(e.path) == c2(e.path)
    ensures SlocSum(GoFiles(entries), c1) == SlocSum(GoFiles(entries), c2)
  {
    SlocSumDependsOnlyOnFiles(GoFiles(entries), c1, c2);
  }

  /** A sum over files reads nothing but those files. */
  lemma {:induction false} SlocSumDependsOnlyOnFiles(files: seq<Entry>, c1: string -> seq<Lines.byte>, c2: string -> seq<Lines.byte>)
    requires forall i :: 0 <= i < |files| ==> c1(files[i].path) == c2(files[i].path)
    ensures SlocSum(files, c1) == SlocSum(files, c2)
  {
    if |files| > 0 {
      SlocSumDependsOnlyOnFiles(files[..|files| - 1], c1, c2);
    }
  }

  /** The directories of the Go files of a walk, gathered in walk order. */
  function PackageDirs(entries: seq<Entry>, dir: string -> string): (r: set<string>)
    ensures r == set e | e in entries && IsGoFile(e) :: dir(e.path)
    ensures |r| <= Counting.CountIf(entries, IsGoFile)
  {
    if |entries| == 0 then {}
    else
      var init, last := entries[..|entries| - 1], entries[|entries| - 1];
      assert entries == init + [last];
      var seen := PackageDirs(init, dir);
      DirsSnoc(init, last, dir);
      if IsGoFile(last) then
        assert |seen + {dir(last.path)}| <= |seen| + 1;
        seen + {dir(last.path)}
      else seen
  }

  /** One more entry adds its directory to the directories of the Go files
      exactly when it is a Go file. */
  lemma DirsSnoc(init: seq<Entry>, last: Entry, dir: string -> string)
    ensures (set e | e in init + [last] && IsGoFile(e) :: dir(e.path)) ==
      (set e | e in init && IsGoFile(e) :: dir(e.path)) + (if IsGoFile(last) then {dir(last.path)} else {})
  {
  }

  /** The walk callback of `PrintCountGoPackages`: skip directories and
      non-Go files, record the directory of each Go file in a set, and report
      the size of the set. */
  method CountPackages(entries: seq<Entry>, dir: string -> string) returns (count: nat)
    ensures count == |set e | e in entries && IsGoFile(e) :: dir(e.path)|
    ensures count <= |GoFiles(entries)|
  {
    var seen: set<string> := {};
    for i := 0 to |entries|
      invariant seen == PackageDirs(entries[..i], dir)
    {
      var e := entries[i];
      assert entries[..i + 1][..i] == entries[..i];
      if e.isDir {
        continue;
      }
      if Paths.Ext(e.path) != ".go" {
        continue;
      }
      seen := seen + {dir(e.path)};
    }
    assert entries[..|entries|] == entries;
    count := |seen|;
  }

  /** Go files that all sit in one directory make one package, however many
      of them there are. */
  lemma OneDirectoryOnePackage(entries: seq<Entry>, dir: string -> string, d: string)
    requires forall e :: e in entries && IsGoFile(e) ==> dir(e.path) == d
    requires Counting.CountIf(entries, IsGoFile) > 0
    ensures |PackageDirs(entries, dir)| == 1
  {
    Counting.CountIfZero(entries, IsGoFile);
    var i :| 0 <= i < |entries| && IsGoFile(entries[i]);
    assert dir(entries[i].path) in PackageDirs(entries, dir);
    assert PackageDirs(entries, dir) == {d};
  }

  /** A walk has a package exactly when it has a Go file. */
  lemma PackagesIffGoFiles(entries: seq<Entry>, dir: string -> string)
    ensures |PackageDirs(entries, dir)| == 0 <==> Counting.CountIf(entries, IsGoFile) == 0
  {
    Counting.CountIfZero(entries, IsGoFile);
    if Counting.CountIf(entries, IsGoFile) > 0 {
      var i :| 0 <= i < |entries| && IsGoFile(entries[i]);
      assert dir(entries[i].path) in PackageDirs(entries, dir);
    }
  }
}
