/** Dependency counts of a go.mod file.

    Both programs take the `require` list of the parsed go.mod file and count
    the entries that are not marked `// indirect`: cmd/main.go with a loop in
    `PrintModuleInfo`, main.go with `lo.Reduce`, after which main.go derives
    the indirect count by subtraction and stores both in a `ModuleStats`. */
module Modules {
  import Counting
  import Fold

  /** One `require` entry of a parsed go.mod file: module path, version, and
      whether it carries the `// indirect` marker. */
  datatype Require = Require(path: string, version: string, indirect: bool)

  predicate IsDirect(r: Require)
  {
    !r.indirect
  }

  predicate IsIndirect(r: Require)
  {
    r.indirect
  }

  /** The accumulator main.go hands to `lo.Reduce`: one more for a direct
      entry, unchanged for an indirect one; the index is ignored. */
  function DirDepsStep(agg: int, item: Require, index: int): (r: int)
    ensures agg <= r <= agg + 1
    ensures r == agg + 1 <==> IsDirect(item)
  {
    if !item.indirect then agg + 1 else agg
  }

  /** `dirDeps` of main.go: the fold of `DirDepsStep` over the list from 0,
      which is the number of direct entries. */
  function DirDeps(reqs: seq<Require>): (n: int)
    ensures n == Counting.CountIf(reqs, IsDirect)
  {
    Fold.ReduceCounts(reqs, DirDepsStep, IsDirect, 0);
    Fold.Reduce(reqs, DirDepsStep, 0)
  }

  /** The fold counts exactly the direct entries, so it lies between 0 and
      the length of the list. */
  lemma {:induction false} DirDepsCountsDirect(reqs: seq<Require>)
    ensures DirDeps(reqs) == Counting.CountIf(reqs, IsDirect)
    ensures DirDeps(reqs) == |set i | 0 <= i < |reqs| && !reqs[i].indirect|
    ensures 0 <= DirDeps(reqs) <= |reqs|
  {
    Fold.ReduceCounts(reqs, DirDepsStep, IsDirect, 0);
    Counting.CountIfIsIndexCount(reqs, IsDirect);
    assert Counting.Indices(reqs, IsDirect) == set i | 0 <= i < |reqs| && !reqs[i].indirect;
  }

  /** The order of the `require` entries does not matter to the fold. */
  lemma DirDepsPermutation(a: seq<Require>, b: seq<Require>)
    requires multiset(a) == multiset(b)
    ensures DirDeps(a) == DirDeps(b)
  {
    DirDepsCountsDirect(a);
    DirDepsCountsDirect(b);
    Counting.CountIfPermutation(a, b, IsDirect);
  }

  /** The loop of `PrintModuleInfo` in cmd/main.go: skip indirect entries and
      count the rest. It agrees with main.go's fold on every list. */
  method CountDirectModules(reqs: seq<Require>) returns (count: nat)
    ensures count == |set i | 0 <= i < |reqs| && !reqs[i].indirect|
    ensures count <= |reqs|
    ensures count == DirDeps(reqs)
  {
    count := 0;
    for i := 0 to |reqs|
      invariant count == Counting.CountIf(reqs[..i], IsDirect)
    {
      assert reqs[..i + 1][..i] == reqs[..i];
      if reqs[i].indirect {
        continue;
      }
      count := count + 1;
    }
    assert reqs[..|reqs|] == reqs;
    DirDepsCountsDirect(reqs);
  }

  /** main.go's `ModuleStats`. `directDependencies` is the Go field spelled
      `DirecteDependencies`. */
  datatype ModuleStats = ModuleStats(name: string, directDependencies: int, indirectDependencies: int)

  /** The construction in main.go: the module name as given, the fold's count
      of direct entries, and the rest of the list as indirect. The
      subtraction never goes negative and the indirect count is the number of
      entries actually marked indirect. */
  function BuildModuleStats(name: string, reqs: seq<Require>): (ms: ModuleStats)
    ensures ms.name == name
    ensures ms.directDependencies == |set i | 0 <= i < |reqs| && !reqs[i].indirect|
    ensures ms.indirectDependencies == |set i | 0 <= i < |reqs| && reqs[i].indirect|
    ensures 0 <= ms.directDependencies <= |reqs| && 0 <= ms.indirectDependencies <= |reqs|
    ensures ms.directDependencies + ms.indirectDependencies == |reqs|
  {
    var dirDeps := DirDeps(reqs);
    DirDepsCountsDirect(reqs);
    Counting.CountIfComplement(reqs, IsDirect, IsIndirect);
    Counting.CountIfIsIndexCount(reqs, IsIndirect);
    assert Counting.Indices(reqs, IsIndirect) == set i | 0 <= i < |reqs| && reqs[i].indirect;
    ModuleStats(name, dirDeps, |reqs| - dirDeps)
  }

  /** Three direct and two indirect requirements, interleaved, give three
      direct and two indirect dependencies. */
  lemma ThreeDirectTwoIndirect()
    ensures
      var a := Require("example.com/a", "v1.0.0", false);
      var b := Require("example.com/b", "v1.2.0", true);
      var c := Require("example.com/c", "v0.3.1", false);
      var d := Require("example.com/d", "v2.0.0", true);
      var e := Require("example.com/e", "v1.1.0", false);
      BuildModuleStats("example.com/m", [a, b, c, d, e]) == ModuleStats("example.com/m", 3, 2)
  {
    var a := Require("example.com/a", "v1.0.0", false);
    var b := Require("example.com/b", "v1.2.0", true);
    var c := Require("example.com/c", "v0.3.1", false);
    var d := Require("example.com/d", "v2.0.0", true);
    var e := Require("example.com/e", "v1.1.0", false);
    var reqs := [a, b, c, d, e];
    DirDepsCountsDirect(reqs);
    assert Counting.CountIf(reqs[..0], IsDirect) == 0;
    assert Counting.CountIf(reqs[..1], IsDirect) == 1 by { assert reqs[..1][..0] == reqs[..0]; }
    assert Counting.CountIf(reqs[..2], IsDirect) == 1 by { assert reqs[..2][..1] == reqs[..1]; }
    assert Counting.CountIf(reqs[..3], IsDirect) == 2 by { assert reqs[..3][..2] == reqs[..2]; }
    assert Counting.CountIf(reqs[..4], IsDirect) == 2 by { assert reqs[..4][..3] == reqs[..3]; }
    assert Counting.CountIf(reqs, IsDirect) == 3 by { assert reqs[..4] == reqs[..|reqs| - 1]; }
  }
}
