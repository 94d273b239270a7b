/** Slash-separated file paths, as `path/filepath` sees them on a Unix
    system: the only separator is '/'. */
module Paths {

  const Separator: char := '/'

  /** `s` ends `t`. */
  predicate IsSuffix(s: string, t: string)
  {
    |s| <= |t| && t[|t| - |s|..] == s
  }

  /** The last element of `path`: everything after its last separator, or
      the whole path when it has none. */
  function FinalElement(path: string): (r: string)
    ensures IsSuffix(r, path)
    ensures Separator !in r
    ensures |r| < |path| ==> path[|path| - |r| - 1] == Separator
  {
    if |path| == 0 || path[|path| - 1] == Separator then ""
    else
      var init, c := path[..|path| - 1], path[|path| - 1];
      assert path == init + [c];
      FinalElement(init) + [c]
  }

  /** `filepath.Ext`: the suffix of `path` starting at the last '.' of its
      final element, or "" when that element has no '.' (see
      `ExtIsLastDot`). Go finds it by scanning back from the end until a
      separator; this definition peels the last character off in the same
      order. */
  function Ext(path: string): (r: string)
    ensures |r| <= |path|
    ensures r == "" || r[0] == '.'
  {
    if |path| == 0 || path[|path| - 1] == Separator then ""
    else if path[|path| - 1] == '.' then "."
    else
      var e := Ext(path[..|path| - 1]);
      if e == "" then "" else e + [path[|path| - 1]]
  }

  /** Appending a character other than a separator extends the final
      element by that character. */
  lemma FinalElementSnoc(init: string, c: char)
    requires c != Separator
    ensures FinalElement(init + [c]) == FinalElement(init) + [c]
  {
    assert (init + [c])[..|init|] == init;
  }

  /** Appending a character that is neither '.' nor a separator keeps a
      non-empty extension the suffix from the last '.'. */
  lemma ExtSnoc(c: char, e: string, f: string)
    requires c != '.' && c != Separator
    requires IsSuffix(e, f)
    requires e != "" ==> e[0] == '.' && '.' !in e[1..]
    ensures e != "" ==> IsSuffix(e + [c], f + [c]) && '.' !in (e + [c])[1..]
  {
    if e != "" {
      assert (e + [c])[1..] == e[1..] + [c];
      assert (f + [c])[|f| + 1 - |e| - 1..] == f[|f| - |e|..] + [c];
    }
  }

  /** `Ext` is what the documentation of `filepath.Ext` promises: a suffix of
      the final element that is empty exactly when that element holds no
      '.', and otherwise starts at its last '.'. */
  lemma {:induction false} ExtIsLastDot(path: string)
    ensures IsSuffix(Ext(path), FinalElement(path))
    ensures Ext(path) == "" <==> '.' !in FinalElement(path)
    ensures Ext(path) != "" ==> '.' !in Ext(path)[1..]
  {
    if |path| > 0 && path[|path| - 1] != Separator && path[|path| - 1] != '.' {
      var init, c := path[..|path| - 1], path[|path| - 1];
      assert path == init + [c];
      ExtIsLastDot(init);
      FinalElementSnoc(init, c);
      ExtSnoc(c, Ext(init), FinalElement(init));
    }
  }

  /** `Ext` after one more character, in terms of `Ext` before it. */
  lemma ExtAppend(init: string, c: char)
    ensures Ext(init + [c]) ==
      if c == Separator then ""
      else if c == '.' then "."
      else if Ext(init) == "" then ""
      else Ext(init) + [c]
  {
    assert (init + [c])[..|init|] == init;
  }

  /** Appending a character that is neither '.' nor a separator to a path
      with an extension extends the extension by that character. */
  lemma ExtExtend(init: string, c: char, e: string)
    requires Ext(init) == e && e != ""
    requires c != '.' && c != Separator
    ensures Ext(init + [c]) == e + [c]
  {
    ExtAppend(init, c);
  }

  /** Whatever precedes it, a trailing ".go" is the extension. */
  lemma ExtOfGoSuffix(prefix: string)
    ensures Ext(prefix + ".go") == ".go"
  {
    var a := prefix + ['.'];
    var b := a + ['g'];
    ExtAppend(prefix, '.');
    ExtExtend(a, 'g', ['.']);
    ExtExtend(b, 'o', ['.', 'g']);
    assert b + ['o'] == prefix + ".go";
  }

  /** A suffix of a suffix is a suffix. */
  lemma SuffixTransitive(a: string, b: string, c: string)
    requires IsSuffix(a, b) && IsSuffix(b, c)
    ensures IsSuffix(a, c)
  {
    assert c[|c| - |b|..][|b| - |a|..] == c[|c| - |a|..];
  }

  /** A path has extension ".go" exactly when it ends in ".go"; in
      particular a file named just ".go" has it. */
  lemma ExtIsGo(path: string)
    ensures Ext(path) == ".go" <==> IsSuffix(".go", path)
  {
    if IsSuffix(".go", path) {
      assert path == path[..|path| - 3] + ".go";
      ExtOfGoSuffix(path[..|path| - 3]);
    }
    if Ext(path) == ".go" {
      ExtIsLastDot(path);
      SuffixTransitive(".go", FinalElement(path), path);
    }
  }

  /** Only the final element matters: dots in directory names are never
      part of an extension. */
  lemma {:induction false} ExtOfJoin(dir: string, name: string)
    requires Separator !in name
    ensures Ext(dir + [Separator] + name) == Ext(name)
  {
    if name == "" {
      assert dir + [Separator] + name == dir + [Separator];
    } else {
      var init, c := name[..|name| - 1], name[|name| - 1];
      assert name == init + [c];
      assert dir + [Separator] + name == (dir + [Separator] + init) + [c];
      ExtOfJoin(dir, init);
      ExtAppend(dir + [Separator] + init, c);
      ExtAppend(init, c);
    }
  }

  /** A path without any '.' has no extension. */
  lemma ExtNoDot(path: string)
    requires '.' !in path
    ensures Ext(path) == ""
  {
    ExtIsLastDot(path);
  }

  /** Worked cases of the rule. */
  lemma ExtExamples()
    ensures Ext("cmd/main.go") == ".go"
    ensures Ext("api/v1.pb.go") == ".go"
    ensures Ext("internal/.go") == ".go"
    ensures Ext("vendor.go/LICENSE") == ""
    ensures Ext("Makefile") == ""
  {
    ExtIsGo("cmd/main.go");
    ExtIsGo("api/v1.pb.go");
    ExtIsGo("internal/.go");
    ExtOfJoin("vendor.go", "LICENSE");
    assert "vendor.go" + [Separator] + "LICENSE" == "vendor.go/LICENSE";
    ExtNoDot("LICENSE");
    ExtNoDot("Makefile");
  }
}
