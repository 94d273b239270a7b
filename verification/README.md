# gostats counting rules in Dafny

gostats reports statistics about a Go module: its name and how many of its
`require` entries are direct, how many Go packages and Go files it holds,
and how many lines those files have. Two small command-line programs do the
work. cmd/main.go walks the tree three times (files, packages, lines) and
counts direct requirements with a loop. main.go counts them with
`lo.Reduce` and fills a `ModuleStats` record.

This project models those counting rules as pure Dafny functions and
methods over sequences and proves what they compute:

- `Lines`: a file's line count is the number of line-feed bytes in it.
  An unterminated last line is not counted. This is kept exactly as the
  code does it.
- `Paths`: `filepath.Ext` with '/' as the only separator.
- `Walk`: the three walk callbacks, each a loop over the sequence of walk
  entries `(path, isDir)`. Contents of files are a function from path to
  bytes. `filepath.Dir` is a function parameter.
- `Fold`: `lo.Reduce` as a left fold that passes the index.
- `Modules`: the direct-dependency loop, the `lo.Reduce` count and the
  `ModuleStats` construction.
- `Decimal` and `Format`: the `%d` text of small numbers and the choice
  of branch and suffix in `FormatNum`.
- `Counting`: the shared counting and filtering definitions these rest on.

stats/stats.go and main.go:67-121 declare the `Stats` and `CommonStats`
types and the `Gathere` interface. No code fills them, so there is nothing
there to model.

## Model

| member | source | states |
|---|---|---|
| Lines.NewlineCount | cmd/main.go:118-126 | the line count of a byte string is the multiplicity of '\n' in it and never exceeds its length |
| Lines.CountSLOCFromData | cmd/main.go:118-126 | the byte loop returns the number of positions holding '\n' |
| Lines.NewlineCountAppend | cmd/main.go:120-124 | the count of a concatenation is the sum of the counts of the parts |
| Lines.NoNewlineNoLines | cmd/main.go:118-126 | the count is 0 exactly when there is no '\n', even for non-empty input |
| Lines.UnterminatedLastLine | cmd/main.go:118-126 | bytes after the last '\n' add nothing, so an unterminated last line is not counted |
| Lines.TerminatedLastLine | cmd/main.go:118-126 | terminating the last line adds exactly one |
| Lines.OneLineFile | cmd/main.go:118-126 | a one-line file counts 0 without its trailing '\n' and 1 with it |
| Paths.FinalElement | cmd/main.go:67 | the final path element is a suffix of the path, holds no separator and is preceded by one when shorter than the path |
| Paths.Ext | cmd/main.go:67 | `filepath.Ext`, scanning back from the end of the path to the last '.' or separator. Its own ensures give only that the result is no longer than the path and is empty or starts with '.'; the full description is `Paths.ExtIsLastDot` |
| Paths.ExtIsLastDot | cmd/main.go:67 | the extension is a suffix of the final element; it is empty exactly when that element has no '.', and otherwise starts at its last '.' |
| Paths.ExtIsGo | cmd/main.go:67 | the extension is ".go" exactly when the path ends in ".go" |
| Paths.ExtOfJoin | cmd/main.go:67 | dots in directory names never reach the extension |
| Paths.ExtExamples | cmd/main.go:67 | worked cases: "cmd/main.go", "api/v1.pb.go" and "internal/.go" have ".go"; "vendor.go/LICENSE" and "Makefile" have none |
| Walk.IsGoFile | cmd/main.go:64-67 | an entry is counted exactly when it is not a directory and its extension is ".go", which is the same as its path ending in ".go" |
| Walk.GoFiles | cmd/main.go:64-69 | the Go files of a walk are the non-directory entries with extension ".go", each as often as the walk visits it: every element passes the test and comes from the walk, every passing entry is in, the length is the number of passing entries, and the multiset is contained in the walk's |
| Walk.GoFilesMultiplicity | cmd/main.go:64-69 | each entry occurs in the Go files as often as in the walk if it is a Go file, and not at all otherwise |
| Walk.CountGoFiles | cmd/main.go:58-77 | the file count is the number of entries that are not directories and whose extension is ".go" |
| Walk.CountSLOC | cmd/main.go:80-99 | the line total is the sum of per-file line counts over exactly the entries the file count counts, which is the line count of their contents laid end to end |
| Walk.SlocSumIsNewlinesOfSources | cmd/main.go:89-91 | summing per file equals counting the concatenated files, and is bounded by the bytes read |
| Walk.SlocIgnoresOtherEntries | cmd/main.go:86-91 | the contents of directories and non-Go files do not affect the total |
| Walk.PackageDirs | cmd/main.go:144-158 | the set of recorded directories is `{ Dir(p) : p a Go file of the walk }`, no larger than the number of Go files |
| Walk.CountPackages | cmd/main.go:143-166 | the package count is the number of distinct directories of Go files and at most the Go-file count |
| Walk.OneDirectoryOnePackage | cmd/main.go:155-156 | any number of Go files in one directory make one package |
| Walk.PackagesIffGoFiles | cmd/main.go:149-165 | there is a package exactly when there is a Go file |
| Fold.Reduce | main.go:45-51 | `lo.Reduce` folds from the initial value, handing the accumulator each element with its index; the prefix-recursive definition equals the front-to-back range loop started at index 0 |
| Fold.ReduceCounts | main.go:45-51 | a `lo.Reduce` whose step adds one for matching items counts the matching items |
| Modules.DirDepsStep | main.go:45-50 | the closure adds one to the accumulator for an entry not marked indirect and nothing for an indirect one, whatever the index |
| Modules.DirDeps | main.go:45-51 | `dirDeps`, the fold of that closure from 0 over the `require` list, is the number of entries not marked indirect |
| Modules.DirDepsCountsDirect | main.go:45-51 | `dirDeps` is the number of entries not marked indirect, between 0 and the list length |
| Modules.DirDepsPermutation | main.go:45-51 | `dirDeps` does not depend on the order of the `require` entries |
| Modules.CountDirectModules | cmd/main.go:46-52 | the loop counts the entries not marked indirect and agrees with main.go's `dirDeps` on every list |
| Modules.BuildModuleStats | main.go:53-57 | direct is the count of non-indirect entries; indirect = total − direct is the count of indirect entries, never negative; the two add up to the list length |
| Modules.ThreeDirectTwoIndirect | main.go:45-57 | three direct and two indirect entries give 3 and 2 |
| Decimal.FormatInt | cmd/main.go:131 | `%d` text is canonical: digits with no leading zero except for 0 itself, and a leading '-' exactly for negative numbers |
| Decimal.CanonicalTextIsUnique | cmd/main.go:131 | the canonical text of a number is unique, so it is the `%d` text |
| Decimal.FormatIntRoundTrip | cmd/main.go:131 | reading the `%d` text back gives the number |
| Format.FormatNum | cmd/main.go:129-140 | below 1000 (negatives included) the canonical decimal text of the number is printed, which is the exact `%d` text; otherwise the divisor of the chosen suffix K/M/B keeps `num / divisor` at least 1 and, for K and M, below 1000, before rounding to one decimal place |
| Format.FormatNumThresholds | cmd/main.go:129-140 | exactly one branch applies: plain below 10^3, K below 10^6, M below 10^9, B from 10^9 |

## Left out

- File system and process I/O is not modelled: `os.Open`, `ioutil.ReadAll`, `os.ReadFile`, `log.Fatalf`, `fmt.Printf`, `os.Exit`. File contents are a function from path to bytes. Each program's result is returned rather than printed.
- `filepath.WalkDir` is not modelled: its traversal order and its error callbacks (which end the program through `log.Fatalf`). A walk is the sequence of entries the callback receives.
- `filepath.Dir` is a function parameter. No property here depends on how it splits a path.
- Parsing go.mod is not modelled. `modfile.Parse` and `modfile.ParseLax` belong to a foreign library. The parsed `require` list and the module name are inputs, and so is the text of `Module.Mod.String()` / `Module.Mod.Path`.
- Modules.BuildModuleStats: the go.mod file is assumed to have a `module` directive, so the module name is a plain string. A go.mod without one parses with a nil `Module`, and both programs then dereference nil at line 54 (`mf.Module.Mod.Path` in cmd/main.go, `modFile.Module.Mod.String()` in main.go) and panic before any count is printed; that panic is not modelled.
- The argument-count checks of both `main` functions are not modelled, and neither is main.go's `os.ErrNotExist` comparison. The second is error reporting for I/O and is not reached, because the error arrives wrapped.
- Format.FormatNum: does not model the `%.1f` text of `float64(num)/divisor`, because that is floating-point formatting. The contract fixes the branch, the suffix and the divisor, not the digits of the mantissa. So values that round up to "1000.0K" are not described.
- Walk.CountSLOC: counts are unbounded integers. Go's `int` is 32 or 64 bits wide depending on the platform. On a 32-bit target `countOfSLOC` (cmd/main.go:81, 90) wraps past 2^31 − 1 lines, and so the argument `FormatNum` receives is bounded by that. On a 64-bit target the bound is 2^63 − 1. Neither wrap-around is modelled.
- Paths.Ext: only '/' is a separator, as on Unix. The Windows separator and volume names are not modelled.
- Paths.Ext: Go scans the bytes of a string that need not be valid UTF-8, while a Dafny `string` holds Unicode characters. The two agree for the `== ".go"` test, because the bytes of '.' and '/' never occur inside a multibyte UTF-8 sequence.
- `Stats`, `CommonStats` and the `Gathere` interface (stats/stats.go, main.go:67-121) are declarations with no behaviour. No max/min/average/median computation exists to model.
