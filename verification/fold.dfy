/** `lo.Reduce` from github.com/samber/lo: a left fold over a slice whose
    accumulator also receives the index of the element. */
module Fold {
  import Counting

  /** The `for i, item := range collection` loop of `lo.Reduce`, entered at
      position `i` with accumulator `agg`: apply `f(agg, s[i], i)` and move
      on until the end of the slice. */
  function Iterate<T, R>(s: seq<T>, f: (R, T, int) -> R, agg: R, i: nat): R
    decreases |s| - i
  {
    if i >= |s| then agg
    else Iterate(s, f, f(agg, s[i], i), i + 1)
  }

  /** The loop over one more element ends with one more step, taken at the
      new element's index. */
  lemma {:induction false} IterateSnoc<T, R>(s: seq<T>, x: T, f: (R, T, int) -> R, agg: R, i: nat)
    requires i <= |s|
    ensures Iterate(s + [x], f, agg, i) == f(Iterate(s, f, agg, i), x, |s|)
    decreases |s| - i
  {
    if i < |s| {
      assert (s + [x])[i] == s[i];
      IterateSnoc(s, x, f, f(agg, s[i], i), i + 1);
    }
  }

  /** `Reduce(s, f, init)` starts from `init` and replaces the accumulator
      by `f(agg, s[i], i)` for i = 0, 1, ..., |s| - 1. It peels the last
      element off, so that it meets loop invariants over prefixes, and is
      the same as running the range loop from the front. */
  function Reduce<T, R>(s: seq<T>, f: (R, T, int) -> R, init: R): (r: R)
    ensures r == Iterate(s, f, init, 0)
  {
    if |s| == 0 then init
    else
      var prefix, last := s[..|s| - 1], s[|s| - 1];
      assert s == prefix + [last];
      IterateSnoc(prefix, last, f, init, 0);
      f(Reduce(prefix, f, init), last, |s| - 1)
  }

  /** A fold whose step adds one for the elements passing `p` and leaves the
      accumulator alone otherwise counts those elements. */
  lemma {:induction false} ReduceCounts<T>(s: seq<T>, f: (int, T, int) -> int, p: T -> bool, init: int)
    requires forall agg, x, i :: f(agg, x, i) == agg + (if p(x) then 1 else 0)
    ensures Reduce(s, f, init) == init + Counting.CountIf(s, p)
  {
    if |s| > 0 {
      ReduceCounts(s[..|s| - 1], f, p, init);
    }
  }
}
