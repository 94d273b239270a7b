/** Counting and filtering over sequences.

    Every loop of the two command-line programs walks a Go slice from the
    first element to the last and bumps a counter when an element passes a
    test. The functions here describe that shape once: they recurse on the
    prefix, so that `s[..i+1]` unfolds into "what the loop had after i steps,
    then one more element", which is exactly what a loop invariant needs. */
module Counting {

  /** The number of elements of `s` that satisfy `p`. */
  function CountIf<T>(s: seq<T>, p: T -> bool): (n: nat)
    ensures n <= |s|
  {
    if |s| == 0 then 0
    else CountIf(s[..|s| - 1], p) + (if p(s[|s| - 1]) then 1 else 0)
  }

  /** The positions of `s` whose element satisfies `p`. */
  function Indices<T>(s: seq<T>, p: T -> bool): set<int>
  {
    set i | 0 <= i < |s| && p(s[i])
  }

  /** The elements of `s` that satisfy `p`, in their original order. */
  function Filter<T>(s: seq<T>, p: T -> bool): (r: seq<T>)
    ensures |r| == CountIf(s, p)
    ensures forall i :: 0 <= i < |r| ==> p(r[i])
    ensures forall i :: 0 <= i < |s| && p(s[i]) ==> s[i] in r
    ensures multiset(r) <= multiset(s)
  {
    if |s| == 0 then []
    else
      var init, last := s[..|s| - 1], s[|s| - 1];
      assert s == init + [last];
      Filter(init, p) + (if p(last) then [last] else [])
  }

  /** Counting agrees with the cardinality of the set of matching positions. */
  lemma {:induction false} CountIfIsIndexCount<T>(s: seq<T>, p: T -> bool)
    ensures CountIf(s, p) == |Indices(s, p)|
  {
    if |s| == 0 {
      assert Indices(s, p) == {};
    } else {
      var init, last := s[..|s| - 1], |s| - 1;
      CountIfIsIndexCount(init, p);
      assert Indices(s, p) == Indices(init, p) + (if p(s[last]) then {last} else {});
      assert last !in Indices(init, p);
    }
  }

  /** Counting distributes over concatenation. */
  lemma {:induction false} CountIfAppend<T>(a: seq<T>, b: seq<T>, p: T -> bool)
    ensures CountIf(a + b, p) == CountIf(a, p) + CountIf(b, p)
  {
    if |b| == 0 {
      assert a + b == a;
    } else {
      var init := b[..|b| - 1];
      CountIfAppend(a, init, p);
      assert (a + b)[..|a + b| - 1] == a + init;
    }
  }

  /** Counting the elements equal to `v` gives the multiplicity of `v`. */
  lemma {:induction false} CountIfIsMultiplicity<T>(s: seq<T>, p: T -> bool, v: T)
    requires forall x :: p(x) <==> x == v
    ensures CountIf(s, p) == multiset(s)[v]
  {
    if |s| > 0 {
      var init, last := s[..|s| - 1], s[|s| - 1];
      CountIfIsMultiplicity(init, p, v);
      assert s == init + [last];
      assert multiset(s) == multiset(init) + multiset{last};
    }
  }

  /** A count is zero exactly when no element passes the test. */
  lemma {:induction false} CountIfZero<T>(s: seq<T>, p: T -> bool)
    ensures CountIf(s, p) == 0 <==> forall i :: 0 <= i < |s| ==> !p(s[i])
  {
    if |s| > 0 {
      var init := s[..|s| - 1];
      CountIfZero(init, p);
      assert forall i :: 0 <= i < |init| ==> init[i] == s[i];
    }
  }

  /** Elements that pass a test and elements that fail it add up to the whole. */
  lemma {:induction false} CountIfComplement<T>(s: seq<T>, p: T -> bool, q: T -> bool)
    requires forall x :: q(x) <==> !p(x)
    ensures CountIf(s, p) + CountIf(s, q) == |s|
  {
    if |s| > 0 {
      CountIfComplement(s[..|s| - 1], p, q);
    }
  }

  /** Reordering the input does not change a count. */
  lemma {:induction false} CountIfPermutation<T>(s: seq<T>, t: seq<T>, p: T -> bool)
    requires multiset(s) == multiset(t)
    ensures CountIf(s, p) == CountIf(t, p)
  {
    if |s| == 0 {
      assert |t| == |multiset(t)| == 0;
    } else {
      var init, x := s[..|s| - 1], s[|s| - 1];
      assert multiset(init) == multiset(s) - multiset{x} by {
        assert s == init + [x];
      }
      assert x in multiset(t);
      var j :| 0 <= j < |t| && t[j] == x;
      MultisetRemove(t, j);
      CountIfPermutation(init, t[..j] + t[j + 1..], p);
      assert t == t[..j] + [x] + t[j + 1..];
      CountIfMiddle(t[..j], x, t[j + 1..], p);
    }
  }

  /** Taking the element at `j` out of `t` takes one copy of it out of the
      multiset. */
  lemma MultisetRemove<T>(t: seq<T>, j: nat)
    requires j < |t|
    ensures multiset(t[..j] + t[j + 1..]) == multiset(t) - multiset{t[j]}
  {
    assert t == t[..j] + [t[j]] + t[j + 1..];
  }

  /** An element between `before` and `after` adds one to their count
      exactly when it passes `p`. */
  lemma CountIfMiddle<T>(before: seq<T>, x: T, after: seq<T>, p: T -> bool)
    ensures CountIf(before + [x] + after, p) == CountIf(before + after, p) + (if p(x) then 1 else 0)
  {
    var upTo := before + [x];
    assert CountIf(upTo, p) == CountIf(before, p) + (if p(x) then 1 else 0) by {
      assert upTo[..|upTo| - 1] == before;
    }
    CountIfAppend(upTo, after, p);
    CountIfAppend(before, after, p);
  }
}
