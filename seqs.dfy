/** Sequence helpers: membership index, duplicate freedom and "append if not yet present". */
module Seqs {
  import opened Wrappers

  predicate NoDup<T(==)>(s: seq<T>) {
    forall i, j :: 0 <= i < j < |s| ==> s[i] != s[j]
  }

  /** Index of the first occurrence of `x` in `s`, or -1 (Python's `s.index(x)` / `x in s`). */
  function IndexOf<T(==)>(s: seq<T>, x: T): (i: int)
    ensures -1 <= i < |s|
    ensures 0 <= i ==> s[i] == x
    decreases |s|
  {
    if |s| == 0 then -1
    else if s[0] == x then 0
    else
      var j := IndexOf(s[1..], x);
      if j < 0 then -1 else j + 1
  }

  /** `IndexOf` finds an index exactly when `x` occurs. */
  lemma {:induction false} IndexOfFound<T>(s: seq<T>, x: T)
    ensures IndexOf(s, x) < 0 <==> x !in s
    decreases |s|
  {
    if |s| > 0 && s[0] != x {
      IndexOfFound(s[1..], x);
      assert s == [s[0]] + s[1..];
    }
  }

  /** The index `IndexOf` finds is the first: `x` does not occur before it. */
  lemma {:induction false} IndexOfFirst<T>(s: seq<T>, x: T)
    ensures 0 <= IndexOf(s, x) ==> x !in s[..IndexOf(s, x)]
    decreases |s|
  {
    if |s| > 0 && s[0] != x {
      var j := IndexOf(s[1..], x);
      IndexOfFirst(s[1..], x);
      assert j >= 0 ==> s[..j + 1] == [s[0]] + s[1..][..j];
    }
  }

  /** An index holding `x` with no `x` before it is the one `IndexOf` finds. */
  lemma IndexOfIs<T>(s: seq<T>, x: T, i: int)
    requires 0 <= i < |s| && s[i] == x && x !in s[..i]
    ensures IndexOf(s, x) == i
  {
    IndexOfFound(s, x);
    IndexOfFirst(s, x);
  }

  lemma IndexOfPrefix<T>(s: seq<T>, t: seq<T>, x: T)
    requires x in s
    ensures IndexOf(s + t, x) == IndexOf(s, x)
  {
    IndexOfFound(s, x);
    var i := IndexOf(s, x);
    IndexOfFirst(s, x);
    assert (s + t)[..i] == s[..i];
    assert (s + t)[i] == x;
    IndexOfIs(s + t, x, i);
  }

  /**
   * `acc` followed by the elements of `xs` not yet present, each once, in the order
   * of their first occurrence: the effect of `for x in xs: if x not in acc: acc.append(x)`.
   */
  function AppendNew<T(==)>(acc: seq<T>, xs: seq<T>): (r: seq<T>)
    ensures |acc| <= |r| && r[..|acc|] == acc
    decreases |xs|
  {
    if xs == [] then acc
    else
      var r := AppendNew(acc, xs[..|xs| - 1]);
      var x := xs[|xs| - 1];
      if x in r then r else r + [x]
  }

  lemma AppendNewSnoc<T>(acc: seq<T>, xs: seq<T>, x: T)
    ensures AppendNew(acc, xs + [x]) ==
      var r := AppendNew(acc, xs); if x in r then r else r + [x]
  {
    assert (xs + [x])[..|xs|] == xs;
  }

  /** Concatenation regroups freely; a separate step keeps the callers' proofs small. */
  lemma Associate<T>(a: seq<T>, b: seq<T>, c: seq<T>)
    ensures a + (b + c) == (a + b) + c
  {
  }

  /** The distinct elements of `xs` in order of first occurrence. */
  function Dedup<T(==)>(xs: seq<T>): seq<T> {
    AppendNew([], xs)
  }

  lemma {:induction false} AppendNewMembers<T>(acc: seq<T>, xs: seq<T>, x: T)
    ensures x in AppendNew(acc, xs) <==> x in acc || x in xs
    decreases |xs|
  {
    if xs != [] {
      var init := xs[..|xs| - 1];
      AppendNewMembers(acc, init, x);
      assert xs == init + [xs[|xs| - 1]];
    }
  }

  lemma {:induction false} AppendNewNoDup<T>(acc: seq<T>, xs: seq<T>)
    requires NoDup(acc)
    ensures NoDup(AppendNew(acc, xs))
    decreases |xs|
  {
    if xs != [] {
      AppendNewNoDup(acc, xs[..|xs| - 1]);
    }
  }

  /**
   * The part appended to `acc` holds only elements of `xs` that are not in `acc`,
   * ordered by the index of their first occurrence in `xs`.
   */
  lemma {:induction false} AppendNewFirstOccurrenceOrder<T>(acc: seq<T>, xs: seq<T>)
    ensures forall i :: |acc| <= i < |AppendNew(acc, xs)| ==>
      AppendNew(acc, xs)[i] in xs && AppendNew(acc, xs)[i] !in acc
    ensures forall i, j :: |acc| <= i < j < |AppendNew(acc, xs)| ==>
      IndexOf(xs, AppendNew(acc, xs)[i]) < IndexOf(xs, AppendNew(acc, xs)[j])
    decreases |xs|
  {
    if xs != [] {
      var init := xs[..|xs| - 1];
      var x := xs[|xs| - 1];
      assert xs == init + [x];
      AppendNewFirstOccurrenceOrder(acc, init);
      var r0 := AppendNew(acc, init);
      var r := AppendNew(acc, xs);
      forall i | |acc| <= i < |r0|
        ensures r0[i] in init
        ensures IndexOf(xs, r0[i]) == IndexOf(init, r0[i]) < |init|
      {
        IndexOfPrefix(init, [x], r0[i]);
      }
      if x !in r0 {
        AppendNewMembers(acc, init, x);
        assert x !in init;
        assert IndexOf(xs, x) == |init| by {
          assert xs[|init|] == x && xs[..|init|] == init;
          IndexOfIs(xs, x, |init|);
        }
      }
    }
  }

  /** `[x for x in xs if keep(x)]`. */
  function Filter<T>(xs: seq<T>, keep: T -> bool): seq<T>
    decreases |xs|
  {
    if xs == [] then []
    else if keep(xs[|xs| - 1]) then Filter(xs[..|xs| - 1], keep) + [xs[|xs| - 1]]
    else Filter(xs[..|xs| - 1], keep)
  }

  /** `[f(x) for x in xs]`. */
  function Map<T, U>(xs: seq<T>, f: T -> U): (ys: seq<U>)
    ensures |ys| == |xs| && forall i :: 0 <= i < |xs| ==> ys[i] == f(xs[i])
  {
    seq(|xs|, i requires 0 <= i < |xs| => f(xs[i]))
  }

  /** Filtering keeps order: it distributes over concatenation. */
  lemma {:induction false} FilterAppend<T>(a: seq<T>, b: seq<T>, keep: T -> bool)
    ensures Filter(a + b, keep) == Filter(a, keep) + Filter(b, keep)
    decreases |b|
  {
    if b == [] {
      assert a + b == a;
    } else {
      var b' := b[..|b| - 1];
      assert (a + b)[..|a + b| - 1] == a + b';
      FilterAppend(a, b', keep);
    }
  }

  lemma {:induction false} FilterMembers<T>(xs: seq<T>, keep: T -> bool, x: T)
    ensures x in Filter(xs, keep) <==> x in xs && keep(x)
    decreases |xs|
  {
    if xs != [] {
      var init := xs[..|xs| - 1];
      FilterMembers(init, keep, x);
      assert xs == init + [xs[|xs| - 1]];
    }
  }

  function KeptIndices<T>(xs: seq<T>, keep: T -> bool): set<int> {
    set k | 0 <= k < |xs| && keep(xs[k])
  }

  /** The filter keeps one element per position that passes the test. */
  lemma {:induction false} FilterCount<T>(xs: seq<T>, keep: T -> bool)
    ensures |Filter(xs, keep)| == |KeptIndices(xs, keep)|
    decreases |xs|
  {
    if xs != [] {
      var n := |xs| - 1;
      var init := xs[..n];
      FilterCount(init, keep);
      if keep(xs[n]) {
        assert KeptIndices(xs, keep) == KeptIndices(init, keep) + {n};
      } else {
        assert KeptIndices(xs, keep) == KeptIndices(init, keep);
      }
    }
  }

  /** The values of the `Some` elements of `os`, in order. */
  function Somes<T>(os: seq<Option<T>>): seq<T>
    decreases |os|
  {
    if os == [] then []
    else
      var init := Somes(os[..|os| - 1]);
      match os[|os| - 1]
      case Some(x) => init + [x]
      case None => init
  }

  lemma SomesSnoc<T>(os: seq<Option<T>>, o: Option<T>)
    ensures Somes(os + [o]) == if o.Some? then Somes(os) + [o.value] else Somes(os)
  {
    assert (os + [o])[..|os|] == os;
  }

  lemma {:induction false} SomesMembers<T>(os: seq<Option<T>>, x: T)
    ensures x in Somes(os) <==> Some(x) in os
    decreases |os|
  {
    if os != [] {
      var init := os[..|os| - 1];
      SomesMembers(init, x);
      assert os == init + [os[|os| - 1]];
    }
  }
}
