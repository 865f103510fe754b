/**
 * Python dictionaries with string keys, as insertion-ordered sequences of pairs.
 * A dictionary built by these operations never repeats a key (`KeyUnique`).
 */
module Dicts {
  import opened Wrappers
  import opened Seqs

  type Dict<V> = seq<(string, V)>

  function Keys<V>(d: Dict<V>): seq<string> {
    seq(|d|, i requires 0 <= i < |d| => d[i].0)
  }

  predicate KeyUnique<V>(d: Dict<V>) {
    NoDup(Keys(d))
  }

  /** The value of the last pair with key `k`: `d.get(k)` (the only pair once keys are unique). */
  function Get<V>(d: Dict<V>, k: string): Option<V>
    decreases |d|
  {
    if d == [] then None
    else if d[|d| - 1].0 == k then Some(d[|d| - 1].1)
    else Get(d[..|d| - 1], k)
  }

  /** `d[k] = v`: overwrite in place when `k` is present, append otherwise. */
  function Assign<V>(d: Dict<V>, k: string, v: V): Dict<V> {
    var i := IndexOf(Keys(d), k);
    if i < 0 then d + [(k, v)] else d[i := (k, v)]
  }

  /** `for k, v in e: d[k] = v`. */
  function Update<V>(d: Dict<V>, e: seq<(string, V)>): Dict<V>
    decreases |e|
  {
    if e == [] then d
    else Assign(Update(d, e[..|e| - 1]), e[|e| - 1].0, e[|e| - 1].1)
  }

  /** `dict(pairs)`: a repeated key keeps its first position and takes its last value. */
  function AsDict<V>(pairs: seq<(string, V)>): Dict<V> {
    Update([], pairs)
  }

  /** `{**a, **b}`. */
  function Merge<V>(a: Dict<V>, b: Dict<V>): Dict<V> {
    Update(Update([], a), b)
  }

  lemma KeysAppend<V>(d: Dict<V>, p: (string, V))
    ensures Keys(d + [p]) == Keys(d) + [p.0]
  {
  }

  lemma {:induction false} GetAbsent<V>(d: Dict<V>, k: string)
    requires k !in Keys(d)
    ensures Get(d, k) == None
    decreases |d|
  {
    if d != [] {
      var init := d[..|d| - 1];
      assert Keys(d) == Keys(init) + [d[|d| - 1].0];
      GetAbsent(init, k);
    }
  }

  lemma {:induction false} GetAt<V>(d: Dict<V>, i: int)
    requires KeyUnique(d) && 0 <= i < |d|
    ensures Get(d, d[i].0) == Some(d[i].1)
    decreases |d|
  {
    var init := d[..|d| - 1];
    if i < |d| - 1 {
      assert Keys(d)[i] == d[i].0 && Keys(d)[|d| - 1] == d[|d| - 1].0;
      assert Keys(init) == Keys(d)[..|d| - 1];
      GetAt(init, i);
    }
  }

  /** `d[k] = v` keeps keys unique, extends the keys only by a new `k`, and changes only `k`. */
  lemma AssignLaw<V>(d: Dict<V>, k: string, v: V)
    requires KeyUnique(d)
    ensures KeyUnique(Assign(d, k, v))
    ensures Keys(Assign(d, k, v)) == if k in Keys(d) then Keys(d) else Keys(d) + [k]
    ensures forall k' :: Get(Assign(d, k, v), k') == if k' == k then Some(v) else Get(d, k')
  {
    var r := Assign(d, k, v);
    var i := IndexOf(Keys(d), k);
    IndexOfFound(Keys(d), k);
    if i < 0 {
      KeysAppend(d, (k, v));
      assert r[..|d|] == d;
    } else {
      assert Keys(r) == Keys(d);
      forall k' ensures Get(r, k') == if k' == k then Some(v) else Get(d, k') {
        if k' == k {
          GetAt(r, i);
        } else if k' in Keys(d) {
          var j := IndexOf(Keys(d), k');
          IndexOfFound(Keys(d), k');
          GetAt(r, j);
          GetAt(d, j);
        } else {
          GetAbsent(r, k');
          GetAbsent(d, k');
        }
      }
    }
  }

  /** `for k, v in e: d[k] = v` keeps keys unique and appends the new keys of `e` in order of first occurrence. */
  lemma {:induction false} UpdateKeys<V>(d: Dict<V>, e: seq<(string, V)>)
    requires KeyUnique(d)
    ensures KeyUnique(Update(d, e))
    ensures Keys(Update(d, e)) == AppendNew(Keys(d), Keys(e))
    decreases |e|
  {
    if e != [] {
      var init := e[..|e| - 1];
      var p := e[|e| - 1];
      UpdateKeys(d, init);
      var u := Update(d, init);
      assert Update(d, e) == Assign(u, p.0, p.1);
      AssignLaw(u, p.0, p.1);
      assert e == init + [p];
      KeysAppend(init, p);
      AppendNewSnoc(Keys(d), Keys(init), p.0);
    }
  }

  /** After `for k, v in e: d[k] = v`, every key of `e` holds its last value in `e`; other keys are untouched. */
  lemma {:induction false} UpdateGet<V>(d: Dict<V>, e: seq<(string, V)>, k: string)
    requires KeyUnique(d)
    ensures Get(Update(d, e), k) == if k in Keys(e) then Get(e, k) else Get(d, k)
    decreases |e|
  {
    if e != [] {
      var init := e[..|e| - 1];
      var p := e[|e| - 1];
      UpdateGet(d, init, k);
      UpdateKeys(d, init);
      var u := Update(d, init);
      assert Update(d, e) == Assign(u, p.0, p.1);
      AssignLaw(u, p.0, p.1);
      assert e == init + [p];
      KeysAppend(init, p);
    }
  }

  /** A dictionary that is already key-unique is rebuilt unchanged. */
  lemma {:induction false} UpdateEmptyIdentity<V>(a: Dict<V>)
    requires KeyUnique(a)
    ensures Update([], a) == a
    decreases |a|
  {
    if a != [] {
      var init := a[..|a| - 1];
      assert Keys(init) == Keys(a)[..|a| - 1];
      UpdateEmptyIdentity(init);
      assert a[|a| - 1].0 !in Keys(init) by {
        assert Keys(a)[|a| - 1] == a[|a| - 1].0;
      }
      assert init + [a[|a| - 1]] == a;
    }
  }

  /** `dict(pairs)` has unique keys in first-occurrence order and each key's last value. */
  lemma AsDictLaw<V>(pairs: seq<(string, V)>)
    ensures KeyUnique(AsDict(pairs))
    ensures Keys(AsDict(pairs)) == Dedup(Keys(pairs))
    ensures forall k :: Get(AsDict(pairs), k) == Get(pairs, k)
  {
    UpdateKeys([], pairs);
    forall k ensures Get(AsDict(pairs), k) == Get(pairs, k) {
      UpdateGet([], pairs, k);
      if k !in Keys(pairs) {
        GetAbsent(pairs, k);
      }
    }
  }

  /**
   * `{**a, **b}` on dictionaries: the keys of `a` keep their places, the keys only in `b`
   * follow in `b`'s order, and a key of `b` takes `b`'s value.
   */
  lemma MergeLaw<V>(a: Dict<V>, b: Dict<V>)
    requires KeyUnique(a)
    ensures KeyUnique(Merge(a, b))
    ensures Keys(Merge(a, b)) == AppendNew(Keys(a), Keys(b))
    ensures forall k :: Get(Merge(a, b), k) == if k in Keys(b) then Get(b, k) else Get(a, k)
  {
    UpdateEmptyIdentity(a);
    UpdateKeys(a, b);
    forall k ensures Get(Merge(a, b), k) == if k in Keys(b) then Get(b, k) else Get(a, k) {
      UpdateGet(a, b, k);
    }
  }
}
