/**
 * Plain JavaScript objects with string keys, as the converter builds them.
 *
 * An object is the sequence of its own properties in insertion order, which
 * is what `Object.keys` enumerates for the GraphQL names used as keys here.
 * Keys are distinct. `Put` is the object spread `{...o, [k]: v}`: an existing
 * key keeps its position and takes the new value, a new key goes last.
 */
module JsObject {
  import opened Wrappers

  predicate DistinctKeys<V>(ps: seq<(string, V)>)
  {
    forall i, j :: 0 <= i < j < |ps| ==> ps[i].0 != ps[j].0
  }

  type Obj<V> = o: seq<(string, V)> | DistinctKeys(o) witness []

  /** `Object.keys`: the keys in enumeration order. */
  function Keys<V>(ps: seq<(string, V)>): (r: seq<string>)
    ensures |r| == |ps|
    ensures forall i :: 0 <= i < |ps| ==> r[i] == ps[i].0
  {
    seq(|ps|, i requires 0 <= i < |ps| => ps[i].0)
  }

  lemma KeysPrefix<V>(ps: seq<(string, V)>, n: nat)
    requires n <= |ps|
    ensures Keys(ps[..n]) == Keys(ps)[..n]
  {
  }

  /** Position of key `k`, if present. */
  function Find<V>(o: Obj<V>, k: string): (r: Option<nat>)
    ensures r.Some? ==> r.value < |o| && o[r.value].0 == k
    ensures r.None? <==> k !in Keys(o)
  {
    if exists i :: 0 <= i < |o| && o[i].0 == k then
      var i :| 0 <= i < |o| && o[i].0 == k;
      Some(i)
    else
      None
  }

  /** Property read `o[k]`; `None` is `undefined`. */
  function Get<V>(o: Obj<V>, k: string): (r: Option<V>)
    ensures k !in Keys(o) ==> r == None
    ensures forall i :: 0 <= i < |o| && o[i].0 == k ==> r == Some(o[i].1)
  {
    match Find(o, k)
    case Some(i) => Some(o[i].1)
    case None => None
  }

  /** The spread `{...o, [k]: v}`. */
  function Put<V>(o: Obj<V>, k: string, v: V): (r: Obj<V>)
    ensures Keys(r) == if k in Keys(o) then Keys(o) else Keys(o) + [k]
    ensures Get(r, k) == Some(v)
    ensures forall k' :: k' != k ==> Get(r, k') == Get(o, k')
    ensures k !in Keys(o) ==> r == o + [(k, v)]
  {
    match Find(o, k)
    case Some(i) =>
      var r := o[i := (k, v)];
      assert Keys(r) == Keys(o);
      r
    case None =>
      var r := o + [(k, v)];
      assert Keys(r) == Keys(o) + [k];
      r
  }

  /** True when `a` can be obtained from `b` by deleting elements. */
  ghost predicate IsSubsequence<T>(a: seq<T>, b: seq<T>)
    decreases |b|
  {
    if a == [] then true
    else if b == [] then false
    else (a[|a| - 1] == b[|b| - 1] && IsSubsequence(a[..|a| - 1], b[..|b| - 1]))
         || IsSubsequence(a, b[..|b| - 1])
  }

  lemma {:induction false} SubsequenceMembers<T>(a: seq<T>, b: seq<T>)
    requires IsSubsequence(a, b)
    ensures forall x :: x in a ==> x in b
    decreases |b|
  {
    if a != [] {
      if a[|a| - 1] == b[|b| - 1] && IsSubsequence(a[..|a| - 1], b[..|b| - 1]) {
        SubsequenceMembers(a[..|a| - 1], b[..|b| - 1]);
        assert a == a[..|a| - 1] + [a[|a| - 1]];
        assert b == b[..|b| - 1] + [b[|b| - 1]];
      } else {
        SubsequenceMembers(a, b[..|b| - 1]);
        assert b == b[..|b| - 1] + [b[|b| - 1]];
      }
    }
  }

  lemma {:induction false} SubsequenceLength<T>(a: seq<T>, b: seq<T>)
    requires IsSubsequence(a, b)
    ensures |a| <= |b|
    decreases |b|
  {
    if a != [] {
      if a[|a| - 1] == b[|b| - 1] && IsSubsequence(a[..|a| - 1], b[..|b| - 1]) {
        SubsequenceLength(a[..|a| - 1], b[..|b| - 1]);
      } else {
        SubsequenceLength(a, b[..|b| - 1]);
      }
    }
  }

  /** An element missing from `a` can be dropped from the end of `b`. */
  lemma SubsequenceDropLast<T>(a: seq<T>, b: seq<T>, x: T)
    requires IsSubsequence(a, b + [x]) && x !in a
    ensures IsSubsequence(a, b)
  {
    assert (b + [x])[..|b|] == b;
    if a != [] {
      assert a[|a| - 1] in a;
    }
  }

  lemma {:induction false} SubsequenceRefl<T>(a: seq<T>)
    ensures IsSubsequence(a, a)
    decreases |a|
  {
    if a != [] {
      SubsequenceRefl(a[..|a| - 1]);
    }
  }

  /** The elements of `s` without repetitions, each at its first occurrence. */
  function Dedup(s: seq<string>): (r: seq<string>)
    ensures forall x :: x in r <==> x in s
    ensures forall i, j :: 0 <= i < j < |r| ==> r[i] != r[j]
  {
    if s == [] then []
    else
      var d := Dedup(s[..|s| - 1]);
      assert s == s[..|s| - 1] + [s[|s| - 1]];
      if s[|s| - 1] in d then d else d + [s[|s| - 1]]
  }

  lemma DedupPair(a: string, b: string)
    ensures Dedup([a, b]) == if a == b then [a] else [a, b]
  {
    assert [a, b][..1] == [a];
    assert [a][..0] == [];
    assert Dedup([a]) == [a];
  }

  /** The object built by `pairs.reduce((o, (k, v)) => ({...o, [k]: v}), {})`. */
  function FromPairs<V>(ps: seq<(string, V)>): (r: Obj<V>)
    ensures Keys(r) == Dedup(Keys(ps))
  {
    if ps == [] then []
    else
      var init := ps[..|ps| - 1];
      assert Keys(ps) == Keys(init) + [ps[|ps| - 1].0];
      Put(FromPairs(init), ps[|ps| - 1].0, ps[|ps| - 1].1)
  }

  /** The value of the key of pair `i`, when no later pair has that key, is the value of pair `i`. */
  lemma {:induction false} FromPairsLastWinsAt<V>(ps: seq<(string, V)>, i: nat)
    requires i < |ps| && LastWithKey(ps, i)
    ensures Get(FromPairs(ps), ps[i].0) == Some(ps[i].1)
    decreases |ps|
  {
    var init := ps[..|ps| - 1];
    var (k, v) := ps[|ps| - 1];
    var acc := FromPairs(init);
    assert FromPairs(ps) == Put(acc, k, v);
    if i < |ps| - 1 {
      assert ps[i] == init[i];
      assert LastWithKey(init, i);
      FromPairsLastWinsAt(init, i);
      assert ps[i].0 != k;
    }
  }

  /** Every key of the pairs is a key of the object, and it holds the value of its last pair. */
  lemma FromPairsLastWins<V>(ps: seq<(string, V)>)
    ensures forall k :: k in Keys(FromPairs(ps)) <==> k in Keys(ps)
    ensures forall i :: 0 <= i < |ps| && LastWithKey(ps, i) ==> Get(FromPairs(ps), ps[i].0) == Some(ps[i].1)
  {
    forall i | 0 <= i < |ps| && LastWithKey(ps, i)
      ensures Get(FromPairs(ps), ps[i].0) == Some(ps[i].1)
    {
      FromPairsLastWinsAt(ps, i);
    }
  }

  /** No pair after position `i` has the key of pair `i`. */
  predicate LastWithKey<V>(ps: seq<(string, V)>, i: nat)
    requires i < |ps|
  {
    forall j :: i < j < |ps| ==> ps[j].0 != ps[i].0
  }

  /**
   * The object built by a `reduce` over the entries of `o` that spreads in
   * `[k]: w` when `f` maps the entry's value to some `w` and skips the entry
   * otherwise.
   */
  function FilterMap<V, W>(o: Obj<V>, f: V -> Option<W>): (r: Obj<W>)
    ensures IsSubsequence(Keys(r), Keys(o))
    ensures forall i :: 0 <= i < |o| ==> (o[i].0 in Keys(r) <==> f(o[i].1).Some?)
    ensures forall i :: 0 <= i < |o| && f(o[i].1).Some? ==> Get(r, o[i].0) == f(o[i].1)
  {
    if o == [] then []
    else
      var init: Obj<V> := o[..|o| - 1];
      var (k, v) := o[|o| - 1];
      var acc := FilterMap(init, f);
      assert Keys(o) == Keys(init) + [k];
      assert k !in Keys(init);
      SubsequenceMembers(Keys(acc), Keys(init));
      match f(v)
      case Some(w) => Put(acc, k, w)
      case None => acc
  }

  /** One step of `FilterMap`: the last entry is spread in after the others, or skipped. */
  lemma FilterMapLast<V, W>(o: Obj<V>, f: V -> Option<W>)
    requires |o| > 0
    ensures DistinctKeys(o[..|o| - 1])
    ensures o[|o| - 1].0 !in Keys(FilterMap(o[..|o| - 1], f))
    ensures FilterMap(o, f) == match f(o[|o| - 1].1)
                               case Some(w) => FilterMap(o[..|o| - 1], f) + [(o[|o| - 1].0, w)]
                               case None => FilterMap(o[..|o| - 1], f)
  {
    var init: Obj<V> := o[..|o| - 1];
    var k := o[|o| - 1].0;
    var acc := FilterMap(init, f);
    assert k !in Keys(init);
    SubsequenceMembers(Keys(acc), Keys(init));
    assert k !in Keys(acc);
  }

  lemma KeysSnoc<V>(ps: seq<(string, V)>, k: string, v: V)
    ensures Keys(ps + [(k, v)]) == Keys(ps) + [k]
  {
  }

  lemma KeysLast<V>(o: Obj<V>)
    requires |o| > 0
    ensures Keys(o) == Keys(o[..|o| - 1]) + [o[|o| - 1].0]
  {
    var n := |o| - 1;
    KeysSnoc(o[..n], o[n].0, o[n].1);
    assert o == o[..n] + [(o[n].0, o[n].1)];
  }

  lemma FilterMapKeepsLast<V, W>(o: Obj<V>, f: V -> Option<W>)
    requires |o| > 0 && f(o[|o| - 1].1).Some?
    ensures Keys(FilterMap(o, f)) == Keys(FilterMap(o[..|o| - 1], f)) + [o[|o| - 1].0]
  {
    var n := |o| - 1;
    var init: Obj<V> := o[..n];
    var acc := FilterMap(init, f);
    var w := f(o[n].1).value;
    FilterMapLast(o, f);
    assert FilterMap(o, f) == acc + [(o[n].0, w)];
    KeysSnoc(acc, o[n].0, w);
  }

  /** When `f` keeps every entry, the result has exactly the keys of `o` in order. */
  lemma {:induction false} FilterMapTotal<V, W>(o: Obj<V>, f: V -> Option<W>)
    requires forall i :: 0 <= i < |o| ==> f(o[i].1).Some?
    ensures Keys(FilterMap(o, f)) == Keys(o)
    decreases |o|
  {
    if o != [] {
      var n := |o| - 1;
      assert f(o[n].1).Some?;
      FilterMapTotal(o[..n], f);
      FilterMapKeepsLast(o, f);
      KeysLast(o);
    }
  }

  /** A two-entry object whose entries are both kept maps to both results, in order. */
  lemma FilterMapPair<V, W>(o: Obj<V>, f: V -> Option<W>)
    requires |o| == 2 && f(o[0].1).Some? && f(o[1].1).Some?
    ensures FilterMap(o, f) == [(o[0].0, f(o[0].1).value), (o[1].0, f(o[1].1).value)]
  {
    var r := FilterMap(o, f);
    FilterMapTotal(o, f);
    assert Keys(o) == [o[0].0, o[1].0];
    DeterminedPair(r, o[0].0, f(o[0].1).value, o[1].0, f(o[1].1).value);
  }

  /** Of a two-entry object, only the first entry is kept. */
  lemma FilterMapFirstOfTwo<V, W>(o: Obj<V>, f: V -> Option<W>)
    requires |o| == 2 && f(o[0].1).Some? && f(o[1].1).None?
    ensures FilterMap(o, f) == [(o[0].0, f(o[0].1).value)]
  {
    var first: Obj<V> := o[..1];
    var empty: Obj<V> := [];
    var w := f(o[0].1).value;
    FilterMapLast(o, f);
    assert FilterMap(o, f) == FilterMap(first, f);
    assert first[..0] == empty;
    assert FilterMap(empty, f) == [];
    FilterMapLast(first, f);
    assert FilterMap(first, f) == FilterMap(empty, f) + [(o[0].0, w)];
  }

  /** An object is determined by its key order and the values of its keys. */
  lemma {:induction false} Determined<V>(o: Obj<V>, ps: seq<(string, V)>)
    requires Keys(o) == Keys(ps)
    requires forall i :: 0 <= i < |ps| ==> Get(o, ps[i].0) == Some(ps[i].1)
    ensures o == ps
  {
    forall i | 0 <= i < |o|
      ensures o[i] == ps[i]
    {
      assert o[i].0 == ps[i].0;
    }
  }

  lemma DeterminedSingle<V>(o: Obj<V>, k: string, v: V)
    requires Keys(o) == [k] && Get(o, k) == Some(v)
    ensures o == [(k, v)]
  {
    assert o[0].0 == k;
  }

  lemma DeterminedPair<V>(o: Obj<V>, k1: string, v1: V, k2: string, v2: V)
    requires Keys(o) == [k1, k2] && Get(o, k1) == Some(v1) && Get(o, k2) == Some(v2)
    ensures o == [(k1, v1), (k2, v2)]
  {
    assert o[0].0 == k1 && o[1].0 == k2;
  }
}
