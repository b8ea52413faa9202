/**
 * Sequences with the semantics of JavaScript's `Set` when it is built from an
 * array and spread back into one (`[...new Set(xs)]`, `Array.from(new Set(xs))`):
 * duplicates collapse and the survivors keep the order of their first occurrence.
 */
module Sequences {

  /** No element occurs twice. */
  predicate NoDup<T(==)>(s: seq<T>) {
    forall i, j :: 0 <= i < j < |s| ==> s[i] != s[j]
  }

  /** The position at which `x` occurs first in `s`. */
  function FirstIndex<T(==)>(s: seq<T>, x: T): (k: nat)
    requires x in s
    ensures k < |s| && s[k] == x
    ensures x !in s[..k]
  {
    if s[0] == x then 0 else 1 + FirstIndex(s[1..], x)
  }

  /**
   * `[...new Set(s)]`: the elements of `s` are inserted left to right and an
   * element already present is skipped.
   */
  function Dedup<T(==)>(s: seq<T>): (r: seq<T>)
    ensures NoDup(r)
    ensures forall k :: 0 <= k < |r| ==> r[k] in s
    ensures forall k :: 0 <= k < |s| ==> s[k] in r
    ensures forall i, j :: 0 <= i < j < |r| ==> FirstIndex(s, r[i]) < FirstIndex(s, r[j])
  {
    if s == [] then []
    else
      var init, x := s[..|s| - 1], s[|s| - 1];
      assert s == init + [x];
      var d := Dedup(init);
      DedupStep(init, x, d);
      if x in d then d else d + [x]
  }

  /** One step of `Dedup`: inserting `x` after `init` keeps what `Dedup` promises. */
  lemma DedupStep<T>(init: seq<T>, x: T, d: seq<T>)
    requires NoDup(d)
    requires forall k :: 0 <= k < |d| ==> d[k] in init
    requires forall k :: 0 <= k < |init| ==> init[k] in d
    requires forall i, j :: 0 <= i < j < |d| ==> FirstIndex(init, d[i]) < FirstIndex(init, d[j])
    ensures var s, r := init + [x], if x in d then d else d + [x];
      && NoDup(r)
      && (forall k :: 0 <= k < |r| ==> r[k] in s)
      && (forall k :: 0 <= k < |s| ==> s[k] in r)
      && (forall i, j :: 0 <= i < j < |r| ==> FirstIndex(s, r[i]) < FirstIndex(s, r[j]))
  {
    var s := init + [x];
    FirstIndexExtend(init, x);
    forall k | 0 <= k < |s| ensures s[k] in d + [x] {
      if k < |init| { assert s[k] == init[k]; }
    }
    forall k | 0 <= k < |d| ensures FirstIndex(s, d[k]) == FirstIndex(init, d[k]) && d[k] in s {
      assert d[k] in init;
    }
    if x !in d {
      var r := d + [x];
      assert x !in init;
      forall i, j | 0 <= i < j < |r| ensures FirstIndex(s, r[i]) < FirstIndex(s, r[j]) {
        assert r[i] == d[i];
        if j < |d| { assert r[j] == d[j]; }
      }
      forall i, j | 0 <= i < j < |r| ensures r[i] != r[j] {
        assert r[i] == d[i];
        if j < |d| { assert r[j] == d[j]; }
      }
    }
  }

  /** Appending an element leaves the first positions of earlier elements alone. */
  lemma FirstIndexExtend<T>(init: seq<T>, x: T)
    ensures forall y :: y in init ==> FirstIndex(init + [x], y) == FirstIndex(init, y)
    ensures x !in init ==> FirstIndex(init + [x], x) == |init|
  {
    forall y | y in init
      ensures FirstIndex(init + [x], y) == FirstIndex(init, y)
    {
      var k := FirstIndex(init, y);
      assert (init + [x])[k] == y && y !in (init + [x])[..k] by {
        assert (init + [x])[..k] == init[..k];
      }
      FirstIndexUnique(init + [x], y, k);
    }
    if x !in init {
      assert (init + [x])[..|init|] == init;
      FirstIndexUnique(init + [x], x, |init|);
    }
  }

  /** The first position is the only one with nothing equal before it. */
  lemma {:induction false} FirstIndexUnique<T>(s: seq<T>, x: T, k: nat)
    requires k < |s| && s[k] == x && x !in s[..k]
    ensures FirstIndex(s, x) == k
  {
    if k > 0 {
      assert s[0] != x by { assert s[0] == s[..k][0]; }
      assert s[1..][..k - 1] == s[..k][1..];
      FirstIndexUnique(s[1..], x, k - 1);
    }
  }

  /** `Dedup` keeps exactly the elements of `s`. */
  lemma DedupMembers<T>(s: seq<T>)
    ensures forall x {:trigger x in Dedup(s)} :: x in Dedup(s) <==> x in s
  {
    var r := Dedup(s);
    forall x ensures x in r <==> x in s {
      if x in s {
        var k :| 0 <= k < |s| && s[k] == x;
      }
      if x in r {
        var k :| 0 <= k < |r| && r[k] == x;
      }
    }
  }

  /** Some occurrence of `x` in `s` comes before every occurrence of `y`. */
  predicate OccursBefore<T(==)>(s: seq<T>, x: T, y: T) {
    exists a :: 0 <= a < |s| && s[a] == x && forall b :: 0 <= b <= a ==> s[b] != y
  }

  /** `Dedup` keeps the order of first occurrences. */
  lemma DedupOccursBefore<T>(s: seq<T>, i: nat, j: nat)
    requires i < j < |Dedup(s)|
    ensures OccursBefore(s, Dedup(s)[i], Dedup(s)[j])
  {
    var r := Dedup(s);
    var a := FirstIndex(s, r[i]);
    var c := FirstIndex(s, r[j]);
    assert forall b :: 0 <= b <= a ==> s[b] != r[j] by {
      forall b | 0 <= b <= a ensures s[b] != r[j] {
        assert b < c;
        assert s[b] == s[..c][b];
      }
    }
  }

  /** A sequence without duplicates has as many elements as the set of its elements. */
  lemma {:induction false} NoDupCardinality<T>(s: seq<T>)
    requires NoDup(s)
    ensures |s| == |set x | x in s|
  {
    if s != [] {
      var rest := s[1..];
      assert NoDup(rest) by {
        forall i, j | 0 <= i < j < |rest| ensures rest[i] != rest[j] {
          assert rest[i] == s[i + 1] && rest[j] == s[j + 1];
        }
      }
      NoDupCardinality(rest);
      assert s[0] !in rest by {
        forall i | 0 <= i < |rest| ensures rest[i] != s[0] {
          assert rest[i] == s[i + 1];
        }
      }
      assert (set x | x in s) == (set x | x in rest) + {s[0]} by {
        assert s == [s[0]] + rest;
      }
    }
  }

  /**
   * The number of concepts of a list after `Dedup` is the number of distinct
   * values in it.
   */
  lemma DedupCardinality<T>(s: seq<T>)
    ensures |Dedup(s)| == |set x | x in s|
  {
    var r := Dedup(s);
    NoDupCardinality(r);
    assert (set x | x in r) == (set x | x in s) by {
      forall x | x in s ensures x in r {
        var i :| 0 <= i < |s| && s[i] == x;
      }
      forall x | x in r ensures x in s {
        var i :| 0 <= i < |r| && r[i] == x;
      }
    }
  }

  /** A duplicate-free list that holds `u` and nothing else is `[u]`. */
  lemma NoDupSingleton<T>(r: seq<T>, u: T)
    requires NoDup(r) && u in r
    requires forall k :: 0 <= k < |r| ==> r[k] == u
    ensures r == [u]
  {
    var i :| 0 <= i < |r| && r[i] == u;
    assert r[0] == r[i] == r[|r| - 1];
  }

  /** A list whose every element is `u` collapses to `[u]`. */
  lemma DedupConstant<T>(s: seq<T>, u: T)
    requires u in s
    requires forall k :: 0 <= k < |s| ==> s[k] == u
    ensures Dedup(s) == [u]
  {
    var r := Dedup(s);
    forall k | 0 <= k < |r| ensures r[k] == u {
      var i :| 0 <= i < |s| && s[i] == r[k];
    }
    var i :| 0 <= i < |s| && s[i] == u;
    assert s[i] in r;
    NoDupSingleton(r, u);
  }

  /** The concatenation of a list of lists (`xs.flatMap(f)` once `f` is applied). */
  function Flatten<T>(ss: seq<seq<T>>): (r: seq<T>)
    ensures forall k, j :: 0 <= k < |ss| && 0 <= j < |ss[k]| ==> ss[k][j] in r
  {
    if ss == [] then []
    else
      var rest := Flatten(ss[1..]);
      assert forall k, j :: 1 <= k < |ss| && 0 <= j < |ss[k]| ==> ss[k][j] in rest by {
        forall k, j | 1 <= k < |ss| && 0 <= j < |ss[k]| ensures ss[k][j] in rest {
          assert ss[k][j] == ss[1..][k - 1][j];
        }
      }
      ss[0] + rest
  }

  /** Every element of a flattened list comes from one of the lists. */
  lemma {:induction false} FlattenOrigin<T>(ss: seq<seq<T>>, i: nat)
    requires i < |Flatten(ss)|
    ensures exists k, j :: 0 <= k < |ss| && 0 <= j < |ss[k]| && ss[k][j] == Flatten(ss)[i]
  {
    var r := Flatten(ss);
    assert ss != [];
    if i < |ss[0]| {
      assert ss[0][i] == r[i];
    } else {
      FlattenOrigin(ss[1..], i - |ss[0]|);
      var k, j :| 0 <= k < |ss[1..]| && 0 <= j < |ss[1..][k]| && ss[1..][k][j] == Flatten(ss[1..])[i - |ss[0]|];
      assert ss[k + 1][j] == r[i];
    }
  }
}
