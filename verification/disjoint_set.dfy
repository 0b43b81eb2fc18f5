/**
 * A disjoint-set (union-find) forest over the universe 0..=n, with union by
 * rank and a `Find` that only walks parent links (it compresses no path).
 *
 * The first part describes the structure as a value, a `Forest` of two
 * sequences, and proves what merging does to the partition. The class
 * `DisjointSet` at the end holds the two arrays and updates them in place;
 * its methods are proved against that value.
 */
module DisjointSets {

  /** The parent links and ranks of every element, as values. */
  datatype Forest = Forest(parent: seq<nat>, rank: seq<nat>)
  {
    /** The number of elements, n + 1 for a structure built with `n`. */
    function Size(): nat
    {
      |parent|
    }

    /**
     * The structure's invariant: both tables cover the same universe, every
     * link stays inside it, and every non-root has a rank strictly below its
     * parent's, so following links always ends at a root.
     */
    ghost predicate Valid()
    {
      |rank| == |parent| &&
      (forall x :: 0 <= x < |parent| ==> parent[x] < |parent|) &&
      (forall x :: 0 <= x < |parent| && parent[x] != x ==> rank[x] < rank[parent[x]])
    }
  }

  /** A fresh forest: every element of 0..=n its own root, every rank 1. */
  ghost function Init(n: nat): (f: Forest)
    ensures f.Valid() && f.Size() == n + 1
  {
    Forest(seq(n + 1, i => i), seq(n + 1, i => 1))
  }

  /** The largest entry of `rank` (0 for an empty table). */
  function MaxRank(rank: seq<nat>): (m: nat)
    ensures forall i :: 0 <= i < |rank| ==> rank[i] <= m
    ensures rank != [] ==> m in rank
  {
    if rank == [] then 0
    else
      var rest := MaxRank(rank[1..]);
      assert forall i :: 1 <= i < |rank| ==> rank[i] == rank[1..][i - 1];
      if rank[0] > rest then rank[0] else rest
  }

  /**
   * The root reached from `u` by following parent links. The rank strictly
   * grows along every link, which bounds the walk.
   */
  ghost function Root(f: Forest, u: nat): (r: nat)
    requires f.Valid() && u < f.Size()
    ensures r < f.Size() && f.parent[r] == r
    ensures r == u || f.rank[u] < f.rank[r]
    decreases MaxRank(f.rank) - f.rank[u]
  {
    if f.parent[u] == u then u else Root(f, f.parent[u])
  }

  /** `x` and `y` are in the same group. */
  ghost predicate Same(f: Forest, x: nat, y: nat)
    requires f.Valid() && x < f.Size() && y < f.Size()
  {
    Root(f, x) == Root(f, y)
  }

  /** The set of roots, one per group. */
  ghost function Roots(f: Forest): set<nat>
  {
    set x: nat | x < |f.parent| && f.parent[x] == x
  }

  /** The element reached from `u` after `k` parent links. */
  ghost function Follow(f: Forest, u: nat, k: nat): (w: nat)
    requires f.Valid() && u < f.Size()
    ensures w < f.Size()
    decreases k
  {
    if k == 0 then u else Follow(f, f.parent[u], k - 1)
  }

  /** Following enough links from `u` arrives at `Root(f, u)`. */
  lemma {:induction false} RootIsReached(f: Forest, u: nat)
    requires f.Valid() && u < f.Size()
    ensures exists k: nat :: Follow(f, u, k) == Root(f, u)
    decreases MaxRank(f.rank) - f.rank[u]
  {
    if f.parent[u] == u {
      assert Follow(f, u, 0) == Root(f, u);
    } else {
      RootIsReached(f, f.parent[u]);
      var k: nat :| Follow(f, f.parent[u], k) == Root(f, f.parent[u]);
      assert Follow(f, u, k + 1) == Root(f, u);
    }
  }

  /** `Root(f, u)` is the only root reachable from `u`. */
  lemma {:induction false} ReachedRootIsRoot(f: Forest, u: nat, k: nat)
    requires f.Valid() && u < f.Size()
    requires f.parent[Follow(f, u, k)] == Follow(f, u, k)
    ensures Follow(f, u, k) == Root(f, u)
    decreases k
  {
    if k > 0 {
      ReachedRootIsRoot(f, f.parent[u], k - 1);
    }
  }

  /** In a fresh forest every element is its own group. */
  lemma InitRoots(n: nat)
    ensures forall i :: 0 <= i <= n ==> Root(Init(n), i) == i
    ensures forall x: nat :: x in Roots(Init(n)) <==> x <= n
  {
  }

  /**
   * Of two distinct roots `a` (from the first argument) and `b`, the one that
   * gets attached under the other: the one of lower rank, `a` on a tie.
   */
  ghost function Absorbed(f: Forest, a: nat, b: nat): nat
    requires a < f.Size() && b < f.Size() && |f.rank| == f.Size()
  {
    if f.rank[a] > f.rank[b] then b else a
  }

  /** Of two distinct roots, the one that stays a root after they are linked. */
  ghost function Survivor(f: Forest, a: nat, b: nat): nat
    requires a < f.Size() && b < f.Size() && |f.rank| == f.Size()
  {
    if f.rank[a] > f.rank[b] then a else b
  }

  /**
   * The forest after `merge(u, v)`: nothing changes when `u` and `v` share a
   * root; otherwise the absorbed root is linked under the survivor, whose
   * rank goes up by one when both ranks were equal.
   */
  ghost function Merged(f: Forest, u: nat, v: nat): (g: Forest)
    requires f.Valid() && u < f.Size() && v < f.Size()
    ensures g.Valid() && g.Size() == f.Size()
  {
    var a, b := Root(f, u), Root(f, v);
    if a == b then f
    else
      var c, s := Absorbed(f, a, b), Survivor(f, a, b);
      Forest(f.parent[c := s],
             if f.rank[c] == f.rank[s] then f.rank[s := f.rank[s] + 1] else f.rank)
  }

  /**
   * After an effective merge, the elements whose root was the absorbed one
   * now have the survivor as root; every other root is unchanged.
   */
  lemma {:induction false} MergedRoot(f: Forest, u: nat, v: nat, x: nat)
    requires f.Valid() && u < f.Size() && v < f.Size() && x < f.Size()
    requires Root(f, u) != Root(f, v)
    ensures var a, b := Root(f, u), Root(f, v);
            Root(Merged(f, u, v), x) ==
              if Root(f, x) == Absorbed(f, a, b) then Survivor(f, a, b) else Root(f, x)
    decreases MaxRank(f.rank) - f.rank[x]
  {
    var a, b := Root(f, u), Root(f, v);
    var c, s := Absorbed(f, a, b), Survivor(f, a, b);
    var g := Merged(f, u, v);
    assert g.parent == f.parent[c := s];
    if f.parent[x] == x {
      if x == c {
        assert Root(g, s) == s;
      }
    } else {
      MergedRoot(f, u, v, f.parent[x]);
    }
  }

  /**
   * `merge(u, v)` joins the groups of `u` and `v` and leaves every other
   * group as it was: two elements are together afterwards exactly when they
   * were together before, or one was with `u` and the other with `v`.
   */
  lemma MergedPartition(f: Forest, u: nat, v: nat)
    requires f.Valid() && u < f.Size() && v < f.Size()
    ensures Same(Merged(f, u, v), u, v)
    ensures forall x: nat, y: nat | x < f.Size() && y < f.Size() ::
              Same(Merged(f, u, v), x, y) <==>
                Same(f, x, y) || (Same(f, x, u) && Same(f, y, v)) || (Same(f, x, v) && Same(f, y, u))
  {
    var g := Merged(f, u, v);
    if Root(f, u) != Root(f, v) {
      forall x: nat, y: nat | x < f.Size() && y < f.Size()
        ensures Same(g, x, y) <==>
                  Same(f, x, y) || (Same(f, x, u) && Same(f, y, v)) || (Same(f, x, v) && Same(f, y, u))
      {
        MergedRoot(f, u, v, x);
        MergedRoot(f, u, v, y);
        MergedRoot(f, u, v, u);
        MergedRoot(f, u, v, v);
      }
      MergedRoot(f, u, v, u);
      MergedRoot(f, u, v, v);
    }
  }

  /** Merging a second time changes nothing. */
  lemma MergedIdempotent(f: Forest, u: nat, v: nat)
    requires f.Valid() && u < f.Size() && v < f.Size()
    ensures Merged(Merged(f, u, v), u, v) == Merged(f, u, v)
  {
    MergedPartition(f, u, v);
  }

  /** `merge(u, v)` and `merge(v, u)` give the same partition. */
  lemma MergedCommutes(f: Forest, u: nat, v: nat)
    requires f.Valid() && u < f.Size() && v < f.Size()
    ensures forall x: nat, y: nat | x < f.Size() && y < f.Size() ::
              Same(Merged(f, u, v), x, y) <==> Same(Merged(f, v, u), x, y)
  {
    MergedPartition(f, u, v);
    MergedPartition(f, v, u);
  }

  /**
   * An effective merge rewrites exactly one parent link, that of the absorbed
   * root, which has the lower rank or came from `u` on a tie; at most the
   * survivor's rank changes, by one and only on a tie. A merge within one
   * group changes nothing.
   */
  lemma MergedRewrites(f: Forest, u: nat, v: nat)
    requires f.Valid() && u < f.Size() && v < f.Size()
    ensures var a, b, g := Root(f, u), Root(f, v), Merged(f, u, v);
            (a == b ==> g == f) &&
            (a != b ==>
               var c, s := Absorbed(f, a, b), Survivor(f, a, b);
               {c, s} == {a, b} && c != s &&
               f.rank[c] <= f.rank[s] && (f.rank[c] == f.rank[s] ==> c == a) &&
               (forall x :: 0 <= x < f.Size() ==> (g.parent[x] != f.parent[x] <==> x == c)) &&
               g.parent[c] == s &&
               (forall x :: 0 <= x < f.Size() && x != s ==> g.rank[x] == f.rank[x]) &&
               g.rank[s] == if f.rank[c] == f.rank[s] then f.rank[s] + 1 else f.rank[s])
  {
  }

  /**
   * An effective merge turns exactly one root, the absorbed one, into a
   * non-root, so the number of groups drops by one; otherwise it stays.
   */
  lemma MergedRoots(f: Forest, u: nat, v: nat)
    requires f.Valid() && u < f.Size() && v < f.Size()
    ensures var a, b := Root(f, u), Root(f, v);
            (a == b ==> Roots(Merged(f, u, v)) == Roots(f)) &&
            (a != b ==> Roots(Merged(f, u, v)) == Roots(f) - {Absorbed(f, a, b)} &&
                        |Roots(Merged(f, u, v))| == |Roots(f)| - 1)
  {
  }

  /** Every pair names elements of a universe of `size` elements. */
  ghost predicate InUniverse(pairs: seq<(nat, nat)>, size: nat)
  {
    forall i :: 0 <= i < |pairs| ==> pairs[i].0 < size && pairs[i].1 < size
  }

  /** The forest after applying `merge` to each pair in turn. */
  ghost function MergeAll(f: Forest, pairs: seq<(nat, nat)>): (g: Forest)
    requires f.Valid() && InUniverse(pairs, f.Size())
    ensures g.Valid() && g.Size() == f.Size()
    ensures |Roots(g)| <= |Roots(f)|
    decreases |pairs|
  {
    if pairs == [] then f
    else
      MergedRoots(f, pairs[0].0, pairs[0].1);
      MergeAll(Merged(f, pairs[0].0, pairs[0].1), pairs[1..])
  }

  /** Merges never split a group. */
  lemma {:induction false} MergeAllKeeps(f: Forest, pairs: seq<(nat, nat)>, x: nat, y: nat)
    requires f.Valid() && InUniverse(pairs, f.Size()) && x < f.Size() && y < f.Size()
    requires Same(f, x, y)
    ensures Same(MergeAll(f, pairs), x, y)
    decreases |pairs|
  {
    if pairs != [] {
      MergedPartition(f, pairs[0].0, pairs[0].1);
      MergeAllKeeps(Merged(f, pairs[0].0, pairs[0].1), pairs[1..], x, y);
    }
  }

  /** After a sequence of merges, the two elements of every merged pair are together. */
  lemma {:induction false} MergeAllJoins(f: Forest, pairs: seq<(nat, nat)>)
    requires f.Valid() && InUniverse(pairs, f.Size())
    ensures forall i :: 0 <= i < |pairs| ==> Same(MergeAll(f, pairs), pairs[i].0, pairs[i].1)
    decreases |pairs|
  {
    if pairs != [] {
      var g := Merged(f, pairs[0].0, pairs[0].1);
      MergedPartition(f, pairs[0].0, pairs[0].1);
      MergeAllKeeps(g, pairs[1..], pairs[0].0, pairs[0].1);
      MergeAllJoins(g, pairs[1..]);
      forall i | 1 <= i < |pairs|
        ensures Same(MergeAll(f, pairs), pairs[i].0, pairs[i].1)
      {
        assert pairs[i] == pairs[1..][i - 1];
      }
    }
  }

  /**
   * The merge scenario of the source's unit test on six elements: each merge
   * joins two groups that were apart, and at the end all six are together.
   */
  lemma MergeScenario()
    ensures var f0 := Init(5);
            var f1 := Merged(f0, 0, 1);
            var f2 := Merged(f1, 2, 3);
            var f3 := Merged(f2, 4, 5);
            var f4 := Merged(f3, 1, 2);
            var f5 := Merged(f4, 3, 4);
            !Same(f0, 0, 1) && Same(f1, 0, 1) &&
            !Same(f1, 2, 3) && Same(f2, 2, 3) &&
            !Same(f2, 4, 5) && Same(f3, 4, 5) &&
            !Same(f3, 1, 2) && Same(f4, 0, 1) && Same(f4, 0, 2) && Same(f4, 0, 3) &&
            !Same(f4, 3, 4) &&
            forall x: nat | x <= 5 :: Same(f5, 0, x)
  {
    var f0 := Init(5);
    InitRoots(5);
    var f1 := Merged(f0, 0, 1);
    MergedPartition(f0, 0, 1);
    var f2 := Merged(f1, 2, 3);
    MergedPartition(f1, 2, 3);
    var f3 := Merged(f2, 4, 5);
    MergedPartition(f2, 4, 5);
    var f4 := Merged(f3, 1, 2);
    MergedPartition(f3, 1, 2);
    var f5 := Merged(f4, 3, 4);
    MergedPartition(f4, 3, 4);
  }

  /**
   * The structure itself: the parent links and ranks live in two arrays of
   * fixed length n + 1 that `Merge` updates in place.
   */
  class DisjointSet {
    const parent: array<nat>
    const rank: array<nat>

    /** The arrays' contents as a forest value. */
    ghost function Model(): Forest
      reads parent, rank
    {
      Forest(parent[..], rank[..])
    }

    ghost predicate Valid()
      reads parent, rank
    {
      parent != rank && Model().Valid()
    }

    /** `n + 1` singleton groups 0..=n, every rank 1. */
    constructor (n: nat)
      ensures Valid() && fresh(parent) && fresh(rank)
      ensures parent.Length == n + 1 && Model() == Init(n)
      ensures forall i :: 0 <= i <= n ==> parent[i] == i && rank[i] == 1
    {
      parent := new nat[n + 1](i => i);
      rank := new nat[n + 1](i => 1);
      new;
      assert parent[..] == Init(n).parent;
      assert rank[..] == Init(n).rank;
    }

    /**
     * The root of `u`'s group, found by walking parent links; no link is
     * rewritten on the way.
     */
    method Find(u: nat) returns (r: nat)
      requires Valid() && u < parent.Length
      ensures r < parent.Length && parent[r] == r
      ensures r == Root(Model(), u)
    {
      r := u;
      while r != parent[r]
        invariant r < parent.Length
        invariant Root(Model(), r) == Root(Model(), u)
        decreases MaxRank(rank[..]) - rank[r]
      {
        r := parent[r];
      }
    }

    /**
     * Joins the groups of `u` and `v` by rank: the lower-rank root (the root
     * of `u` on a tie) is linked under the other, whose rank grows on a tie.
     */
    method Merge(u: nat, v: nat)
      requires Valid() && u < parent.Length && v < parent.Length
      modifies parent, rank
      ensures Valid()
      ensures Model() == Merged(old(Model()), u, v)
      ensures Root(Model(), u) == Root(Model(), v)
    {
      var a := Find(u);
      var b := Find(v);
      if a == b {
        return;
      }
      if rank[a] > rank[b] {
        a, b := b, a;
      }
      parent[a] := b;
      if rank[a] == rank[b] {
        rank[b] := rank[b] + 1;
      }
      MergedPartition(old(Model()), u, v);
    }
  }

  /** The five merges of the source's merge test, applied to a fresh structure. */
  method MergeTestMerges() returns (ds: DisjointSet)
    ensures ds.Valid() && ds.parent.Length == 6
    ensures forall x: nat | x <= 5 :: Same(ds.Model(), 0, x)
  {
    ds := new DisjointSet(5);
    ghost var f := ds.Model();
    ds.Merge(0, 1);
    assert ds.Model() == Merged(f, 0, 1);
    f := ds.Model();
    ds.Merge(2, 3);
    assert ds.Model() == Merged(f, 2, 3);
    f := ds.Model();
    ds.Merge(4, 5);
    assert ds.Model() == Merged(f, 4, 5);
    f := ds.Model();
    ds.Merge(1, 2);
    assert ds.Model() == Merged(f, 1, 2);
    f := ds.Model();
    ds.Merge(3, 4);
    assert ds.Model() == Merged(f, 3, 4);
    MergeScenario();
    assert ds.Model() == Merged(Merged(Merged(Merged(Merged(Init(5), 0, 1), 2, 3), 4, 5), 1, 2), 3, 4);
  }

  /**
   * The source's merge test, replayed on the arrays through `Merge` and
   * `Find`: after the five merges on a structure of six elements, `Find`
   * gives every element the same root.
   */
  method MergeTest() returns (roots: seq<nat>)
    ensures |roots| == 6 && forall i :: 0 <= i < 6 ==> roots[i] == roots[0]
  {
    var ds := MergeTestMerges();
    var r0 := ds.Find(0);
    var r1 := ds.Find(1);
    var r2 := ds.Find(2);
    var r3 := ds.Find(3);
    var r4 := ds.Find(4);
    var r5 := ds.Find(5);
    assert Same(ds.Model(), 0, 1);
    assert r1 == r0;
    assert Same(ds.Model(), 0, 2) && Same(ds.Model(), 0, 3) && Same(ds.Model(), 0, 4) && Same(ds.Model(), 0, 5);
    assert r2 == r0 && r3 == r0 && r4 == r0 && r5 == r0;
    roots := [r0, r1, r2, r3, r4, r5];
  }
}
