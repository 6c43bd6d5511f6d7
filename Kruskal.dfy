/** Kruskal's algorithm as the three programs run it: sort the edges by weight,
    then walk them in order and keep an edge exactly when its endpoints are in
    different sets of the union-find structure, merging those sets. The pure
    part states what the walk computes (Greedy) and what that is: a forest, no
    larger than n - 1 edges, that connects exactly what the considered edges
    connect. The imperative part is the walk over a DisjointSet and the three
    drivers around it. */
module Kruskal {
  import opened Exceptions
  import opened Vector
  import opened Partitions
  import opened EdgeSort
  import opened DisjointSets
  import opened ParentForest

  /** Both endpoints are nodes of an n-node structure; any other edge makes
      find throw out_of_range. */
  predicate InRange(n: int, e: Edge) {
    0 <= e.u < n && 0 <= e.v < n
  }

  /** Whether the walk looks at e at all: with `skip` (kruskal.h) the default
      edge is passed over before any find. */
  predicate Considered(e: Edge, skip: bool) {
    !(skip && IsDefaultEdge(e))
  }

  /** mst_weight: the weights of the kept edges, added up in order. */
  function SumWeights(s: seq<Edge>): int {
    if |s| == 0 then 0 else SumWeights(s[..|s| - 1]) + s[|s| - 1].weight
  }

  /** The partition after merging the sets of e's endpoints. */
  function Merge(lab: seq<int>, e: Edge): (m: seq<int>)
    requires InRange(|lab|, e)
    ensures |m| == |lab|
  {
    Join(lab, lab[e.u], lab[e.v], lab[e.u])
  }

  lemma SumWeightsAppend(s: seq<Edge>, e: Edge)
    ensures SumWeights(s + [e]) == SumWeights(s) + e.weight
  {
    assert (s + [e])[..|s|] == s;
  }

  /** Puts acc in front of a successful result; a failure stays a failure. */
  function Prepend(acc: seq<Edge>, r: Result<seq<Edge>>): Result<seq<Edge>> {
    match r
    case Success(rest) => Success(acc + rest)
    case Failure(err) => Failure(err)
  }

  lemma PrependAppend(acc: seq<Edge>, e: Edge, r: Result<seq<Edge>>)
    ensures Prepend(acc, Prepend([e], r)) == Prepend(acc + [e], r)
  {
    if r.Success? {
      assert acc + ([e] + r.value) == (acc + [e]) + r.value;
    }
  }

  /** The walk over es from the partition lab: the edges it keeps, or the
      out_of_range of the first considered edge with an endpoint that is not a
      node. */
  function Greedy(lab: seq<int>, es: seq<Edge>, skip: bool): Result<seq<Edge>>
    decreases |es|
  {
    if |es| == 0 then Success([])
    else if !Considered(es[0], skip) then Greedy(lab, es[1..], skip)
    else if !InRange(|lab|, es[0]) then Failure(OutOfRange)
    else if lab[es[0].u] == lab[es[0].v] then Greedy(lab, es[1..], skip)
    else Prepend([es[0]], Greedy(Merge(lab, es[0]), es[1..], skip))
  }

  /** The walk fails exactly when some considered edge has an endpoint that is
      not a node, and then with out_of_range. */
  lemma {:induction false} GreedyFails(lab: seq<int>, es: seq<Edge>, skip: bool)
    ensures Greedy(lab, es, skip).Failure? <==>
              exists i :: 0 <= i < |es| && Considered(es[i], skip) && !InRange(|lab|, es[i])
    ensures Greedy(lab, es, skip).Failure? ==> Greedy(lab, es, skip).error == OutOfRange
    decreases |es|
  {
    if |es| > 0 {
      var e := es[0];
      if Considered(e, skip) && InRange(|lab|, e) && lab[e.u] != lab[e.v] {
        GreedyFails(Merge(lab, e), es[1..], skip);
      } else {
        GreedyFails(lab, es[1..], skip);
      }
      if exists i :: 0 <= i < |es| && Considered(es[i], skip) && !InRange(|lab|, es[i]) {
        var i :| 0 <= i < |es| && Considered(es[i], skip) && !InRange(|lab|, es[i]);
        if i > 0 {
          assert es[1..][i - 1] == es[i];
        }
      }
    }
  }

  /** The walk only depends on the partition, not on which node names a set: a
      union by rank that keeps the other root gives the same result. */
  lemma {:induction false} GreedyRelabel(a: seq<int>, b: seq<int>, es: seq<Edge>, skip: bool)
    requires SamePartition(a, b)
    ensures Greedy(a, es, skip) == Greedy(b, es, skip)
    decreases |es|
  {
    if |es| > 0 {
      var e := es[0];
      if Considered(e, skip) && InRange(|a|, e) {
        if a[e.u] == a[e.v] {
          GreedyRelabel(a, b, es[1..], skip);
        } else {
          JoinRespectsPartition(a, b, e.u, e.v, a[e.u], b[e.u]);
          GreedyRelabel(Merge(a, e), Merge(b, e), es[1..], skip);
        }
      } else if !Considered(e, skip) {
        GreedyRelabel(a, b, es[1..], skip);
      }
    }
  }

  /** Every kept edge comes from the input, was considered, joins two distinct
      nodes and so is never the default edge. */
  lemma {:induction false} GreedyKeepsInputEdges(lab: seq<int>, es: seq<Edge>, skip: bool)
    requires Greedy(lab, es, skip).Success?
    ensures forall e :: e in Greedy(lab, es, skip).value ==>
              && e in es && Considered(e, skip) && InRange(|lab|, e)
              && e.u != e.v && !IsDefaultEdge(e)
    decreases |es|
  {
    if |es| > 0 {
      var e := es[0];
      if Considered(e, skip) && InRange(|lab|, e) && lab[e.u] != lab[e.v] {
        GreedyKeepsInputEdges(Merge(lab, e), es[1..], skip);
      } else {
        GreedyKeepsInputEdges(lab, es[1..], skip);
      }
    }
  }

  /** Kept edges are in input order, so a sorted input gives a sorted forest. */
  lemma {:induction false} GreedySorted(lab: seq<int>, es: seq<Edge>, skip: bool)
    requires SortedByWeight(es) && Greedy(lab, es, skip).Success?
    ensures SortedByWeight(Greedy(lab, es, skip).value)
    decreases |es|
  {
    if |es| > 0 {
      var e := es[0];
      assert SortedByWeight(es[1..]);
      if Considered(e, skip) && InRange(|lab|, e) && lab[e.u] != lab[e.v] {
        var rest := Greedy(Merge(lab, e), es[1..], skip);
        GreedySorted(Merge(lab, e), es[1..], skip);
        GreedyKeepsInputEdges(Merge(lab, e), es[1..], skip);
        forall f | f in rest.value
          ensures e.weight <= f.weight
        {
          var k :| 0 <= k < |es[1..]| && es[1..][k] == f;
          assert es[k + 1] == f;
        }
      } else {
        GreedySorted(lab, es[1..], skip);
      }
    }
  }

  /** F is es with some elements left out: F[k] is es[idx[k]], and the indices
      strictly increase. */
  ghost predicate Picks(idx: seq<int>, F: seq<Edge>, es: seq<Edge>) {
    && |idx| == |F|
    && (forall k :: 0 <= k < |idx| ==> 0 <= idx[k] < |es| && es[idx[k]] == F[k])
    && (forall k, l :: 0 <= k < l < |idx| ==> idx[k] < idx[l])
  }

  /** The indices of a selection from es[1..], as indices into es. */
  function Shift(idx: seq<int>): (s: seq<int>)
    ensures |s| == |idx| && forall k :: 0 <= k < |idx| ==> s[k] == idx[k] + 1
  {
    seq(|idx|, k requires 0 <= k < |idx| => idx[k] + 1)
  }

  /** A selection from es[1..] is one from es once its indices are shifted. */
  lemma PicksShift(idx: seq<int>, F: seq<Edge>, es: seq<Edge>)
    requires |es| > 0 && Picks(idx, F, es[1..])
    ensures Picks(Shift(idx), F, es)
  {
  }

  /** ... and taking es[0] in front of it keeps the indices increasing. */
  lemma PicksCons(idx: seq<int>, F: seq<Edge>, es: seq<Edge>)
    requires |es| > 0 && Picks(idx, F, es[1..])
    ensures Picks([0] + Shift(idx), [es[0]] + F, es)
  {
    PicksShift(idx, F, es);
  }

  /** The walk keeps edges in input order: its result is es with the passed-over
      edges left out, and idx says where each kept edge stood. */
  lemma {:induction false} GreedyInOrder(lab: seq<int>, es: seq<Edge>, skip: bool) returns (idx: seq<int>)
    requires Greedy(lab, es, skip).Success?
    ensures Picks(idx, Greedy(lab, es, skip).value, es)
    decreases |es|
  {
    if |es| == 0 {
      return [];
    }
    var e := es[0];
    if Considered(e, skip) && InRange(|lab|, e) && lab[e.u] != lab[e.v] {
      var rest := GreedyInOrder(Merge(lab, e), es[1..], skip);
      PicksCons(rest, Greedy(Merge(lab, e), es[1..], skip).value, es);
      idx := [0] + Shift(rest);
    } else {
      var rest := GreedyInOrder(lab, es[1..], skip);
      PicksShift(rest, Greedy(lab, es[1..], skip).value, es);
      idx := Shift(rest);
    }
  }

  /** F is a forest over the partition lab: every edge, taken in order, joins
      two sets that the earlier ones had not joined. */
  ghost predicate IsForest(lab: seq<int>, F: seq<Edge>)
    decreases |F|
  {
    |F| == 0 ||
    (InRange(|lab|, F[0]) && lab[F[0].u] != lab[F[0].v] && IsForest(Merge(lab, F[0]), F[1..]))
  }

  lemma {:induction false} GreedyForest(lab: seq<int>, es: seq<Edge>, skip: bool)
    requires Greedy(lab, es, skip).Success?
    ensures IsForest(lab, Greedy(lab, es, skip).value)
    decreases |es|
  {
    if |es| > 0 {
      var e := es[0];
      if Considered(e, skip) && InRange(|lab|, e) && lab[e.u] != lab[e.v] {
        var rest := Greedy(Merge(lab, e), es[1..], skip).value;
        GreedyForest(Merge(lab, e), es[1..], skip);
        assert ([e] + rest)[1..] == rest;
      } else {
        GreedyForest(lab, es[1..], skip);
      }
    }
  }

  /** A forest over a partition with c sets has at most c - 1 edges. */
  lemma {:induction false} ForestSize(lab: seq<int>, F: seq<Edge>)
    requires IsForest(lab, F)
    ensures |lab| == 0 ==> |F| == 0
    ensures |lab| > 0 ==> |F| <= |Classes(lab)| - 1
    decreases |F|
  {
    if |lab| > 0 {
      assert lab[0] in Classes(lab);
    }
    if |F| > 0 {
      var e := F[0];
      JoinClasses(lab, e.u, e.v);
      ForestSize(Merge(lab, e), F[1..]);
    }
  }

  /** Walking a forest keeps every one of its edges: Kruskal run again on its
      own output returns it unchanged. */
  lemma {:induction false} ForestKept(lab: seq<int>, F: seq<Edge>, skip: bool)
    requires IsForest(lab, F)
    ensures Greedy(lab, F, skip) == Success(F)
    decreases |F|
  {
    if |F| > 0 {
      ForestKept(Merge(lab, F[0]), F[1..], skip);
      assert [F[0]] + F[1..] == F;
    }
  }

  /** The considered edges of es, in order. */
  function ConsideredEdges(es: seq<Edge>, skip: bool): (c: seq<Edge>)
    ensures forall e :: e in c <==> e in es && Considered(e, skip)
  {
    if |es| == 0 then []
    else (if Considered(es[0], skip) then [es[0]] else []) + ConsideredEdges(es[1..], skip)
  }

  /** The partition reached from lab by merging along every edge of es. */
  function Connect(lab: seq<int>, es: seq<Edge>): (m: seq<int>)
    requires forall e :: e in es ==> InRange(|lab|, e)
    ensures |m| == |lab|
    decreases |es|
  {
    if |es| == 0 then lab
    else
      var next := Merge(lab, es[0]);
      assert forall e :: e in es[1..] ==> e in es;
      Connect(next, es[1..])
  }

  /** The kept edges connect exactly what all the considered edges connect: the
      forest spans every connected component of the graph. */
  lemma {:induction false} GreedySpans(lab: seq<int>, es: seq<Edge>, skip: bool)
    requires Greedy(lab, es, skip).Success?
    ensures forall e :: e in ConsideredEdges(es, skip) ==> InRange(|lab|, e)
    ensures forall e :: e in Greedy(lab, es, skip).value ==> InRange(|lab|, e)
    ensures Connect(lab, Greedy(lab, es, skip).value) == Connect(lab, ConsideredEdges(es, skip))
    decreases |es|
  {
    GreedyKeepsInputEdges(lab, es, skip);
    GreedyFails(lab, es, skip);
    forall e | e in ConsideredEdges(es, skip)
      ensures InRange(|lab|, e)
    {
      var i :| 0 <= i < |es| && es[i] == e;
    }
    if |es| > 0 {
      var e := es[0];
      var cs := ConsideredEdges(es[1..], skip);
      if !Considered(e, skip) {
        GreedySpans(lab, es[1..], skip);
        assert ConsideredEdges(es, skip) == cs;
      } else if lab[e.u] == lab[e.v] {
        GreedySpans(lab, es[1..], skip);
        JoinSameSet(lab, lab[e.u]);
        assert ([e] + cs)[1..] == cs;
      } else {
        var rest := Greedy(Merge(lab, e), es[1..], skip).value;
        GreedySpans(Merge(lab, e), es[1..], skip);
        assert ([e] + cs)[1..] == cs;
        assert ([e] + rest)[1..] == rest;
      }
    }
  }

  /** kruskal.h's skip of the default edge changes nothing unless that edge's
      endpoint is not a node (where skipping avoids the throw). */
  lemma {:induction false} SkipIsRedundant(lab: seq<int>, es: seq<Edge>)
    requires forall e :: e in es && IsDefaultEdge(e) ==> InRange(|lab|, e)
    ensures Greedy(lab, es, true) == Greedy(lab, es, false)
    decreases |es|
  {
    if |es| > 0 {
      assert forall e :: e in es[1..] ==> e in es;
      SkipIsRedundant(lab, es[1..]);
      if !Considered(es[0], true) {
        JoinSameSet(lab, lab[es[0].u]);
      } else if InRange(|lab|, es[0]) && lab[es[0].u] != lab[es[0].v] {
        SkipIsRedundant(Merge(lab, es[0]), es[1..]);
      }
    }
  }

  /** The spanning-forest facts for a run from n singletons. */
  lemma KruskalForest(n: nat, es: seq<Edge>, skip: bool)
    requires n > 0 && Greedy(Identity(n), es, skip).Success?
    ensures var F := Greedy(Identity(n), es, skip).value;
            && IsForest(Identity(n), F)
            && |F| <= n - 1
            && Greedy(Identity(n), F, skip) == Success(F)
            && (forall e :: e in F ==> InRange(n, e))
            && (forall e :: e in ConsideredEdges(es, skip) ==> InRange(n, e))
            && Connect(Identity(n), F) == Connect(Identity(n), ConsideredEdges(es, skip))
  {
    var F := Greedy(Identity(n), es, skip).value;
    GreedyForest(Identity(n), es, skip);
    ForestSize(Identity(n), F);
    IdentityClasses(n);
    ForestKept(Identity(n), F, skip);
    GreedySpans(Identity(n), es, skip);
  }

  /** The loop invariant of Walk: what the walk still has to do from index i,
      over the current partition, completes the kept edges to Greedy's result. */
  ghost predicate WalkInvariant(lab0: seq<int>, es: seq<Edge>, skip: bool, kept: seq<Edge>, roots: seq<int>, i: int)
    requires 0 <= i <= |es|
  {
    Greedy(lab0, es, skip) == Prepend(kept, Greedy(roots, es[i..], skip))
  }

  /** An edge passed over (skipped, or with both ends in one set) is not kept. */
  lemma WalkPass(lab0: seq<int>, es: seq<Edge>, skip: bool, kept: seq<Edge>, roots: seq<int>, i: int)
    requires 0 <= i < |es| && WalkInvariant(lab0, es, skip, kept, roots, i)
    requires !Considered(es[i], skip) || (InRange(|roots|, es[i]) && roots[es[i].u] == roots[es[i].v])
    ensures WalkInvariant(lab0, es, skip, kept, roots, i + 1)
  {
    assert es[i..][0] == es[i] && es[i..][1..] == es[i + 1..];
  }

  /** A considered edge with an endpoint that is not a node ends the walk in
      failure. */
  lemma WalkFail(lab0: seq<int>, es: seq<Edge>, skip: bool, kept: seq<Edge>, roots: seq<int>, i: int)
    requires 0 <= i < |es| && WalkInvariant(lab0, es, skip, kept, roots, i)
    requires Considered(es[i], skip) && !InRange(|roots|, es[i])
    ensures Greedy(lab0, es, skip) == Failure(OutOfRange)
  {
    assert es[i..][0] == es[i];
  }

  /** An edge across two sets is kept, and the walk goes on from any labelling
      of the merged partition. */
  lemma WalkKeep(lab0: seq<int>, es: seq<Edge>, skip: bool, kept: seq<Edge>, roots: seq<int>, i: int,
                 after: seq<int>)
    requires 0 <= i < |es| && WalkInvariant(lab0, es, skip, kept, roots, i)
    requires Considered(es[i], skip) && InRange(|roots|, es[i])
    requires roots[es[i].u] != roots[es[i].v]
    requires SamePartition(Merge(roots, es[i]), after)
    ensures WalkInvariant(lab0, es, skip, kept + [es[i]], after, i + 1)
  {
    var e := es[i];
    assert es[i..][0] == e && es[i..][1..] == es[i + 1..];
    GreedyRelabel(Merge(roots, e), after, es[i + 1..], skip);
    PrependAppend(kept, e, Greedy(after, es[i + 1..], skip));
  }

  /** The body of the walk for one edge, up to the push_back: the skip test,
      find on both endpoints (out_of_range for a non-node) and, when the roots
      differ, union_sets. `keep` says whether the edge joined two sets, and
      then the structure holds the merged partition. */
  method VisitEdge(ds: DisjointSet, e: Edge, skip: bool) returns (r: Outcome, keep: bool)
    requires ds.Valid()
    modifies ds.parent, ds.rank
    ensures ds.Valid()
    ensures r.Fail? <==> Considered(e, skip) && !InRange(ds.parent.Length, e)
    ensures r.Fail? ==> r.error == OutOfRange
    ensures r.Pass? ==>
              keep == (Considered(e, skip) && old(ds.Roots())[e.u] != old(ds.Roots())[e.v])
    ensures r.Pass? && keep ==> SamePartition(Merge(old(ds.Roots()), e), ds.Roots())
    ensures r.Pass? && !keep ==> ds.Roots() == old(ds.Roots())
  {
    keep := false;
    if !Considered(e, skip) {
      return Pass, keep;
    }
    var fu := ds.Find(e.u);
    if fu.Failure? {
      return Fail(OutOfRange), keep;
    }
    var fv := ds.Find(e.v);
    if fv.Failure? {
      return Fail(OutOfRange), keep;
    }
    if fu.value != fv.value {
      ghost var roots, rk := ds.Roots(), ds.rank[..];
      var _ := ds.Union(e.u, e.v);
      JoinRespectsPartition(roots, roots, e.u, e.v, roots[e.u], Winner(rk, fu.value, fv.value));
      keep := true;
    }
    return Pass, keep;
  }

  /** One turn of the walk's loop: visits es[i], pushes it onto mst and adds
      its weight when it joined two sets, and carries the edges kept so far
      (ghost `kept`) one edge further along Greedy. */
  method WalkStep(ds: DisjointSet, mst: TVector<Edge>, es: seq<Edge>, i: int, skip: bool, weight: int,
                  ghost lab0: seq<int>, ghost mst0: seq<Edge>, ghost kept: seq<Edge>)
    returns (r: Outcome, newWeight: int, ghost newKept: seq<Edge>)
    requires 0 <= i < |es|
    requires ds.Valid() && mst.Valid() && ds.parent.Length == |lab0|
    requires mst.Contents() == mst0 + kept && weight == SumWeights(kept)
    requires WalkInvariant(lab0, es, skip, kept, ds.Roots(), i)
    modifies ds.parent, ds.rank, mst, mst.data
    ensures ds.Valid() && mst.Valid() && ds.parent.Length == |lab0|
    ensures mst.data == old(mst.data) || fresh(mst.data)
    ensures r.Fail? ==> r.error == OutOfRange && Greedy(lab0, es, skip).Failure?
    ensures r.Pass? ==> && mst.Contents() == mst0 + newKept && newWeight == SumWeights(newKept)
                        && WalkInvariant(lab0, es, skip, newKept, ds.Roots(), i + 1)
  {
    var e := es[i];
    ghost var roots := ds.Roots();
    var visited, keep := VisitEdge(ds, e, skip);
    newWeight, newKept := weight, kept;
    if visited.Fail? {
      WalkFail(lab0, es, skip, kept, roots, i);
      return Fail(OutOfRange), newWeight, newKept;
    }
    if keep {
      ghost var after := ds.Roots();
      WalkKeep(lab0, es, skip, kept, roots, i, after);
      mst.PushBack(e);
      assert ds.Valid() && ds.Roots() == after;
      newWeight := weight + e.weight;
      SumWeightsAppend(kept, e);
      newKept := kept + [e];
      assert mst.Contents() == mst0 + newKept;
    } else {
      WalkPass(lab0, es, skip, kept, roots, i);
    }
    return Pass, newWeight, newKept;
  }

  /** The walk of all three programs (the loops of kruskal.h, first.cpp and
      tests.cpp): visit each edge in order and, when it joins two sets, append
      it to mst and add its weight. It keeps exactly the edges Greedy keeps from
      the structure's partition, and stops with out_of_range exactly where
      Greedy fails. */
  method Walk(ds: DisjointSet, es: seq<Edge>, skip: bool, mst: TVector<Edge>)
    returns (r: Outcome, weight: int)
    requires ds.Valid() && mst.Valid()
    modifies ds.parent, ds.rank, mst, mst.data
    ensures ds.Valid() && mst.Valid()
    ensures mst.data == old(mst.data) || fresh(mst.data)
    ensures var g := Greedy(old(ds.Roots()), es, skip);
            && (r.Fail? <==> g.Failure?)
            && (r.Fail? ==> r.error == OutOfRange)
            && (r.Pass? ==> mst.Contents() == old(mst.Contents()) + g.value)
            && (r.Pass? ==> weight == SumWeights(g.value))
  {
    ghost var lab0, mst0 := ds.Roots(), mst.Contents();
    ghost var kept: seq<Edge> := [];
    weight := 0;
    assert WalkInvariant(lab0, es, skip, kept, lab0, 0) by {
      assert es[0..] == es;
      if Greedy(lab0, es, skip).Success? {
        assert kept + Greedy(lab0, es, skip).value == Greedy(lab0, es, skip).value;
      }
    }
    assert mst.Contents() == mst0 + kept;
    for i := 0 to |es|
      invariant ds.Valid() && mst.Valid() && ds.parent.Length == |lab0|
      invariant mst.data == old(mst.data) || fresh(mst.data)
      invariant mst.Contents() == mst0 + kept && weight == SumWeights(kept)
      invariant WalkInvariant(lab0, es, skip, kept, ds.Roots(), i)
    {
      r, weight, kept := WalkStep(ds, mst, es, i, skip, weight, lab0, mst0, kept);
      if r.Fail? {
        return;
      }
    }
    assert es[|es|..] == [];
    assert kept + [] == kept;
    return Pass, weight;
  }

  /** kruskal(n, edges, use_compression) of kruskal.h: std::sort on the
      caller's edges (which stay sorted even if what follows throws), a
      default-sized mst holding one Edge(), the union-find structure (whose
      size check throws length_error), then the walk that skips the default
      edge. The result is the Edge() slot followed by the kept edges. */
  method RunKruskal(n: int, edges: TVector<Edge>, compress: bool) returns (r: Result<TVector<Edge>>)
    requires edges.Valid()
    modifies edges.data
    ensures edges.Valid()
    ensures SortedByWeight(edges.Contents())
    ensures multiset(edges.Contents()) == multiset(old(edges.Contents()))
    ensures !ValidSize(n) ==> r == Failure(LengthError)
    ensures ValidSize(n) ==>
              var g := Greedy(Identity(n), edges.Contents(), true);
              && (r.Failure? <==> g.Failure?)
              && (r.Failure? ==> r.error == OutOfRange)
              && (r.Success? ==> fresh(r.value) && r.value.Valid())
              && (r.Success? ==> r.value.Contents() == [DefaultEdge] + g.value)
  {
    SortEdges(edges);
    var made := TVector<Edge>.MakeFilled(1, DefaultEdge);
    var mst := made.value;
    assert mst.Contents() == [DefaultEdge];
    var built := DisjointSet.Make(n, compress);
    if built.Failure? {
      return Failure(LengthError);
    }
    var outcome, _ := Walk(built.value, edges.data[..edges.size], true, mst);
    if outcome.Fail? {
      return Failure(OutOfRange);
    }
    return Success(mst);
  }

  /** Kruskal(n, edges, use_compression) of first.cpp: BubbleSort on the
      caller's edges (out_of_range on an empty vector), a default-sized mst
      whose one Edge is left uninitialised, the union-find structure, then the
      walk without any skip; `weight` is the mst_weight it prints. */
  method RunKruskalBubble(n: int, edges: TVector<Edge>, compress: bool)
    returns (r: Result<TVector<Edge>>, weight: int)
    requires edges.Valid()
    modifies edges.data
    ensures edges.Valid()
    ensures edges.size == 0 ==> r == Failure(OutOfRange) && edges.Contents() == old(edges.Contents())
    ensures SortedByWeight(edges.Contents())
    ensures StablePermutation(edges.Contents(), old(edges.Contents()))
    ensures edges.size > 0 && !ValidSize(n) ==> r == Failure(LengthError)
    ensures edges.size > 0 && ValidSize(n) ==>
              var g := Greedy(Identity(n), edges.Contents(), false);
              && (r.Failure? <==> g.Failure?)
              && (r.Failure? ==> r.error == OutOfRange)
              && (r.Success? ==> fresh(r.value) && r.value.Valid())
              && (r.Success? ==> |r.value.Contents()| == |g.value| + 1)
              && (r.Success? ==> r.value.Contents()[1..] == g.value)
              && (r.Success? ==> weight == SumWeights(g.value))
  {
    weight := 0;
    var sorted := BubbleSort(edges);
    if sorted.Fail? {
      return Failure(OutOfRange), weight;
    }
    var made := TVector<Edge>.Make(1);
    var mst := made.value;
    var built := DisjointSet.Make(n, compress);
    if built.Failure? {
      return Failure(LengthError), weight;
    }
    ghost var first := mst.Contents();
    var outcome;
    outcome, weight := Walk(built.value, edges.data[..edges.size], false, mst);
    if outcome.Fail? {
      return Failure(OutOfRange), weight;
    }
    assert mst.Contents() == first + Greedy(Identity(n), edges.Contents(), false).value;
    return Success(mst), weight;
  }

  /** MeasureKruskal<UnionFindType>(n, edges) of tests.cpp without its clock:
      the union-find structure first, a default-sized mst, a copy of the
      caller's edges sorted with std::sort, then the walk without any skip. The
      caller's edges are not touched; the mst, its weight and the sorted copy
      are returned where the original only returns the elapsed time. */
  method MeasureKruskal(n: int, edges: TVector<Edge>, compress: bool)
    returns (r: Result<TVector<Edge>>, weight: int, sorted: seq<Edge>)
    requires edges.Valid()
    ensures !ValidSize(n) ==> r == Failure(LengthError)
    ensures ValidSize(n) ==>
              && SortedByWeight(sorted)
              && multiset(sorted) == multiset(edges.Contents())
    ensures ValidSize(n) ==>
              var g := Greedy(Identity(n), sorted, false);
              && (r.Failure? <==> g.Failure?)
              && (r.Failure? ==> r.error == OutOfRange)
              && (r.Success? ==> fresh(r.value) && r.value.Valid())
              && (r.Success? ==> |r.value.Contents()| == |g.value| + 1)
              && (r.Success? ==> r.value.Contents()[1..] == g.value)
              && (r.Success? ==> weight == SumWeights(g.value))
  {
    weight, sorted := 0, [];
    var built := DisjointSet.Make(n, compress);
    if built.Failure? {
      return Failure(LengthError), weight, sorted;
    }
    var made := TVector<Edge>.Make(1);
    var mst := made.value;
    var copy := edges.Clone();
    SortEdges(copy);
    sorted := copy.data[..copy.size];
    ghost var first := mst.Contents();
    var outcome;
    outcome, weight := Walk(built.value, sorted, false, mst);
    if outcome.Fail? {
      return Failure(OutOfRange), weight, sorted;
    }
    assert mst.Contents() == first + Greedy(Identity(n), sorted, false).value;
    return Success(mst), weight, sorted;
  }
}
