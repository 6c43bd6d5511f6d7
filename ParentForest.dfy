/** The parent/rank arrays of a disjoint-set forest, as values: what a root is,
    which nodes a find walks over, what path compression and union by rank do to
    the arrays, and which partition of the nodes the forest stands for. */
module ParentForest {
  import opened Partitions

  /** An upper bound on every rank: the termination measure of a walk to the root
      is this bound minus the rank of the current node. */
  function MaxRank(rk: seq<int>): (m: int)
    ensures forall i :: 0 <= i < |rk| ==> rk[i] <= m
  {
    if |rk| == 0 then 0
    else
      var m := MaxRank(rk[..|rk| - 1]);
      if rk[|rk| - 1] > m then rk[|rk| - 1] else m
  }

  /** Every parent is a node, ranks are non-negative, and a non-root node has a
      strictly smaller rank than its parent. Union by rank keeps this, and it is
      what makes every walk along parent links reach a root. */
  ghost predicate WellRanked(p: seq<int>, rk: seq<int>) {
    && |p| == |rk|
    && (forall x :: 0 <= x < |p| ==> 0 <= p[x] < |p|)
    && (forall x :: 0 <= x < |rk| ==> 0 <= rk[x])
    && (forall x {:trigger p[x]} :: 0 <= x < |p| && p[x] != x ==> rk[x] < rk[p[x]])
  }

  /** The root reached from x by following parent links. */
  ghost function Root(p: seq<int>, rk: seq<int>, x: int): (r: int)
    requires WellRanked(p, rk) && 0 <= x < |p|
    ensures 0 <= r < |p| && p[r] == r
    ensures r != x ==> rk[x] < rk[r]
    decreases MaxRank(rk) - rk[x]
  {
    if p[x] == x then x else Root(p, rk, p[x])
  }

  /** The root of every node: the partition the forest stands for. */
  ghost function Roots(p: seq<int>, rk: seq<int>): (roots: seq<int>)
    requires WellRanked(p, rk)
    ensures |roots| == |p|
    ensures forall x :: 0 <= x < |p| ==> roots[x] == Root(p, rk, x)
  {
    seq(|p|, x requires 0 <= x < |p| => Root(p, rk, x))
  }

  /** The non-root nodes a find visits on its way from x to the root, in order. */
  ghost function Path(p: seq<int>, rk: seq<int>, x: int): (path: seq<int>)
    requires WellRanked(p, rk) && 0 <= x < |p|
    ensures forall y :: y in path ==> 0 <= y < |p| && p[y] != y && Root(p, rk, y) == Root(p, rk, x)
    ensures p[x] != x ==> x in path
    decreases MaxRank(rk) - rk[x]
  {
    if p[x] == x then [] else [x] + Path(p, rk, p[x])
  }

  /** q differs from p only by parent links moved straight to the node's root. */
  ghost predicate Redirects(p: seq<int>, q: seq<int>, rk: seq<int>)
    requires WellRanked(p, rk)
  {
    && |q| == |p|
    && forall y :: 0 <= y < |p| ==> q[y] == p[y] || q[y] == Root(p, rk, y)
  }

  /** Moving links to roots keeps the rank invariant... */
  lemma RedirectWellRanked(p: seq<int>, q: seq<int>, rk: seq<int>)
    requires WellRanked(p, rk) && Redirects(p, q, rk)
    ensures WellRanked(q, rk)
  {
    forall y | 0 <= y < |q| && q[y] != y
      ensures rk[y] < rk[q[y]]
    {
      if q[y] != p[y] {
        assert q[y] == Root(p, rk, y);
      }
    }
  }

  /** ... and leaves the root of every node where it was. */
  lemma {:induction false} RedirectRoot(p: seq<int>, q: seq<int>, rk: seq<int>, x: int)
    requires WellRanked(p, rk) && Redirects(p, q, rk) && 0 <= x < |p|
    ensures WellRanked(q, rk)
    ensures Root(q, rk, x) == Root(p, rk, x)
    decreases MaxRank(rk) - rk[x]
  {
    RedirectWellRanked(p, q, rk);
    if q[x] != x {
      RedirectRoot(p, q, rk, q[x]);
      if q[x] != p[x] {
        assert q[x] == Root(p, rk, x);
      }
    } else if p[x] != x {
      assert q[x] == Root(p, rk, x);
    }
  }

  lemma RedirectRoots(p: seq<int>, q: seq<int>, rk: seq<int>)
    requires WellRanked(p, rk) && Redirects(p, q, rk)
    ensures WellRanked(q, rk) && Roots(q, rk) == Roots(p, rk)
  {
    RedirectWellRanked(p, q, rk);
    forall x | 0 <= x < |p|
      ensures Root(q, rk, x) == Root(p, rk, x)
    {
      RedirectRoot(p, q, rk, x);
    }
  }

  /** The parent array after a compressing find from x: every node on the walked
      path now points straight at the root, every other link is as it was. The
      forest still stands for the same partition, with the same roots. */
  ghost function Compress(p: seq<int>, rk: seq<int>, x: int): (q: seq<int>)
    requires WellRanked(p, rk) && 0 <= x < |p|
    ensures |q| == |p|
    ensures forall y :: 0 <= y < |p| ==>
              q[y] == if y in Path(p, rk, x) then Root(p, rk, x) else p[y]
    ensures q[x] == Root(p, rk, x)
    ensures WellRanked(q, rk) && Roots(q, rk) == Roots(p, rk)
  {
    var q := seq(|p|, y requires 0 <= y < |p| => if y in Path(p, rk, x) then Root(p, rk, x) else p[y]);
    assert Redirects(p, q, rk);
    RedirectRoots(p, q, rk);
    q
  }

  /** The recursive step of a compressing find: compress from x's parent, then
      point x at the root. */
  lemma CompressStep(p: seq<int>, rk: seq<int>, x: int)
    requires WellRanked(p, rk) && 0 <= x < |p| && p[x] != x
    ensures Compress(p, rk, p[x])[x := Root(p, rk, x)] == Compress(p, rk, x)
  {
    var before, after := Compress(p, rk, p[x]), Compress(p, rk, x);
    var rest := Path(p, rk, p[x]);
    assert Path(p, rk, x) == [x] + rest;
    forall y | 0 <= y < |p|
      ensures before[x := Root(p, rk, x)][y] == after[y]
    {
      if y != x {
        assert y in Path(p, rk, x) <==> y in rest;
      }
    }
  }

  /** The parent array after one find: a compressing find rewrites the path, a
      plain one leaves the array alone. */
  ghost function AfterFind(p: seq<int>, rk: seq<int>, x: int, compress: bool): (q: seq<int>)
    requires WellRanked(p, rk) && 0 <= x < |p|
    ensures WellRanked(q, rk) && Roots(q, rk) == Roots(p, rk)
  {
    if compress then Compress(p, rk, x) else p
  }

  /** Union by rank between two roots a and b: the root of strictly smaller rank
      goes under the other; on a tie b goes under a. */
  function Winner(rk: seq<int>, a: int, b: int): int
    requires 0 <= a < |rk| && 0 <= b < |rk|
  {
    if rk[a] < rk[b] then b else a
  }

  function Loser(rk: seq<int>, a: int, b: int): int
    requires 0 <= a < |rk| && 0 <= b < |rk|
  {
    if rk[a] < rk[b] then a else b
  }

  /** The parent array after linking roots a and b (nothing when a == b). */
  function LinkParent(p: seq<int>, rk: seq<int>, a: int, b: int): seq<int>
    requires |p| == |rk| && 0 <= a < |rk| && 0 <= b < |rk|
  {
    if a == b then p else p[Loser(rk, a, b) := Winner(rk, a, b)]
  }

  /** The rank array after linking roots a and b: only a tie raises a's rank. */
  function LinkRank(rk: seq<int>, a: int, b: int): seq<int>
    requires 0 <= a < |rk| && 0 <= b < |rk|
  {
    if a != b && rk[a] == rk[b] then rk[a := rk[a] + 1] else rk
  }

  /** Linking keeps the rank invariant. */
  lemma LinkWellRanked(p: seq<int>, rk: seq<int>, a: int, b: int)
    requires WellRanked(p, rk) && 0 <= a < |p| && 0 <= b < |p| && p[a] == a && p[b] == b
    ensures WellRanked(LinkParent(p, rk, a, b), LinkRank(rk, a, b))
  {
  }

  /** After linking, a node's root is the winner when its old root was a or b, and
      its old root otherwise. */
  lemma {:induction false} LinkRoot(p: seq<int>, rk: seq<int>, a: int, b: int, x: int)
    requires WellRanked(p, rk) && 0 <= a < |p| && 0 <= b < |p| && p[a] == a && p[b] == b
    requires 0 <= x < |p|
    ensures WellRanked(LinkParent(p, rk, a, b), LinkRank(rk, a, b))
    ensures var r := Root(p, rk, x);
            Root(LinkParent(p, rk, a, b), LinkRank(rk, a, b), x)
              == if r == a || r == b then Winner(rk, a, b) else r
    decreases MaxRank(LinkRank(rk, a, b)) - LinkRank(rk, a, b)[x]
  {
    LinkWellRanked(p, rk, a, b);
    var q, rq := LinkParent(p, rk, a, b), LinkRank(rk, a, b);
    var w := Winner(rk, a, b);
    if p[x] != x {
      assert q[x] == p[x];
      LinkRoot(p, rk, a, b, p[x]);
    } else if q[x] != x {
      assert q[w] == w;
      assert Root(q, rq, w) == w;
    }
  }

  /** Linking two roots merges exactly their two sets and nothing else. */
  lemma LinkRoots(p: seq<int>, rk: seq<int>, a: int, b: int)
    requires WellRanked(p, rk) && 0 <= a < |p| && 0 <= b < |p| && p[a] == a && p[b] == b
    ensures WellRanked(LinkParent(p, rk, a, b), LinkRank(rk, a, b))
    ensures Roots(LinkParent(p, rk, a, b), LinkRank(rk, a, b))
              == Join(Roots(p, rk), a, b, Winner(rk, a, b))
  {
    LinkWellRanked(p, rk, a, b);
    forall x | 0 <= x < |p|
      ensures Root(LinkParent(p, rk, a, b), LinkRank(rk, a, b), x)
                == Join(Roots(p, rk), a, b, Winner(rk, a, b))[x]
    {
      LinkRoot(p, rk, a, b, x);
    }
  }

  /** The parent array after a whole union of u and v: find u, find v (each
      compressing or not), then link the two roots found. */
  ghost function UnionParent(p: seq<int>, rk: seq<int>, u: int, v: int, compress: bool): seq<int>
    requires WellRanked(p, rk) && 0 <= u < |p| && 0 <= v < |p|
  {
    var afterU := AfterFind(p, rk, u, compress);
    LinkParent(AfterFind(afterU, rk, v, compress), rk, Root(p, rk, u), Root(p, rk, v))
  }

  /** A union keeps the rank invariant and merges exactly the sets of u and v,
      under the root that wins by rank. */
  lemma UnionRoots(p: seq<int>, rk: seq<int>, u: int, v: int, compress: bool)
    requires WellRanked(p, rk) && 0 <= u < |p| && 0 <= v < |p|
    ensures var ru, rv := Root(p, rk, u), Root(p, rk, v);
            && WellRanked(UnionParent(p, rk, u, v, compress), LinkRank(rk, ru, rv))
            && Roots(UnionParent(p, rk, u, v, compress), LinkRank(rk, ru, rv))
                 == Join(Roots(p, rk), ru, rv, Winner(rk, ru, rv))
  {
    var ru, rv := Root(p, rk, u), Root(p, rk, v);
    var found := AfterFind(AfterFind(p, rk, u, compress), rk, v, compress);
    assert Roots(found, rk) == Roots(p, rk);
    assert Roots(found, rk)[u] == ru && Roots(found, rk)[v] == rv;
    LinkRoots(found, rk, ru, rv);
    if ru == rv {
      JoinSameSet(Roots(p, rk), ru);
    }
  }

  /** Linking never lowers a rank. */
  lemma LinkRankGrows(rk: seq<int>, a: int, b: int)
    requires 0 <= a < |rk| && 0 <= b < |rk|
    ensures |LinkRank(rk, a, b)| == |rk|
    ensures forall x :: 0 <= x < |rk| ==> rk[x] <= LinkRank(rk, a, b)[x]
  {
  }

  /** A union of two nodes already in one set links nothing: the ranks stay, and
      without compression so does the parent array. */
  lemma UnionSameSet(p: seq<int>, rk: seq<int>, u: int, v: int, compress: bool)
    requires WellRanked(p, rk) && 0 <= u < |p| && 0 <= v < |p|
    requires Root(p, rk, u) == Root(p, rk, v)
    ensures LinkRank(rk, Root(p, rk, u), Root(p, rk, v)) == rk
    ensures UnionParent(p, rk, u, v, compress)
              == AfterFind(AfterFind(p, rk, u, compress), rk, v, compress)
    ensures !compress ==> UnionParent(p, rk, u, v, compress) == p
  {
  }
}
