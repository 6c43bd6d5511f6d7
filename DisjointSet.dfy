/** The disjoint-set classes of kruskal.h (DisjointSetNoCompression and
    DisjointSetWithCompression), first.cpp (UnionFindSimple, UnionFindCompressed
    with their free functions) and tests.cpp (the same two structs with member
    functions). All four copies hold a parent and a rank array and differ only in
    whether find compresses paths, so one class with a `compress` flag stands for
    all of them. */
module DisjointSets {
  import opened Exceptions
  import opened Partitions
  import opened ParentForest
  import Vector

  class DisjointSet {
    const parent: array<int>
    const rank: array<int>
    const compress: bool

    /** The two arrays are distinct and form a well-ranked forest. */
    ghost predicate Valid()
      reads parent, rank
    {
      parent != rank && WellRanked(parent[..], rank[..])
    }

    /** A node of this structure; any other index makes TVector::operator[] throw. */
    predicate IsNode(x: int) {
      0 <= x < parent.Length
    }

    ghost function Root(x: int): (r: int)
      reads parent, rank
      requires Valid() && IsNode(x)
    {
      ParentForest.Root(parent[..], rank[..], x)
    }

    /** The root of every node: the partition this structure stands for. */
    ghost function Roots(): seq<int>
      reads parent, rank
      requires Valid()
    {
      ParentForest.Roots(parent[..], rank[..])
    }

    /** The constructor body: parent[i] = i and rank[i] = 0, n singletons. */
    constructor Init(n: int, compress: bool)
      requires Vector.ValidSize(n)
      ensures Valid() && fresh(parent) && fresh(rank) && this.compress == compress
      ensures parent[..] == Identity(n)
      ensures rank.Length == n && forall i :: 0 <= i < n ==> rank[i] == 0
      ensures Roots() == Identity(n)
    {
      this.compress := compress;
      parent := new int[n];
      rank := new int[n](_ => 0);
      new;
      for i := 0 to n
        invariant forall k :: 0 <= k < i ==> parent[k] == k
        invariant forall k :: 0 <= k < n ==> rank[k] == 0
      {
        parent[i] := i;
      }
      assert parent[..] == Identity(n);
      assert WellRanked(parent[..], rank[..]);
      assert Roots() == Identity(n);
    }

    /** The constructor as called: the two TVector<int> members throw length_error
        for a size that is zero, negative or above MAX_VECTOR_SIZE. */
    static method Make(n: int, compress: bool) returns (r: Result<DisjointSet>)
      ensures r.Failure? <==> !Vector.ValidSize(n)
      ensures r.Failure? ==> r.error == LengthError
      ensures r.Success? ==> fresh(r.value) && fresh(r.value.parent) && fresh(r.value.rank)
      ensures r.Success? ==> r.value.Valid() && r.value.compress == compress
      ensures r.Success? ==> r.value.parent[..] == Identity(n) && r.value.Roots() == Identity(n)
      ensures r.Success? ==>
                r.value.rank.Length == n && forall i :: 0 <= i < n ==> r.value.rank[i] == 0
    {
      if !Vector.ValidSize(n) {
        return Failure(LengthError);
      }
      var ds := new DisjointSet.Init(n, compress);
      return Success(ds);
    }

    /** The non-compressing find (kruskal.h, FindSimple, UnionFindSimple::Find):
        follows parent links to the root and changes nothing. */
    method FindWalk(x: int) returns (r: int)
      requires Valid() && IsNode(x)
      ensures IsNode(r) && parent[r] == r
      ensures r == Root(x)
    {
      var u := x;
      while u != parent[u]
        invariant IsNode(u)
        invariant Root(u) == Root(x)
        decreases MaxRank(rank[..]) - rank[u]
      {
        u := parent[u];
      }
      r := u;
    }

    /** The compressing find (kruskal.h, FindCompressed, UnionFindCompressed::Find):
        recursively finds the root and points every node on the way straight at
        it. The root is the one the plain walk finds, and no node changes root. */
    method FindCompress(x: int) returns (r: int)
      requires Valid() && IsNode(x)
      modifies parent
      ensures Valid()
      ensures r == old(Root(x)) && parent[x] == r
      ensures parent[..] == Compress(old(parent[..]), rank[..], x)
      ensures Roots() == old(Roots())
      decreases MaxRank(rank[..]) - rank[x]
    {
      ghost var p0, rk := parent[..], rank[..];
      if x != parent[x] {
        var root := FindCompress(parent[x]);
        parent[x] := root;
        CompressStep(p0, rk, x);
      }
      r := parent[x];
    }

    /** find on a node, by the variant this structure was built as. */
    method FindRoot(x: int) returns (r: int)
      requires Valid() && IsNode(x)
      modifies parent
      ensures Valid()
      ensures r == old(Root(x)) && parent[r] == r
      ensures parent[..] == AfterFind(old(parent[..]), rank[..], x, compress)
      ensures Roots() == old(Roots())
    {
      if compress {
        r := FindCompress(x);
      } else {
        r := FindWalk(x);
      }
    }

    /** find as called with any int: out_of_range for a non-node. */
    method Find(x: int) returns (r: Result<int>)
      requires Valid()
      modifies parent
      ensures Valid()
      ensures r.Failure? <==> !IsNode(x)
      ensures r.Failure? ==> r.error == OutOfRange && parent[..] == old(parent[..])
      ensures r.Success? ==> r.value == old(Root(x))
      ensures r.Success? ==> parent[..] == AfterFind(old(parent[..]), rank[..], x, compress)
      ensures Roots() == old(Roots())
    {
      if !IsNode(x) {
        return Failure(OutOfRange);
      }
      var root := FindRoot(x);
      return Success(root);
    }

    /** The linking part of union_sets: nothing when the two roots coincide,
        otherwise the root of smaller rank goes under the other, and on a tie rv
        goes under ru, whose rank grows by one. */
    method Link(ru: int, rv: int)
      requires parent != rank && IsNode(ru) && IsNode(rv) && rank.Length == parent.Length
      modifies parent, rank
      ensures parent[..] == LinkParent(old(parent[..]), old(rank[..]), ru, rv)
      ensures rank[..] == LinkRank(old(rank[..]), ru, rv)
    {
      if ru != rv {
        if rank[ru] < rank[rv] {
          parent[ru] := rv;
        } else if rank[ru] > rank[rv] {
          parent[rv] := ru;
        } else {
          parent[rv] := ru;
          rank[ru] := rank[ru] + 1;
        }
      }
    }

    /** union_sets / UniteSimple / UniteCompressed / Unite: finds both roots (u
        first), does nothing more when they coincide, and otherwise links them by
        rank. Afterwards u and v have the same root, their two sets are merged,
        and every other set is as it was. */
    method Union(u: int, v: int) returns (r: Outcome)
      requires Valid()
      modifies parent, rank
      ensures Valid()
      ensures r == if IsNode(u) && IsNode(v) then Pass else Fail(OutOfRange)
      ensures !IsNode(u) ==> parent[..] == old(parent[..]) && rank[..] == old(rank[..])
      ensures IsNode(u) && !IsNode(v) ==>
                && rank[..] == old(rank[..])
                && parent[..] == AfterFind(old(parent[..]), old(rank[..]), u, compress)
      ensures r.Fail? ==> Roots() == old(Roots())
      ensures r.Pass? ==>
                var ru, rv := old(Root(u)), old(Root(v));
                && rank[..] == LinkRank(old(rank[..]), ru, rv)
                && parent[..] == UnionParent(old(parent[..]), old(rank[..]), u, v, compress)
                && Roots() == Join(old(Roots()), ru, rv, Winner(old(rank[..]), ru, rv))
      ensures r.Pass? ==> Root(u) == Root(v)
    {
      ghost var p0, rk := parent[..], rank[..];
      if !IsNode(u) {
        return Fail(OutOfRange);
      }
      var ru := FindRoot(u);
      if !IsNode(v) {
        return Fail(OutOfRange);
      }
      ghost var pu := parent[..];
      var rv := FindRoot(v);
      ghost var p1 := parent[..];
      assert p1 == AfterFind(pu, rk, v, compress);
      assert ru == ParentForest.Root(p0, rk, u);
      assert rv == ParentForest.Root(p0, rk, v) by {
        assert ParentForest.Roots(pu, rk) == ParentForest.Roots(p0, rk);
      }
      assert p1 == AfterFind(AfterFind(p0, rk, u, compress), rk, v, compress);
      Link(ru, rv);
      ghost var p2, rk2 := parent[..], rank[..];
      assert p2 == UnionParent(p0, rk, u, v, compress);
      assert rk2 == LinkRank(rk, ru, rv);
      UnionRoots(p0, rk, u, v, compress);
      assert Roots() == Join(ParentForest.Roots(p0, rk), ru, rv, Winner(rk, ru, rv));
      return Pass;
    }
  }
}
