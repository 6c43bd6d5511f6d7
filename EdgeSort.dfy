/** The weighted edge of the three Kruskal programs and the two ways they order
    an edge list by weight: the hand-written bubble sort of first.cpp and the
    std::sort calls of kruskal.h and tests.cpp. */
module EdgeSort {
  import opened Exceptions
  import opened Vector

  /** An undirected edge between nodes u and v. */
  datatype Edge = Edge(u: int, v: int, weight: int)

  /** The value of Edge() in kruskal.h, whose constructor defaults every field
      to 0; it is what a default-sized TVector<Edge> holds there. */
  const DefaultEdge: Edge := Edge(0, 0, 0)

  /** The edges kruskal.h's loop skips: a self-loop of weight zero. */
  predicate IsDefaultEdge(e: Edge) {
    e.u == e.v && e.weight == 0
  }

  predicate SortedByWeight(s: seq<Edge>) {
    forall i, j :: 0 <= i < j < |s| ==> s[i].weight <= s[j].weight
  }

  /** The edges of s that have weight w, in their order in s. A sort is stable
      when it keeps this sequence for every w. */
  function WithWeight(s: seq<Edge>, w: int): (r: seq<Edge>)
    ensures |r| <= |s|
    ensures forall e :: e in r <==> e in s && e.weight == w
  {
    if |s| == 0 then []
    else WithWeight(s[..|s| - 1], w) + (if s[|s| - 1].weight == w then [s[|s| - 1]] else [])
  }

  lemma {:induction false} WithWeightConcat(s: seq<Edge>, t: seq<Edge>, w: int)
    ensures WithWeight(s + t, w) == WithWeight(s, w) + WithWeight(t, w)
    decreases |t|
  {
    if |t| == 0 {
      assert s + t == s;
    } else {
      assert (s + t)[..|s + t| - 1] == s + t[..|t| - 1];
      WithWeightConcat(s, t[..|t| - 1], w);
    }
  }

  lemma PairWithWeight(x: Edge, y: Edge, w: int)
    ensures WithWeight([x, y], w)
              == (if x.weight == w then [x] else []) + (if y.weight == w then [y] else [])
  {
    assert [x, y][..1] == [x];
    assert [x][..0] == [];
  }

  /** a with its neighbours j and j+1 exchanged. */
  function Swapped(a: seq<Edge>, j: int): (t: seq<Edge>)
    requires 0 <= j && j + 1 < |a|
    ensures |t| == |a| && t[j] == a[j + 1] && t[j + 1] == a[j]
    ensures forall k :: 0 <= k < |a| && k != j && k != j + 1 ==> t[k] == a[k]
  {
    a[j := a[j + 1]][j + 1 := a[j]]
  }

  /** Exchanging two neighbours of different weight leaves the edges of every
      single weight in their order. */
  lemma SwapKeepsWeightOrder(s: seq<Edge>, j: int, w: int)
    requires 0 <= j && j + 1 < |s| && s[j].weight != s[j + 1].weight
    ensures WithWeight(Swapped(s, j), w) == WithWeight(s, w)
  {
    var p, q, x, y := s[..j], s[j + 2..], s[j], s[j + 1];
    assert s == (p + [x, y]) + q;
    assert Swapped(s, j) == (p + [y, x]) + q;
    WithWeightConcat(p + [x, y], q, w);
    WithWeightConcat(p, [x, y], w);
    WithWeightConcat(p + [y, x], q, w);
    WithWeightConcat(p, [y, x], w);
    PairWithWeight(x, y, w);
    PairWithWeight(y, x, w);
    assert WithWeight([x, y], w) == WithWeight([y, x], w);
    calc {
      WithWeight(Swapped(s, j), w);
      WithWeight(p + [y, x], w) + WithWeight(q, w);
      WithWeight(p, w) + WithWeight([x, y], w) + WithWeight(q, w);
      WithWeight(p + [x, y], w) + WithWeight(q, w);
      WithWeight(s, w);
    }
  }

  /** a is sorted from index lo to index hi, and nothing before lo is heavier
      than anything from lo on: the state bubble sort builds from the back. */
  ghost predicate SortedTail(a: seq<Edge>, lo: int, hi: int)
    requires 0 <= lo <= hi <= |a|
  {
    && (forall i, j :: lo <= i < j < hi ==> a[i].weight <= a[j].weight)
    && (forall i, j :: 0 <= i < lo <= j < hi ==> a[i].weight <= a[j].weight)
  }

  /** a is a reordering of b that keeps the order of equal-weight edges. */
  ghost predicate StablePermutation(a: seq<Edge>, b: seq<Edge>) {
    && multiset(a) == multiset(b)
    && forall w :: WithWeight(a, w) == WithWeight(b, w)
  }

  /** The swap of bubble sort's inner loop, on the elements below the size. */
  lemma SwapStable(a: seq<Edge>, b: seq<Edge>, j: int)
    requires StablePermutation(a, b)
    requires 0 <= j && j + 1 < |a| && a[j].weight > a[j + 1].weight
    ensures StablePermutation(Swapped(a, j), b)
  {
    var t := Swapped(a, j);
    forall w
      ensures WithWeight(t, w) == WithWeight(b, w)
    {
      SwapKeepsWeightOrder(a, j, w);
    }
  }

  /** The inner loop's state at index j, for a pass that started from a0: the
      sorted tail from n-i on, a[j] the heaviest of a[0..j], the first n
      elements a stable reordering of a0's, and nothing from n on touched. */
  ghost predicate PassState(a: seq<Edge>, a0: seq<Edge>, n: int, i: int, j: int)
    requires 0 <= i < n <= |a| && 0 <= j < n - i && |a0| == |a|
  {
    && SortedTail(a[..n], n - i, n)
    && (forall k :: 0 <= k < j ==> a[k].weight <= a[j].weight)
    && StablePermutation(a[..n], a0[..n])
    && a[n..] == a0[n..]
  }

  /** One step of the inner loop, with or without the exchange, moves the
      heaviest-so-far one index on and keeps the rest of the state. */
  lemma PassStep(a: seq<Edge>, a0: seq<Edge>, n: int, i: int, j: int)
    requires 0 <= i < n <= |a| && 0 <= j && j + 1 < n - i && |a0| == |a|
    requires PassState(a, a0, n, i, j)
    ensures a[j].weight > a[j + 1].weight ==> PassState(Swapped(a, j), a0, n, i, j + 1)
    ensures a[j].weight <= a[j + 1].weight ==> PassState(a, a0, n, i, j + 1)
  {
    if a[j].weight > a[j + 1].weight {
      var t := Swapped(a, j);
      assert t[..n] == Swapped(a[..n], j);
      assert t[n..] == a[n..];
      SwapStable(a[..n], a0[..n], j);
    }
  }

  /** The end of a pass: the sorted tail has grown by one. */
  lemma PassDone(a: seq<Edge>, a0: seq<Edge>, n: int, i: int)
    requires 0 <= i < n <= |a| && |a0| == |a|
    requires PassState(a, a0, n, i, n - i - 1)
    ensures SortedTail(a[..n], n - i - 1, n)
  {
  }

  /** One pass of BubbleSort's outer loop: carries the heaviest of a[0..n-i)
      to index n-i-1, growing the sorted tail by one. */
  method BubblePass(a: array<Edge>, n: int, i: int)
    requires 0 <= i < n <= a.Length
    requires SortedTail(a[..n], n - i, n)
    modifies a
    ensures SortedTail(a[..n], n - i - 1, n)
    ensures StablePermutation(a[..n], old(a[..n]))
    ensures a[n..] == old(a[n..])
  {
    ghost var a0 := a[..];
    for j := 0 to n - i - 1
      invariant PassState(a[..], a0, n, i, j)
    {
      ghost var before := a[..];
      PassStep(before, a0, n, i, j);
      if a[j].weight > a[j + 1].weight {
        a[j], a[j + 1] := a[j + 1], a[j];
        assert a[..] == Swapped(before, j);
      }
    }
    PassDone(a[..], a0, n, i);
  }

  lemma StablePermutationTransitive(a: seq<Edge>, b: seq<Edge>, c: seq<Edge>)
    requires StablePermutation(a, b) && StablePermutation(b, c)
    ensures StablePermutation(a, c)
  {
  }

  /** BubbleSort (first.cpp): passes i = 0 .. n-2, each exchanging neighbours j,
      j+1 for j < n-i-1 when the left one is strictly heavier. Its bound n - 1 is
      an unsigned size_t, so on an empty vector it wraps around and the first
      edges[0] throws out_of_range before anything changes. Otherwise the
      elements end sorted by weight, as a permutation that keeps edges of equal
      weight in their order. */
  method BubbleSort(edges: TVector<Edge>) returns (r: Outcome)
    requires edges.Valid()
    modifies edges.data
    ensures edges.Valid()
    ensures r == if edges.size == 0 then Fail(OutOfRange) else Pass
    ensures r.Fail? ==> edges.Contents() == old(edges.Contents())
    ensures SortedByWeight(edges.Contents())
    ensures StablePermutation(edges.Contents(), old(edges.Contents()))
    ensures edges.data[edges.size..] == old(edges.data[edges.size..])
  {
    var n := edges.size;
    if n == 0 {
      return Fail(OutOfRange);
    }
    var a := edges.data;
    ghost var start := a[..n];
    for i := 0 to n - 1
      invariant SortedTail(a[..n], n - i, n)
      invariant StablePermutation(a[..n], start)
      invariant a[n..] == old(a[n..])
    {
      ghost var before := a[..n];
      BubblePass(a, n, i);
      StablePermutationTransitive(a[..n], before, start);
    }
    return Pass;
  }

  /** std::sort by weight (kruskal.h's operator<, tests.cpp's comparator). The
      standard only promises a sorted permutation, and that is all this stand-in
      states; how it arranges equal weights is left open. */
  method SortEdges(edges: TVector<Edge>)
    requires edges.Valid()
    modifies edges.data
    ensures edges.Valid()
    ensures SortedByWeight(edges.Contents())
    ensures multiset(edges.Contents()) == multiset(old(edges.Contents()))
  {
    if edges.size > 0 {
      var _ := BubbleSort(edges);
    }
  }
}
