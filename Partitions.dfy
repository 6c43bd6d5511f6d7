/** Partitions of the nodes [0, n) given by labellings: two nodes are in the same
    set exactly when they carry the same label. The union-find forest (its roots)
    and the component labelling of an edge list are both such labellings. */
module Partitions {

  /** n singletons: node i carries label i. */
  function Identity(n: nat): (lab: seq<int>)
    ensures |lab| == n
    ensures forall i :: 0 <= i < n ==> lab[i] == i
  {
    seq(n, i => i)
  }

  /** Merges the sets labelled x and y into one labelled w. */
  function Join(a: seq<int>, x: int, y: int, w: int): (b: seq<int>)
    ensures |b| == |a|
    ensures forall i :: 0 <= i < |a| ==> b[i] == if a[i] == x || a[i] == y then w else a[i]
  {
    seq(|a|, i requires 0 <= i < |a| => if a[i] == x || a[i] == y then w else a[i])
  }

  /** a and b describe the same partition. */
  ghost predicate SamePartition(a: seq<int>, b: seq<int>) {
    && |a| == |b|
    && forall i, j :: 0 <= i < |a| && 0 <= j < |a| ==> (a[i] == a[j] <==> b[i] == b[j])
  }

  /** The labels in use: one per set of the partition. */
  ghost function Classes(a: seq<int>): set<int> {
    set i | 0 <= i < |a| :: a[i]
  }

  /** Merging the sets of u and v in two labellings of the same partition gives two
      labellings of the same partition, whichever of the two labels survives. */
  lemma JoinRespectsPartition(a: seq<int>, b: seq<int>, u: int, v: int, wa: int, wb: int)
    requires SamePartition(a, b)
    requires 0 <= u < |a| && 0 <= v < |a|
    requires wa == a[u] || wa == a[v]
    requires wb == b[u] || wb == b[v]
    ensures SamePartition(Join(a, a[u], a[v], wa), Join(b, b[u], b[v], wb))
  {
    var ja, jb := Join(a, a[u], a[v], wa), Join(b, b[u], b[v], wb);
    forall i, j | 0 <= i < |a| && 0 <= j < |a|
      ensures ja[i] == ja[j] <==> jb[i] == jb[j]
    {
      assert a[i] == a[u] <==> b[i] == b[u];
      assert a[i] == a[v] <==> b[i] == b[v];
      assert a[j] == a[u] <==> b[j] == b[u];
      assert a[j] == a[v] <==> b[j] == b[v];
      assert a[i] == a[j] <==> b[i] == b[j];
    }
  }

  /** Merging a set with itself changes nothing. */
  lemma JoinSameSet(a: seq<int>, c: int)
    ensures Join(a, c, c, c) == a
  {
  }

  /** Merging two different sets removes exactly one label. */
  lemma JoinClasses(a: seq<int>, u: int, v: int)
    requires 0 <= u < |a| && 0 <= v < |a| && a[u] != a[v]
    ensures Classes(Join(a, a[u], a[v], a[u])) == Classes(a) - {a[v]}
    ensures |Classes(Join(a, a[u], a[v], a[u]))| == |Classes(a)| - 1
  {
    var j := Join(a, a[u], a[v], a[u]);
    forall c | c in Classes(a) - {a[v]}
      ensures c in Classes(j)
    {
      var i :| 0 <= i < |a| && a[i] == c;
      assert j[i] == c;
    }
    forall c | c in Classes(j)
      ensures c in Classes(a) - {a[v]}
    {
      var i :| 0 <= i < |j| && j[i] == c;
      if a[i] == a[v] {
        assert c == a[u];
        assert a[u] in Classes(a);
      } else {
        assert c == a[i];
      }
    }
    assert Classes(j) == Classes(a) - {a[v]};
    assert a[v] in Classes(a);
  }

  /** The singleton partition of n nodes has n sets. */
  lemma {:induction false} IdentityClasses(n: nat)
    ensures |Classes(Identity(n))| == n
  {
    if n == 0 {
      assert Classes(Identity(n)) == {};
    } else {
      var big, small := Identity(n), Identity(n - 1);
      forall c | c in Classes(big)
        ensures c in Classes(small) + {n - 1}
      {
        var i :| 0 <= i < n && big[i] == c;
        if i < n - 1 {
          assert small[i] == c;
        }
      }
      forall c | c in Classes(small) + {n - 1}
        ensures c in Classes(big)
      {
        if c == n - 1 {
          assert big[n - 1] == c;
        } else {
          var i :| 0 <= i < n - 1 && small[i] == c;
          assert big[i] == c;
        }
      }
      assert Classes(big) == Classes(small) + {n - 1};
      IdentityClasses(n - 1);
      assert n - 1 !in Classes(small);
    }
  }
}
