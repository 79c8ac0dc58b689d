/** The disjoint-set forest behind the maze: a parent pointer per node, as
    a map. A ghost rank that strictly increases from a node to its parent
    witnesses that the pointers form a forest, so that following them always
    ends at a root (a node that is its own parent). */
module UnionFind {

  /** Every parent is a node, and every pointer that is not a self-loop
      climbs in rank. */
  ghost predicate IsForest<T>(p: map<T, T>, rank: map<T, int>)
  {
    p.Keys == rank.Keys &&
    forall i {:trigger rank[p[i]]} :: i in p ==> p[i] in p && (p[i] != i ==> rank[i] < rank[p[i]])
  }

  /** The nodes ranked above k; it shrinks along every parent pointer. */
  ghost function Above<T>(rank: map<T, int>, k: int): set<T>
  {
    set j | j in rank && rank[j] > k
  }

  lemma AboveShrinks<T>(rank: map<T, int>, i: T, j: T)
    requires i in rank && j in rank && rank[i] < rank[j]
    ensures Above(rank, rank[j]) < Above(rank, rank[i])
  {
    assert j in Above(rank, rank[i]);
  }

  /** The parent of a node that is not a root is a node of higher rank. */
  lemma Up<T>(p: map<T, T>, rank: map<T, int>, i: T)
    requires IsForest(p, rank) && i in p && p[i] != i
    ensures p[i] in p && rank[i] < rank[p[i]]
    ensures Above(rank, rank[p[i]]) < Above(rank, rank[i])
  {
    AboveShrinks(rank, i, p[i]);
  }

  /** The root reached from node i by following parent pointers. It is
      total: outside a forest, or at a node that is not in it, the walk
      stops where the pointers stop climbing in rank. */
  ghost function Root<T>(p: map<T, T>, rank: map<T, int>, i: T): (r: T)
    ensures IsForest(p, rank) && i in p ==> r in p && p[r] == r && rank[i] <= rank[r]
    ensures IsForest(p, rank) && i in p && p[i] == i ==> r == i
    decreases if i in rank then Above(rank, rank[i]) else {}
  {
    if i in p && i in rank && p[i] != i && p[i] in rank && rank[i] < rank[p[i]] then
      AboveShrinks(rank, i, p[i]);
      Root(p, rank, p[i])
    else i
  }

  /** The roots: one per component. */
  ghost function Roots<T>(p: map<T, T>): set<T>
  {
    set r | r in p && p[r] == r
  }

  /** Forests p and q over the same nodes in which every node has the same
      root. */
  ghost predicate SameRoots<T>(p: map<T, T>, q: map<T, T>, rank: map<T, int>)
  {
    IsForest(p, rank) && IsForest(q, rank) && q.Keys == p.Keys &&
    forall j {:trigger Root(q, rank, j)} {:trigger Root(p, rank, j)} :: j in p ==> Root(q, rank, j) == Root(p, rank, j)
  }

  /** Forest q is forest p with the component of root a merged into the
      component of root b: the nodes that had root a have root b, and every
      other node keeps its root. */
  ghost predicate Merged<T>(p: map<T, T>, rp: map<T, int>, q: map<T, T>, rq: map<T, int>, a: T, b: T)
  {
    IsForest(p, rp) && IsForest(q, rq) && q.Keys == p.Keys &&
    forall j {:trigger Root(q, rq, j)} {:trigger Root(p, rp, j)} :: j in p ==> Root(q, rq, j) == if Root(p, rp, j) == a then b else Root(p, rp, j)
  }

  /** Path compression: pointing node x straight at its root keeps a forest
      and leaves the root of every node unchanged. */
  lemma {:induction false} CompressAt<T>(p: map<T, T>, rank: map<T, int>, x: T, j: T)
    requires IsForest(p, rank) && x in p && j in p
    ensures IsForest(p[x := Root(p, rank, x)], rank)
    ensures Root(p[x := Root(p, rank, x)], rank, j) == Root(p, rank, j)
    decreases Above(rank, rank[j])
  {
    var R := Root(p, rank, x);
    var q := p[x := R];
    CompressForest(p, rank, x);
    if j == x {
      if R != x {
        assert q[R] == R;
        assert Root(q, rank, x) == Root(q, rank, R);
      } else {
        assert q[x] == x;
      }
    } else if p[j] == j {
      assert q[j] == j;
    } else {
      Up(p, rank, j);
      CompressAt(p, rank, x, p[j]);
      assert q[j] == p[j];
      assert Root(q, rank, j) == Root(q, rank, p[j]);
      assert Root(p, rank, j) == Root(p, rank, p[j]);
    }
  }

  lemma CompressForest<T>(p: map<T, T>, rank: map<T, int>, x: T)
    requires IsForest(p, rank) && x in p
    ensures IsForest(p[x := Root(p, rank, x)], rank)
  {
    var R := Root(p, rank, x);
    var q := p[x := R];
    forall i | i in q
      ensures q[i] in q && (q[i] != i ==> rank[i] < rank[q[i]])
    {
      if i == x {
        if p[x] != x {
          assert Root(p, rank, x) == Root(p, rank, p[x]);
        }
      } else if p[i] != i {
        Up(p, rank, i);
      }
    }
  }

  /** Compressing the path of x keeps the root of every node. */
  lemma Compress<T>(p: map<T, T>, rank: map<T, int>, x: T)
    requires IsForest(p, rank) && x in p
    ensures SameRoots(p, p[x := Root(p, rank, x)], rank)
  {
    var R := Root(p, rank, x);
    var q := p[x := R];
    CompressForest(p, rank, x);
    forall j {:trigger Root(q, rank, j)} | j in p
      ensures Root(q, rank, j) == Root(p, rank, j)
    {
      CompressAt(p, rank, x, j);
    }
  }

  /** Forests in which every node has the same root have the same roots:
      a node that is not its own parent climbs in rank to its root, so it
      is not its own root. */
  lemma {:induction false} SameRootsRoots<T>(p: map<T, T>, q: map<T, T>, rank: map<T, int>)
    requires SameRoots(p, q, rank)
    ensures Roots(q) == Roots(p)
  {
    forall r | r in p
      ensures (q[r] == r) == (p[r] == r)
    {
      assert Root(q, rank, r) == Root(p, rank, r);
      if q[r] != r {
        assert Root(q, rank, r) == Root(q, rank, q[r]);
      }
      if p[r] != r {
        assert Root(p, rank, r) == Root(p, rank, p[r]);
      }
    }
  }

  /** The rank after root a is linked under root b. */
  ghost function LinkRank<T>(rank: map<T, int>, a: T, b: T): map<T, int>
    requires a in rank && b in rank
  {
    rank[b := if rank[a] + 1 > rank[b] then rank[a] + 1 else rank[b]]
  }

  /** Linking root a under a different root b keeps a forest and gives every
      node of a's component the root b. */
  lemma {:induction false} LinkAt<T>(p: map<T, T>, rank: map<T, int>, a: T, b: T, j: T)
    requires IsForest(p, rank) && a in p && b in p && j in p
    requires p[a] == a && p[b] == b && a != b
    ensures IsForest(p[a := b], LinkRank(rank, a, b))
    ensures Root(p[a := b], LinkRank(rank, a, b), j)
         == if Root(p, rank, j) == a then b else Root(p, rank, j)
    decreases Above(rank, rank[j])
  {
    var q, rk := p[a := b], LinkRank(rank, a, b);
    LinkForest(p, rank, a, b);
    if j == a {
      assert Root(q, rk, a) == Root(q, rk, b);
    } else if p[j] != j {
      Up(p, rank, j);
      LinkAt(p, rank, a, b, p[j]);
      assert Root(q, rk, j) == Root(q, rk, p[j]);
    }
  }

  lemma LinkForest<T>(p: map<T, T>, rank: map<T, int>, a: T, b: T)
    requires IsForest(p, rank) && a in p && b in p
    requires p[a] == a && p[b] == b && a != b
    ensures IsForest(p[a := b], LinkRank(rank, a, b))
  {
    var q, rk := p[a := b], LinkRank(rank, a, b);
    forall i | i in q
      ensures q[i] in q && (q[i] != i ==> rk[i] < rk[q[i]])
    {
      if i != a && q[i] != i {
        Up(p, rank, i);
        assert rk[i] == rank[i] && rank[p[i]] <= rk[p[i]];
      }
    }
  }

  /** Linking root a under a different root b merges a's component into
      b's and removes exactly the root a. */
  lemma Link<T>(p: map<T, T>, rank: map<T, int>, a: T, b: T)
    requires IsForest(p, rank) && a in p && b in p
    requires p[a] == a && p[b] == b && a != b
    ensures Merged(p, rank, p[a := b], LinkRank(rank, a, b), a, b)
    ensures Roots(p[a := b]) == Roots(p) - {a}
  {
    var q, rk := p[a := b], LinkRank(rank, a, b);
    LinkForest(p, rank, a, b);
    forall j {:trigger Root(q, rk, j)} | j in p
      ensures Root(q, rk, j) == if Root(p, rank, j) == a then b else Root(p, rank, j)
    {
      LinkAt(p, rank, a, b, j);
    }
  }

  /** Linking a root under itself changes nothing. */
  lemma SelfLink<T>(p: map<T, T>, a: T)
    requires a in p && p[a] == a
    ensures p[a := a] == p
  {
  }

  lemma SameRootsRefl<T>(p: map<T, T>, rank: map<T, int>)
    requires IsForest(p, rank)
    ensures SameRoots(p, p, rank)
  {
  }

  lemma {:induction false} SameRootsTrans<T>(p: map<T, T>, q: map<T, T>, s: map<T, T>, rank: map<T, int>)
    requires SameRoots(p, q, rank) && SameRoots(q, s, rank)
    ensures SameRoots(p, s, rank)
  {
    forall j {:trigger Root(s, rank, j)} | j in p
      ensures Root(s, rank, j) == Root(p, rank, j)
    {
      assert Root(s, rank, j) == Root(q, rank, j);
    }
  }

  /** A merge that follows a change keeping all roots is a merge of the
      original forest. */
  lemma {:induction false} SameThenMerged<T>(p: map<T, T>, q: map<T, T>, rank: map<T, int>,
                                              s: map<T, T>, rs: map<T, int>, a: T, b: T)
    requires SameRoots(p, q, rank) && Merged(q, rank, s, rs, a, b)
    ensures Merged(p, rank, s, rs, a, b)
  {
    forall j {:trigger Root(s, rs, j)} | j in p
      ensures Root(s, rs, j) == if Root(p, rank, j) == a then b else Root(p, rank, j)
    {
      assert Root(q, rank, j) == Root(p, rank, j);
    }
  }

  /** Merging a component into itself is no change. */
  lemma {:induction false} MergedSelf<T>(p: map<T, T>, q: map<T, T>, rank: map<T, int>, a: T)
    requires SameRoots(p, q, rank)
    ensures Merged(p, rank, q, rank, a, a)
  {
    forall j {:trigger Root(q, rank, j)} | j in p
      ensures Root(q, rank, j) == if Root(p, rank, j) == a then a else Root(p, rank, j)
    {
      assert Root(q, rank, j) == Root(p, rank, j);
    }
  }

  /** When every node is its own parent, every node is a root. */
  lemma {:induction false} IdentityRoots<T>(p: map<T, T>)
    requires forall j :: j in p ==> p[j] == j
    ensures Roots(p) == p.Keys
  {
    forall v | v in p.Keys ensures v in Roots(p) {
      assert p[v] == v;
    }
  }

  /** When every node has the root of node z, that root is the only root. */
  lemma {:induction false} SingleRoot<T>(p: map<T, T>, rank: map<T, int>, z: T)
    requires IsForest(p, rank) && z in p
    requires forall j {:trigger Root(p, rank, j)} :: j in p ==> Root(p, rank, j) == Root(p, rank, z)
    ensures Roots(p) == {Root(p, rank, z)}
  {
    forall r | r in Roots(p) ensures r == Root(p, rank, z) {
      assert Root(p, rank, r) == r;
    }
  }
}
