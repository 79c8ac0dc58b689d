/** The maze builder: an n-by-n grid of cells, each with its coordinates,
    four wall flags, an open flag and a union-find parent, and the randomised
    merge loop that knocks out walls until all cells form one component. The
    random choices of the cell and of the neighbour offset are supplied by
    the caller as a sequence of proposals. */
module MazeGenerate {
  import opened Grid
  import opened Walks
  import UF = UnionFind

  /** One round of the loop's random choices: the cell in row `row` and
      column `col`, and the index `dir` of the neighbour offset chosen for it
      (North, East, South, West). */
  datatype Proposal = Proposal(row: nat, col: nat, dir: nat)

  predicate ValidProposal(n: nat, p: Proposal)
  {
    p.row < n && p.col < n && p.dir < 4
  }

  /** Parent pointers p for exactly the cells of the n-by-n grid, forming a
      forest ranked by rank. */
  ghost predicate GridForest(n: nat, p: map<Coord, Coord>, rank: map<Coord, int>)
  {
    p.Keys == Cells(n) && UF.IsForest(p, rank)
  }

  /** Every edge is a pair of adjacent cells of the n-by-n grid. */
  ghost predicate GridEdges(n: nat, E: set<(Coord, Coord)>)
  {
    forall e {:trigger e in E} :: e in E ==> IsGridEdge(n, e)
  }

  /** The two cells of every edge have the same root in the forest p. */
  ghost predicate EdgesJoin(p: map<Coord, Coord>, rank: map<Coord, int>, E: set<(Coord, Coord)>)
  {
    UF.IsForest(p, rank) &&
    forall e {:trigger e in E} :: e in E ==> e.0 in p && e.1 in p && UF.Root(p, rank, e.0) == UF.Root(p, rank, e.1)
  }

  /** Every cell of the forest p has, in W, a walk through E to its root. */
  ghost predicate WalksToRoot(p: map<Coord, Coord>, rank: map<Coord, int>,
                              E: set<(Coord, Coord)>, W: map<Coord, seq<Coord>>)
  {
    UF.IsForest(p, rank) && W.Keys == p.Keys &&
    forall c {:trigger UF.Root(p, rank, c)} :: c in W ==> IsWalk(E, W[c], c, UF.Root(p, rank, c))
  }

  /** What the merge loop keeps about the knocked-out edges E and the walks
      W over the forest p: every edge joins two adjacent cells with one root,
      every cell has a walk through E to its root, and since each merge adds
      one edge and removes one root, edges and roots together number the
      cells. */
  ghost predicate Spanning(n: nat, p: map<Coord, Coord>, rank: map<Coord, int>,
                           E: set<(Coord, Coord)>, W: map<Coord, seq<Coord>>)
  {
    GridForest(n, p, rank) && GridEdges(n, E) && EdgesJoin(p, rank, E) && WalksToRoot(p, rank, E, W) &&
    |E| + |UF.Roots(p)| == |Cells(n)|
  }

  /** Every cell of the forest p has the root of cell (0, 0). */
  ghost predicate Joined(p: map<Coord, Coord>, rank: map<Coord, int>)
  {
    forall c {:trigger UF.Root(p, rank, c)} :: c in p ==> UF.Root(p, rank, c) == UF.Root(p, rank, Coord(0, 0))
  }

  /** Forests with the same roots are joined alike. */
  lemma JoinedSame(p: map<Coord, Coord>, q: map<Coord, Coord>, rank: map<Coord, int>)
    requires UF.SameRoots(p, q, rank) && Coord(0, 0) in p
    ensures Joined(p, rank) <==> Joined(q, rank)
  {
  }

  /** Side d of the cell in row y and column x lies on the outer boundary
      of the n-by-n grid. */
  predicate OnBoundary(n: nat, y: int, x: int, d: nat)
  {
    (y == 0 && d == NORTH) || (y == n - 1 && d == SOUTH) ||
    (x == 0 && d == WEST) || (x == n - 1 && d == EAST)
  }

  /** Side f of cell z is knocked out by removing the wall between c and
      nb: it is the side of c facing nb, or the side of nb facing back. */
  ghost predicate Knocked(c: Coord, nb: Coord, z: Coord, f: nat)
  {
    Side(c, nb) < 4 &&
    ((z == c && f == Side(c, nb)) || (z == nb && f == Opposite(Side(c, nb))))
  }

  /** Some choice of walks satisfies the invariant: the edges E join every
      cell of the forest p to its root, and edges and roots together
      number the cells. */
  ghost predicate Spans(n: nat, p: map<Coord, Coord>, rank: map<Coord, int>, E: set<(Coord, Coord)>)
  {
    exists W {:trigger Spanning(n, p, rank, E, W)} :: Spanning(n, p, rank, E, W)
  }

  /** The walks after the component of c has been merged into that of its
      neighbour nb: each cell of c's component walks to its old root, back
      to c, across the new edge and on along nb's walk. */
  ghost function Rewalk(p: map<Coord, Coord>, rank: map<Coord, int>, W: map<Coord, seq<Coord>>,
                        c: Coord, nb: Coord): (V: map<Coord, seq<Coord>>)
    requires c in W && nb in W && |W[c]| >= 1
    ensures V.Keys == W.Keys
  {
    map j {:trigger UF.Root(p, rank, j)} | j in W ::
      if UF.Root(p, rank, j) == UF.Root(p, rank, c) then (W[j] + Reverse(W[c])[1..]) + W[nb] else W[j]
  }

  /** Changing the parent pointers without changing any root keeps the
      invariant. */
  lemma SpanningSame(n: nat, p: map<Coord, Coord>, q: map<Coord, Coord>, rank: map<Coord, int>,
                     E: set<(Coord, Coord)>, W: map<Coord, seq<Coord>>)
    requires Spanning(n, p, rank, E, W) && UF.SameRoots(p, q, rank)
    ensures Spanning(n, q, rank, E, W)
  {
    UF.SameRootsRoots(p, q, rank);
    forall e | e in E
      ensures UF.Root(q, rank, e.0) == UF.Root(q, rank, e.1)
    {
      assert UF.Root(p, rank, e.0) == UF.Root(p, rank, e.1);
    }
    forall c | c in W
      ensures IsWalk(E, W[c], c, UF.Root(q, rank, c))
    {
      assert IsWalk(E, W[c], c, UF.Root(p, rank, c));
    }
  }

  /** After a merge of root a into root b, the old edges still join cells
      with one root, and so does a new edge from a cell with root a to a
      cell with root b; that edge was not there before. */
  lemma {:induction false} MergeEdges(p: map<Coord, Coord>, rank: map<Coord, int>, E: set<(Coord, Coord)>,
                                      q: map<Coord, Coord>, rq: map<Coord, int>, c: Coord, nb: Coord)
    requires EdgesJoin(p, rank, E) && c in p && nb in p
    requires UF.Root(p, rank, c) != UF.Root(p, rank, nb)
    requires UF.Merged(p, rank, q, rq, UF.Root(p, rank, c), UF.Root(p, rank, nb))
    ensures Pair(c, nb) !in E
    ensures EdgesJoin(q, rq, E + {Pair(c, nb)})
  {
    var e := Pair(c, nb);
    assert (e.0 == c && e.1 == nb) || (e.0 == nb && e.1 == c);
    assert UF.Root(p, rank, e.0) != UF.Root(p, rank, e.1);
    assert UF.Root(q, rq, c) == UF.Root(q, rq, nb);
    forall f | f in E
      ensures UF.Root(q, rq, f.0) == UF.Root(q, rq, f.1)
    {
      assert UF.Root(p, rank, f.0) == UF.Root(p, rank, f.1);
    }
  }

  /** After the merge of root a = Root(c) into root b = Root(nb), with the
      edge from c to nb added, the new walks lead every cell to its new
      root. */
  lemma {:induction false} MergeWalks(p: map<Coord, Coord>, rank: map<Coord, int>,
                                      E: set<(Coord, Coord)>, W: map<Coord, seq<Coord>>,
                                      q: map<Coord, Coord>, rq: map<Coord, int>, c: Coord, nb: Coord)
    requires WalksToRoot(p, rank, E, W) && c in p && nb in p
    requires UF.Merged(p, rank, q, rq, UF.Root(p, rank, c), UF.Root(p, rank, nb))
    ensures WalksToRoot(q, rq, E + {Pair(c, nb)}, Rewalk(p, rank, W, c, nb))
  {
    assert IsWalk(E, W[c], c, UF.Root(p, rank, c));
    forall j {:trigger UF.Root(q, rq, j)} | j in p
      ensures IsWalk(E + {Pair(c, nb)}, Rewalk(p, rank, W, c, nb)[j], j, UF.Root(q, rq, j))
    {
      MergeWalkAt(p, rank, E, W, q, rq, c, nb, j);
    }
  }

  /** The new walk of one cell j leads to its new root. */
  lemma {:induction false} MergeWalkAt(p: map<Coord, Coord>, rank: map<Coord, int>,
                                       E: set<(Coord, Coord)>, W: map<Coord, seq<Coord>>,
                                       q: map<Coord, Coord>, rq: map<Coord, int>, c: Coord, nb: Coord, j: Coord)
    requires WalksToRoot(p, rank, E, W) && c in p && nb in p && j in p
    requires UF.Merged(p, rank, q, rq, UF.Root(p, rank, c), UF.Root(p, rank, nb))
    ensures IsWalk(E + {Pair(c, nb)}, Rewalk(p, rank, W, c, nb)[j], j, UF.Root(q, rq, j))
  {
    var a, b, r := UF.Root(p, rank, c), UF.Root(p, rank, nb), UF.Root(p, rank, j);
    assert IsWalk(E, W[c], c, a);
    assert IsWalk(E, W[nb], nb, b);
    assert IsWalk(E, W[j], j, r);
    assert UF.Root(q, rq, j) == if r == a then b else r;
    RedirectWalk(E, W[j], W[c], W[nb], j, c, nb, r, a, b);
  }

  /** The walk from cell j to its root r after the merge of root a into
      root b along the new edge from c to nb. */
  lemma RedirectWalk(E: set<(Coord, Coord)>, wj: seq<Coord>, wc: seq<Coord>, wnb: seq<Coord>,
                     j: Coord, c: Coord, nb: Coord, r: Coord, a: Coord, b: Coord)
    requires IsWalk(E, wj, j, r) && IsWalk(E, wc, c, a) && IsWalk(E, wnb, nb, b)
    ensures IsWalk(E + {Pair(c, nb)}, if r == a then (wj + Reverse(wc)[1..]) + wnb else wj, j, if r == a then b else r)
  {
    var F := E + {Pair(c, nb)};
    GrowWalk(E, F, wj, j, r);
    if r == a {
      GrowWalk(E, F, wc, c, a);
      ReverseWalk(F, wc, c, a);
      GrowWalk(E, F, wnb, nb, b);
      ChainWalk(F, wj, Reverse(wc), j, a, c);
      BridgeWalk(F, wj + Reverse(wc)[1..], wnb, j, c, nb, b);
    }
  }

  /** Merging the components of two neighbours c and nb with different
      roots, and knocking out the wall between them, keeps the invariant,
      with the walks V; the new edge was not there before. */
  lemma SpanningMerge(n: nat, p: map<Coord, Coord>, rank: map<Coord, int>,
                      E: set<(Coord, Coord)>, W: map<Coord, seq<Coord>>,
                      q: map<Coord, Coord>, rq: map<Coord, int>, c: Coord, d: nat)
    returns (V: map<Coord, seq<Coord>>)
    requires Spanning(n, p, rank, E, W)
    requires InGrid(n, c) && d < 4 && Neighbour(n, c, d).Some?
    requires UF.Root(p, rank, c) != UF.Root(p, rank, Neighbour(n, c, d).value)
    requires UF.Merged(p, rank, q, rq, UF.Root(p, rank, c), UF.Root(p, rank, Neighbour(n, c, d).value))
    requires UF.Roots(q) == UF.Roots(p) - {UF.Root(p, rank, c)}
    ensures Pair(c, Neighbour(n, c, d).value) !in E
    ensures Spanning(n, q, rq, E + {Pair(c, Neighbour(n, c, d).value)}, V)
  {
    var nb := Neighbour(n, c, d).value;
    MergeEdges(p, rank, E, q, rq, c, nb);
    CountMerge(n, p, rank, E, q, Pair(c, nb), UF.Root(p, rank, c));
    CoreMerge(n, p, rank, E, W, q, rq, c, d);
    V := Rewalk(p, rank, W, c, nb);
  }

  /** The merge keeps every part of the invariant except the count. */
  lemma CoreMerge(n: nat, p: map<Coord, Coord>, rank: map<Coord, int>,
                      E: set<(Coord, Coord)>, W: map<Coord, seq<Coord>>,
                      q: map<Coord, Coord>, rq: map<Coord, int>, c: Coord, d: nat)
    requires Spanning(n, p, rank, E, W)
    requires InGrid(n, c) && d < 4 && Neighbour(n, c, d).Some?
    requires UF.Root(p, rank, c) != UF.Root(p, rank, Neighbour(n, c, d).value)
    requires UF.Merged(p, rank, q, rq, UF.Root(p, rank, c), UF.Root(p, rank, Neighbour(n, c, d).value))
    ensures Pair(c, Neighbour(n, c, d).value) !in E
    ensures GridForest(n, q, rq) && GridEdges(n, E + {Pair(c, Neighbour(n, c, d).value)})
    ensures EdgesJoin(q, rq, E + {Pair(c, Neighbour(n, c, d).value)})
    ensures WalksToRoot(q, rq, E + {Pair(c, Neighbour(n, c, d).value)}, Rewalk(p, rank, W, c, Neighbour(n, c, d).value))
  {
    var nb := Neighbour(n, c, d).value;
    PairIsGridEdge(n, c, d);
    MergeEdges(p, rank, E, q, rq, c, nb);
    MergeWalks(p, rank, E, W, q, rq, c, nb);
    GridEdgesAdd(n, E, Pair(c, nb));
  }

  /** One more edge and one root fewer keep the count. */
  lemma CountMerge(n: nat, p: map<Coord, Coord>, rank: map<Coord, int>, E: set<(Coord, Coord)>,
                   q: map<Coord, Coord>, e: (Coord, Coord), a: Coord)
    requires |E| + |UF.Roots(p)| == |Cells(n)|
    requires e !in E && a in UF.Roots(p) && UF.Roots(q) == UF.Roots(p) - {a}
    ensures |E + {e}| + |UF.Roots(q)| == |Cells(n)|
  {
    assert |E + {e}| == |E| + 1;
    assert |UF.Roots(p) - {a}| == |UF.Roots(p)| - 1;
  }

  lemma GridEdgesAdd(n: nat, E: set<(Coord, Coord)>, e: (Coord, Coord))
    requires GridEdges(n, E) && IsGridEdge(n, e)
    ensures GridEdges(n, E + {e})
  {
  }

  /** Adding the pair of c and its neighbour on side d to the edges opens
      exactly that side of c and the facing side of the neighbour. */
  lemma OpenedAdd(n: nat, E: set<(Coord, Coord)>, c: Coord, d: nat, z: Coord, f: nat)
    requires InGrid(n, c) && d < 4 && Neighbour(n, c, d).Some?
    requires InGrid(n, z) && f < 4
    ensures Opened(n, E + {Pair(c, Neighbour(n, c, d).value)}, z, f)
        <==> Opened(n, E, z, f) || (z == c && f == d) || (z == Neighbour(n, c, d).value && f == Opposite(d))
  {
    var nb := Neighbour(n, c, d).value;
    NeighbourBack(n, c, d);
    assert Pair(nb, c) == Pair(c, nb);
    if Neighbour(n, z, f).Some? && Pair(z, Neighbour(n, z, f).value) == Pair(c, nb) {
      PairUnique(n, c, d, z, f);
    }
  }

  /** Once every cell has the root of cell (0, 0), the knocked-out edges
      number one less than the cells and connect every two cells: the maze
      is a spanning tree of the grid. */
  lemma {:induction false} SpanningTree(n: nat, p: map<Coord, Coord>, rank: map<Coord, int>,
                                        E: set<(Coord, Coord)>, W: map<Coord, seq<Coord>>)
    requires 0 < n && Spanning(n, p, rank, E, W)
    requires Joined(p, rank)
    ensures |E| == n * n - 1
    ensures forall a, b :: InGrid(n, a) && InGrid(n, b) ==> Connected(E, a, b)
  {
    UF.SingleRoot(p, rank, Coord(0, 0));
    CellsCard(n);
    forall a, b | InGrid(n, a) && InGrid(n, b)
      ensures Connected(E, a, b)
    {
      var r := UF.Root(p, rank, Coord(0, 0));
      assert IsWalk(E, W[a], a, UF.Root(p, rank, a));
      assert IsWalk(E, W[b], b, UF.Root(p, rank, b));
      ConnectedViaRoot(E, W[a], W[b], a, b, r);
    }
  }

  /** The ranks of a fresh forest: every cell 0. */
  ghost function InitRank(n: nat): (rank: map<Coord, int>)
    ensures rank.Keys == Cells(n)
  {
    map c | c in Cells(n) :: 0
  }

  /** The walks of a fresh maze: every cell stands at its own root. */
  ghost function InitWalks(n: nat): (W: map<Coord, seq<Coord>>)
    ensures W.Keys == Cells(n)
  {
    map c | c in Cells(n) :: [c]
  }

  /** A fresh forest in which every cell is its own parent, with no edges,
      satisfies the invariant, and every cell is a root. */
  lemma InitSpanning(n: nat, p: map<Coord, Coord>)
    requires p.Keys == Cells(n) && forall c :: c in p ==> p[c] == c
    ensures Spanning(n, p, InitRank(n), {}, InitWalks(n))
    ensures UF.Roots(p) == Cells(n)
  {
    var rank, W := InitRank(n), InitWalks(n);
    UF.IdentityRoots(p);
    assert UF.IsForest(p, rank);
    forall c {:trigger UF.Root(p, rank, c)} | c in W
      ensures IsWalk({}, W[c], c, UF.Root(p, rank, c))
    {
      assert p[c] == c;
    }
  }

  /** The root of every cell of the forest p: all that the merge loop
      observes of the union-find structure. */
  ghost function RootMap(p: map<Coord, Coord>, rank: map<Coord, int>): map<Coord, Coord>
  {
    map c | c in p :: UF.Root(p, rank, c)
  }

  /** Every cell of the root map R has the root of cell (0, 0). */
  ghost predicate AllJoined(R: map<Coord, Coord>)
  {
    forall c {:trigger R[c]} :: c in R ==> Coord(0, 0) in R && R[c] == R[Coord(0, 0)]
  }

  /** One round of the loop on the root map R and the knocked-out edges E:
      when the proposed neighbour lies in the grid and has a root other than
      that of the proposed cell, the component of the cell joins that of the
      neighbour and the pair of them joins E; otherwise nothing changes. */
  ghost function Round(n: nat, R: map<Coord, Coord>, E: set<(Coord, Coord)>, prop: Proposal)
    : (map<Coord, Coord>, set<(Coord, Coord)>)
    requires ValidProposal(n, prop)
  {
    var c := Coord(prop.col, prop.row);
    var nb := Offset(c, prop.dir);
    if Neighbour(n, c, prop.dir).Some? && c in R && nb in R && R[c] != R[nb] then
      (map j | j in R :: if R[j] == R[c] then R[nb] else R[j], E + {Pair(c, nb)})
    else (R, E)
  }

  /** The loop on the root map R and the edges E: rounds on the proposals
      in order while some cell has a root other than that of cell (0, 0). */
  ghost function Run(n: nat, R: map<Coord, Coord>, E: set<(Coord, Coord)>, ps: seq<Proposal>)
    : (map<Coord, Coord>, set<(Coord, Coord)>)
    requires forall i :: 0 <= i < |ps| ==> ValidProposal(n, ps[i])
    decreases |ps|
  {
    if |ps| == 0 || AllJoined(R) then (R, E)
    else
      var next := Round(n, R, E, ps[0]);
      Run(n, next.0, next.1, ps[1..])
  }

  /** While some cell is apart and proposals remain, the loop runs a round
      on the next proposal. */
  lemma RunNext(n: nat, R: map<Coord, Coord>, E: set<(Coord, Coord)>, ps: seq<Proposal>, k: nat)
    requires forall i :: 0 <= i < |ps| ==> ValidProposal(n, ps[i])
    requires k < |ps| && !AllJoined(R)
    ensures Run(n, R, E, ps[k..]) == Run(n, Round(n, R, E, ps[k]).0, Round(n, R, E, ps[k]).1, ps[k + 1..])
  {
    assert ps[k..][1..] == ps[k + 1..];
  }

  /** Once all cells are joined or the proposals have run out, the loop
      leaves the state as it is. */
  lemma RunDone(n: nat, R: map<Coord, Coord>, E: set<(Coord, Coord)>, ps: seq<Proposal>, k: nat)
    requires forall i :: 0 <= i < |ps| ==> ValidProposal(n, ps[i])
    requires k <= |ps| && (k == |ps| || AllJoined(R))
    ensures Run(n, R, E, ps[k..]) == (R, E)
  {
  }

  /** A round whose neighbour has another root merges the cell's
      component into the neighbour's and adds their edge. */
  lemma RoundJoins(n: nat, R: map<Coord, Coord>, E: set<(Coord, Coord)>, prop: Proposal)
    requires ValidProposal(n, prop)
    requires Neighbour(n, Coord(prop.col, prop.row), prop.dir).Some?
    requires Coord(prop.col, prop.row) in R && Offset(Coord(prop.col, prop.row), prop.dir) in R
    requires R[Coord(prop.col, prop.row)] != R[Offset(Coord(prop.col, prop.row), prop.dir)]
    ensures var c, nb := Coord(prop.col, prop.row), Offset(Coord(prop.col, prop.row), prop.dir);
            Round(n, R, E, prop).0.Keys == R.Keys &&
            (forall j :: j in R ==> Round(n, R, E, prop).0[j] == if R[j] == R[c] then R[nb] else R[j]) &&
            Round(n, R, E, prop).1 == E + {Pair(c, nb)}
  {
  }

  /** The three rounds on the 2-by-2 grid that RunJoinsTwo runs: the
      first two leave cells apart, the third joins all four. */
  lemma RoundsJoinTwo(ps: seq<Proposal>)
    requires ps == [Proposal(0, 0, EAST), Proposal(0, 0, SOUTH), Proposal(1, 0, EAST)]
    ensures var R0: map<Coord, Coord> := map c | c in Cells(2) :: c;
            var s1 := Round(2, R0, {}, ps[0]);
            var s2 := Round(2, s1.0, s1.1, ps[1]);
            var s3 := Round(2, s2.0, s2.1, ps[2]);
            !AllJoined(R0) && !AllJoined(s1.0) && !AllJoined(s2.0) && AllJoined(s3.0)
  {
    var a, b, c, d := Coord(0, 0), Coord(1, 0), Coord(0, 1), Coord(1, 1);
    var R0: map<Coord, Coord> := map j | j in Cells(2) :: j;
    assert R0[a] == a && R0[b] == b && R0[c] == c && R0[d] == d;
    RoundJoins(2, R0, {}, ps[0]);
    var s1 := Round(2, R0, {}, ps[0]);
    assert s1.0[a] == b && s1.0[b] == b && s1.0[c] == c && s1.0[d] == d;
    RoundJoins(2, s1.0, s1.1, ps[1]);
    var s2 := Round(2, s1.0, s1.1, ps[1]);
    assert s2.0[a] == c && s2.0[b] == c && s2.0[c] == c && s2.0[d] == d;
    RoundJoins(2, s2.0, s2.1, ps[2]);
    var s3 := Round(2, s2.0, s2.1, ps[2]);
    forall j | j in s3.0
      ensures s3.0[j] == d
    {
      assert j == a || j == b || j == c || j == d;
    }
  }

  /** On the 2-by-2 grid, knocking out the walls east and south of cell
      (0, 0) and then east of cell (0, 1) joins all four cells: some
      proposals do finish the loop. */
  lemma RunJoinsTwo()
    ensures var ps := [Proposal(0, 0, EAST), Proposal(0, 0, SOUTH), Proposal(1, 0, EAST)];
            AllJoined(Run(2, map c | c in Cells(2) :: c, {}, ps).0)
  {
    var ps := [Proposal(0, 0, EAST), Proposal(0, 0, SOUTH), Proposal(1, 0, EAST)];
    var R0: map<Coord, Coord> := map j | j in Cells(2) :: j;
    RoundsJoinTwo(ps);
    var s1 := Round(2, R0, {}, ps[0]);
    var s2 := Round(2, s1.0, s1.1, ps[1]);
    var s3 := Round(2, s2.0, s2.1, ps[2]);
    assert ps[0..] == ps;
    RunNext(2, R0, {}, ps, 0);
    RunNext(2, s1.0, s1.1, ps, 1);
    RunNext(2, s2.0, s2.1, ps, 2);
    RunDone(2, s3.0, s3.1, ps, 3);
  }

  /** The root map of a forest of roots only names every cell its own
      root. */
  lemma IdentityRootMap(p: map<Coord, Coord>, rank: map<Coord, int>)
    requires UF.IsForest(p, rank) && forall c :: c in p ==> p[c] == c
    ensures RootMap(p, rank) == map c | c in p :: c
  {
  }

  /** Joined is AllJoined on the root map. */
  lemma JoinedRootMap(p: map<Coord, Coord>, rank: map<Coord, int>)
    requires UF.IsForest(p, rank)
    ensures Joined(p, rank) <==> AllJoined(RootMap(p, rank))
  {
    var R := RootMap(p, rank);
    if Joined(p, rank) {
      forall c | c in R
        ensures Coord(0, 0) in R && R[c] == R[Coord(0, 0)]
      {
        assert UF.Root(p, rank, c) == UF.Root(p, rank, Coord(0, 0));
      }
    }
    if AllJoined(R) {
      forall c | c in p
        ensures UF.Root(p, rank, c) == UF.Root(p, rank, Coord(0, 0))
      {
        assert R[c] == R[Coord(0, 0)];
      }
    }
  }

  /** Forests with the same roots have the same root map. */
  lemma SameRootMap(p: map<Coord, Coord>, q: map<Coord, Coord>, rank: map<Coord, int>)
    requires UF.SameRoots(p, q, rank)
    ensures RootMap(q, rank) == RootMap(p, rank)
  {
  }

  /** What Maze.Step promises about the forests before (p) and after (q)
      is exactly one Round on their root maps and edges. */
  lemma StepIsRound(n: nat, p: map<Coord, Coord>, rank: map<Coord, int>, E: set<(Coord, Coord)>,
                    q: map<Coord, Coord>, rq: map<Coord, int>, F: set<(Coord, Coord)>,
                    prop: Proposal, accepted: bool)
    requires GridForest(n, p, rank) && ValidProposal(n, prop)
    requires accepted <==>
               Neighbour(n, Coord(prop.col, prop.row), prop.dir).Some? &&
               UF.Root(p, rank, Coord(prop.col, prop.row)) != UF.Root(p, rank, Offset(Coord(prop.col, prop.row), prop.dir))
    requires !accepted ==> UF.SameRoots(p, q, rank) && rq == rank && F == E
    requires accepted ==>
               var c, nb := Coord(prop.col, prop.row), Offset(Coord(prop.col, prop.row), prop.dir);
               UF.Merged(p, rank, q, rq, UF.Root(p, rank, c), UF.Root(p, rank, nb)) && F == E + {Pair(c, nb)}
    ensures Round(n, RootMap(p, rank), E, prop) == (RootMap(q, rq), F)
  {
    var c, nb := Coord(prop.col, prop.row), Offset(Coord(prop.col, prop.row), prop.dir);
    var R := RootMap(p, rank);
    if accepted {
      var M := map j | j in R :: if R[j] == R[c] then R[nb] else R[j];
      assert M == RootMap(q, rq);
    } else {
      SameRootMap(p, q, rank);
    }
  }

  /** The grid of cells. The cell maze[y][x] is named by its coordinates
      Coord(x, y), which no other cell shares; it keeps its wall flags in
      walls[y, x, 0..4] and its open flag in isOpen[y, x], and the parent
      pointers of all cells form the map parent. */
  class Maze {
    const n: nat
    var parent: map<Coord, Coord>
    const walls: array3<bool>
    const isOpen: array2<bool>

    /** Witness that the parent pointers form a forest. */
    ghost var rank: map<Coord, int>
    /** The pairs of cells whose shared wall has been knocked out. */
    ghost var edges: set<(Coord, Coord)>

    ghost predicate Shape()
    {
      0 < n &&
      walls.Length0 == n && walls.Length1 == n && walls.Length2 == 4 &&
      isOpen.Length0 == n && isOpen.Length1 == n
    }

    /** A wall flag is up exactly where its side is not a knocked-out
        edge. */
    ghost predicate WallsMatch(E: set<(Coord, Coord)>)
      reads walls
      requires Shape()
    {
      forall y, x, d {:trigger walls[y, x, d]} :: 0 <= y < n && 0 <= x < n && 0 <= d < 4 ==>
        (walls[y, x, d] <==> !Opened(n, E, Coord(x, y), d))
    }

    ghost predicate Valid()
      reads this, walls
    {
      Shape() && WallsMatch(edges) && Spans(n, parent, rank, edges)
    }

    /** A fresh grid: every cell with all four walls up, not open, and its
        own parent. */
    constructor (n: nat)
      requires 0 < n
      ensures Valid() && this.n == n
      ensures fresh(walls) && fresh(isOpen)
      ensures forall y, x, d :: 0 <= y < n && 0 <= x < n && 0 <= d < 4 ==> walls[y, x, d]
      ensures forall y, x :: 0 <= y < n && 0 <= x < n ==> !isOpen[y, x]
      ensures forall c :: c in parent ==> parent[c] == c
      ensures edges == {} && UF.Roots(parent) == Cells(n)
      ensures RootMap(parent, rank) == map c | c in Cells(n) :: c
    {
      var ps: map<Coord, Coord> := map[];
      for y := 0 to n
        invariant forall c :: c in ps <==> InGrid(n, c) && c.y < y
        invariant forall c :: c in ps ==> ps[c] == c
      {
        for x := 0 to n
          invariant forall c :: c in ps <==> InGrid(n, c) && (c.y < y || (c.y == y && c.x < x))
          invariant forall c :: c in ps ==> ps[c] == c
        {
          ps := ps[Coord(x, y) := Coord(x, y)];
        }
      }
      assert ps.Keys == Cells(n);
      InitSpanning(n, ps);
      IdentityRootMap(ps, InitRank(n));
      this.n := n;
      walls := new bool[n, n, 4]((y, x, d) => true);
      isOpen := new bool[n, n]((y, x) => false);
      parent := ps;
      rank := InitRank(n);
      edges := {};
    }

    /** The root of x, with path compression: x is pointed straight at its
        root, and no cell changes root. */
    method Find(x: Coord) returns (r: Coord)
      requires UF.IsForest(parent, rank) && x in parent
      modifies this`parent
      ensures UF.SameRoots(old(parent), parent, rank)
      ensures r == UF.Root(parent, rank, x) && parent[x] == r
      ensures forall j :: j in old(parent) && parent[j] != old(parent)[j] ==> parent[j] == r
      decreases UF.Above(rank, rank[x])
    {
      if parent[x] != x {
        var up := parent[x];
        ghost var p0 := parent;
        UF.Up(p0, rank, x);
        assert UF.Root(p0, rank, x) == UF.Root(p0, rank, up);
        var root := Find(up);
        ghost var p1 := parent;
        UF.Compress(p1, rank, x);
        UF.SameRootsTrans(p0, p1, p1[x := root], rank);
        parent := parent[x := root];
      } else {
        UF.SameRootsRefl(parent, rank);
      }
      r := parent[x];
    }

    /** Links the root of x under the root of y: the component of x is
        merged into that of y, and when the two roots differ the root of x
        stops being a root; otherwise the roots stay as they were. */
    method Union(x: Coord, y: Coord)
      requires UF.IsForest(parent, rank) && x in parent && y in parent
      modifies this`parent, this`rank
      ensures UF.Merged(old(parent), old(rank), parent, rank,
                        old(UF.Root(parent, rank, x)), old(UF.Root(parent, rank, y)))
      ensures UF.Root(parent, rank, x) == UF.Root(parent, rank, y)
      ensures parent[old(UF.Root(parent, rank, x))] == old(UF.Root(parent, rank, y))
      ensures forall j :: j in old(parent) && parent[j] != old(parent)[j] ==>
                j == old(UF.Root(parent, rank, x)) || parent[j] in {old(UF.Root(parent, rank, x)), old(UF.Root(parent, rank, y))}
      ensures old(UF.Root(parent, rank, x)) != old(UF.Root(parent, rank, y)) ==>
                UF.Roots(parent) == old(UF.Roots(parent)) - {old(UF.Root(parent, rank, x))}
      ensures old(UF.Root(parent, rank, x)) == old(UF.Root(parent, rank, y)) ==>
                UF.Roots(parent) == old(UF.Roots(parent))
    {
      ghost var p0 := parent;
      var rx := Find(x);
      ghost var p1 := parent;
      var ry := Find(y);
      ghost var p2 := parent;
      UF.SameRootsTrans(p0, p1, p2, rank);
      UF.SameRootsRoots(p0, p2, rank);
      assert rx == UF.Root(p0, rank, x) && ry == UF.Root(p0, rank, y);
      if rx != ry {
        UF.Link(p2, rank, rx, ry);
        UF.SameThenMerged(p0, p2, rank, p2[rx := ry], UF.LinkRank(rank, rx, ry), rx, ry);
        rank := UF.LinkRank(rank, rx, ry);
        parent := parent[rx := ry];
      } else {
        UF.SelfLink(p2, rx);
        UF.MergedSelf(p0, p2, rank, rx);
        parent := parent[rx := ry];
      }
    }

    /** Knocks out the wall between cell c and cell nb on both sides,
        finding the sides by comparing coordinates; every other wall flag
        keeps its value. When nb is the neighbour of c on the side found,
        walls that matched the edges E then match E with the pair of the
        two cells added. */
    method RemoveWall(c: Coord, nb: Coord, ghost E: set<(Coord, Coord)>)
      requires Shape() && InGrid(n, c) && InGrid(n, nb) && WallsMatch(E)
      modifies walls
      ensures forall y, x, d {:trigger walls[y, x, d]} :: 0 <= y < n && 0 <= x < n && 0 <= d < 4 ==>
                walls[y, x, d] == (old(walls[y, x, d]) && !Knocked(c, nb, Coord(x, y), d))
      ensures Side(c, nb) < 4 && Neighbour(n, c, Side(c, nb)) == Some(nb) ==> WallsMatch(E + {Pair(c, nb)})
    {
      if nb.x == c.x + 1 {
        walls[c.y, c.x, EAST] := false;
        walls[nb.y, nb.x, WEST] := false;
      } else if nb.y == c.y + 1 {
        walls[c.y, c.x, SOUTH] := false;
        walls[nb.y, nb.x, NORTH] := false;
      } else if nb.x == c.x - 1 {
        walls[c.y, c.x, WEST] := false;
        walls[nb.y, nb.x, EAST] := false;
      } else if nb.y == c.y - 1 {
        walls[c.y, c.x, NORTH] := false;
        walls[nb.y, nb.x, SOUTH] := false;
      }
      if Side(c, nb) < 4 && Neighbour(n, c, Side(c, nb)) == Some(nb) {
        forall y, x, f | 0 <= y < n && 0 <= x < n && 0 <= f < 4
          ensures walls[y, x, f] <==> !Opened(n, E + {Pair(c, nb)}, Coord(x, y), f)
        {
          OpenedAdd(n, E, c, Side(c, nb), Coord(x, y), f);
        }
      }
    }

    /** One round of the merge loop on the proposal prop: the cell in row
        prop.row and column prop.col and its neighbour offset number
        prop.dir. The round is rejected when the offset leaves the grid or
        the two cells already have one root (the two lookups still compress
        paths); otherwise the two components are merged and the wall
        between the cells is knocked out on both sides. */
    method Step(prop: Proposal) returns (accepted: bool)
      requires Valid() && ValidProposal(n, prop)
      modifies this`parent, this`rank, this`edges, walls
      ensures Valid()
      ensures accepted <==>
                Neighbour(n, Coord(prop.col, prop.row), prop.dir).Some? &&
                old(UF.Root(parent, rank, Coord(prop.col, prop.row)))
                  != old(UF.Root(parent, rank, Offset(Coord(prop.col, prop.row), prop.dir)))
      ensures !accepted ==> UF.SameRoots(old(parent), parent, rank) && rank == old(rank) && edges == old(edges)
      ensures accepted ==>
                var c, nb := Coord(prop.col, prop.row), Offset(Coord(prop.col, prop.row), prop.dir);
                UF.Merged(old(parent), old(rank), parent, rank, old(UF.Root(parent, rank, c)), old(UF.Root(parent, rank, nb))) &&
                Pair(c, nb) !in old(edges) && edges == old(edges) + {Pair(c, nb)} &&
                UF.Roots(parent) == old(UF.Roots(parent)) - {old(UF.Root(parent, rank, c))}
      ensures forall y, x, d {:trigger walls[y, x, d]} :: 0 <= y < n && 0 <= x < n && 0 <= d < 4 ==>
                walls[y, x, d] ==
                  (old(walls[y, x, d]) &&
                   !(accepted && Knocked(Coord(prop.col, prop.row), Offset(Coord(prop.col, prop.row), prop.dir), Coord(x, y), d)))
    {
      var c := Coord(prop.col, prop.row);
      var nbc := Offset(c, prop.dir);
      if !(0 <= nbc.x < n && 0 <= nbc.y < n) {
        UF.SameRootsRefl(parent, rank);
        return false;
      }
      ghost var p0 := parent;
      ghost var W :| Spanning(n, parent, rank, edges, W);
      var same := SameRoot(c, nbc);
      SpanningSame(n, p0, parent, rank, edges, W);
      if same {
        return false;
      }
      ghost var p1 := parent;
      assert Neighbour(n, c, prop.dir) == Some(nbc);
      Merge(c, prop.dir);
      UF.SameThenMerged(p0, p1, old(rank), parent, rank, old(UF.Root(parent, rank, c)), old(UF.Root(parent, rank, nbc)));
      UF.SameRootsRoots(p0, p1, old(rank));
      accepted := true;
    }

    /** The accepted round: merges the component of cell c into that of its
        neighbour on side d, whose root differs, and knocks out the wall
        between the two cells on both sides. Both walls were up. */
    method Merge(c: Coord, d: nat)
      requires Valid() && InGrid(n, c) && d < 4 && Neighbour(n, c, d).Some?
      requires UF.Root(parent, rank, c) != UF.Root(parent, rank, Neighbour(n, c, d).value)
      modifies this`parent, this`rank, this`edges, walls
      ensures Valid()
      ensures UF.Merged(old(parent), old(rank), parent, rank,
                        old(UF.Root(parent, rank, c)), old(UF.Root(parent, rank, Neighbour(n, c, d).value)))
      ensures Pair(c, Neighbour(n, c, d).value) !in old(edges) && edges == old(edges) + {Pair(c, Neighbour(n, c, d).value)}
      ensures UF.Roots(parent) == old(UF.Roots(parent)) - {old(UF.Root(parent, rank, c))}
      ensures forall y, x, f {:trigger walls[y, x, f]} :: 0 <= y < n && 0 <= x < n && 0 <= f < 4 ==>
                walls[y, x, f] == (old(walls[y, x, f]) && !Knocked(c, Neighbour(n, c, d).value, Coord(x, y), f))
    {
      var nb := Neighbour(n, c, d).value;
      ghost var p1, r1, E := parent, rank, edges;
      ghost var W :| Spanning(n, parent, rank, edges, W);
      SideOfOffset(c, d);
      Union(c, nb);
      edges := edges + {Pair(c, nb)};
      ghost var V := SpanningMerge(n, p1, r1, E, W, parent, rank, c, d);
      assert unchanged(walls);
      RemoveWall(c, nb, E);
    }

    /** Whether cells a and b have one root, as find(a) == find(b) tells:
        both lookups compress paths, that of a first. */
    method SameRoot(a: Coord, b: Coord) returns (same: bool)
      requires UF.IsForest(parent, rank) && a in parent && b in parent
      modifies this`parent
      ensures UF.SameRoots(old(parent), parent, rank)
      ensures same <==> old(UF.Root(parent, rank, a)) == old(UF.Root(parent, rank, b))
    {
      ghost var p0 := parent;
      var ra := Find(a);
      ghost var p1 := parent;
      var rb := Find(b);
      UF.SameRootsTrans(p0, p1, parent, rank);
      same := ra == rb;
    }

    /** The test of the merge loop: whether some cell, taken row by row,
        has a root other than that of cell (0, 0). The scan stops at the
        first such cell. */
    method Scan() returns (apart: bool)
      requires GridForest(n, parent, rank)
      modifies this`parent
      ensures UF.SameRoots(old(parent), parent, rank)
      ensures apart <==> !Joined(old(parent), rank)
    {
      ghost var p0 := parent;
      ghost var z := UF.Root(p0, rank, Coord(0, 0));
      ghost var w := Coord(0, 0);
      UF.SameRootsRefl(parent, rank);
      apart := false;
      var y := 0;
      while y < n && !apart
        invariant 0 <= y <= n
        invariant UF.SameRoots(p0, parent, rank)
        invariant apart ==> w in p0 && UF.Root(p0, rank, w) != z
        invariant !apart ==> forall j, i {:trigger UF.Root(p0, rank, Coord(i, j))} :: 0 <= j < y && 0 <= i < n ==>
                    UF.Root(p0, rank, Coord(i, j)) == z
      {
        apart, w := ScanRow(y, p0);
        y := y + 1;
      }
    }

    /** The scan of row y, column by column: whether some cell in it has a
        root other than that of cell (0, 0), with w the first such cell.
        Both lookups of each comparison compress paths. */
    method ScanRow(y: nat, ghost p0: map<Coord, Coord>) returns (apart: bool, ghost w: Coord)
      requires y < n && p0.Keys == Cells(n) && UF.SameRoots(p0, parent, rank)
      modifies this`parent
      ensures UF.SameRoots(p0, parent, rank)
      ensures apart ==> w in p0 && UF.Root(p0, rank, w) != UF.Root(p0, rank, Coord(0, 0))
      ensures !apart ==> forall i {:trigger UF.Root(p0, rank, Coord(i, y))} :: 0 <= i < n ==>
                UF.Root(p0, rank, Coord(i, y)) == UF.Root(p0, rank, Coord(0, 0))
    {
      ghost var z := UF.Root(p0, rank, Coord(0, 0));
      w := Coord(0, 0);
      apart := false;
      var x := 0;
      while x < n && !apart
        invariant 0 <= x <= n
        invariant UF.SameRoots(p0, parent, rank)
        invariant apart ==> w in p0 && UF.Root(p0, rank, w) != z
        invariant !apart ==> forall i {:trigger UF.Root(p0, rank, Coord(i, y))} :: 0 <= i < x ==>
                    UF.Root(p0, rank, Coord(i, y)) == z
      {
        ghost var pa := parent;
        var same := SameRoot(Coord(x, y), Coord(0, 0));
        UF.SameRootsTrans(p0, pa, parent, rank);
        assert same <==> UF.Root(p0, rank, Coord(x, y)) == z;
        if !same {
          apart := true;
          w := Coord(x, y);
        } else {
          forall i | 0 <= i < x + 1
            ensures UF.Root(p0, rank, Coord(i, y)) == z
          {
            if i == x {
              assert Coord(i, y) == Coord(x, y);
            }
          }
        }
        x := x + 1;
      }
    }

    /** The loop test, keeping the invariant: compression changes no root. */
    method AnyApart() returns (apart: bool)
      requires Valid()
      modifies this`parent
      ensures Valid()
      ensures UF.SameRoots(old(parent), parent, rank)
      ensures apart <==> !Joined(parent, rank)
    {
      ghost var p0 := parent;
      ghost var W :| Spanning(n, parent, rank, edges, W);
      apart := Scan();
      SpanningSame(n, p0, parent, rank, edges, W);
      JoinedSame(p0, parent, rank);
    }

    /** Raises the North walls of the top row, the South walls of the
        bottom row, and the West and East walls of the first and last
        columns; every other wall flag keeps its value. */
    method RaiseBoundary()
      requires Shape()
      modifies walls
      ensures forall y, x, d {:trigger walls[y, x, d]} :: 0 <= y < n && 0 <= x < n && 0 <= d < 4 ==>
                walls[y, x, d] == (old(walls[y, x, d]) || OnBoundary(n, y, x, d))
    {
      for i := 0 to n
        invariant forall y, x, d {:trigger walls[y, x, d]} :: 0 <= y < n && 0 <= x < n && 0 <= d < 4 ==>
                    walls[y, x, d] == (old(walls[y, x, d]) || (y == 0 && d == NORTH && x < i))
      {
        walls[0, i, NORTH] := true;
      }
      for i := 0 to n
        invariant forall y, x, d {:trigger walls[y, x, d]} :: 0 <= y < n && 0 <= x < n && 0 <= d < 4 ==>
                    walls[y, x, d] == (old(walls[y, x, d]) || (y == 0 && d == NORTH) || (y == n - 1 && d == SOUTH && x < i))
      {
        walls[n - 1, i, SOUTH] := true;
      }
      for i := 0 to n
        invariant forall y, x, d {:trigger walls[y, x, d]} :: 0 <= y < n && 0 <= x < n && 0 <= d < 4 ==>
                    walls[y, x, d] == (old(walls[y, x, d]) || (y == 0 && d == NORTH) || (y == n - 1 && d == SOUTH) ||
                                       (y < i && ((x == 0 && d == WEST) || (x == n - 1 && d == EAST))))
      {
        walls[i, 0, WEST] := true;
        walls[i, n - 1, EAST] := true;
      }
    }

    /** The boundary fix-up: raises the boundary walls, then opens the
        top-left and bottom-right cells. The boundary walls are up already,
        so no wall flag changes. */
    method SealBoundary()
      requires Valid()
      modifies walls, isOpen
      ensures Valid()
      ensures forall y, x, d {:trigger walls[y, x, d]} :: 0 <= y < n && 0 <= x < n && 0 <= d < 4 ==>
                walls[y, x, d] == old(walls[y, x, d])
      ensures forall y, x {:trigger isOpen[y, x]} :: 0 <= y < n && 0 <= x < n ==>
                isOpen[y, x] == (old(isOpen[y, x]) || (y == 0 && x == 0) || (y == n - 1 && x == n - 1))
    {
      BoundaryUp();
      RaiseBoundary();
      isOpen[0, 0] := true;
      isOpen[n - 1, n - 1] := true;
    }

    /** The merge loop: runs rounds on the proposals in order while some
        cell has a root other than that of cell (0, 0). The answer is
        whether that still holds when the loop stops, which is always the
        case when the proposals ran out first. */
    /** One pass of the loop: a round on the proposal, then the loop's
        test. On the root map and the edges, the pass is one Round. */
    method Pass(prop: Proposal) returns (apart: bool)
      requires Valid() && ValidProposal(n, prop)
      modifies this`parent, this`rank, this`edges, walls
      ensures Valid()
      ensures apart <==> !Joined(parent, rank)
      ensures apart <==> !AllJoined(RootMap(parent, rank))
      ensures (RootMap(parent, rank), edges) == Round(n, old(RootMap(parent, rank)), old(edges), prop)
    {
      ghost var p1, r1, e1 := parent, rank, edges;
      ghost var W :| Spanning(n, parent, rank, edges, W);
      var accepted := Step(prop);
      StepIsRound(n, p1, r1, e1, parent, rank, edges, prop, accepted);
      ghost var p2 := parent;
      apart := AnyApart();
      SameRootMap(p2, parent, rank);
      ghost var V :| Spanning(n, parent, rank, edges, V);
      JoinedRootMap(parent, rank);
    }

    /** The merge loop: runs rounds on the proposals in order while some
        cell has a root other than that of cell (0, 0). The answer is
        whether that still holds when the loop stops, which is always the
        case when the proposals ran out first; the root map and the edges
        it leaves are those of Run on the proposals. */
    method MergeLoop(proposals: seq<Proposal>) returns (apart: bool)
      requires Valid()
      requires forall i :: 0 <= i < |proposals| ==> ValidProposal(n, proposals[i])
      modifies this`parent, this`rank, this`edges, walls
      ensures Valid()
      ensures apart <==> !Joined(parent, rank)
      ensures (RootMap(parent, rank), edges) == Run(n, old(RootMap(parent, rank)), old(edges), proposals)
    {
      ghost var R0, E0 := RootMap(parent, rank), edges;
      ghost var p0 := parent;
      apart := AnyApart();
      SameRootMap(p0, parent, rank);
      ghost var W :| Spanning(n, parent, rank, edges, W);
      JoinedRootMap(parent, rank);
      var k := 0;
      while apart && k < |proposals|
        invariant 0 <= k <= |proposals|
        invariant Valid()
        invariant apart <==> !Joined(parent, rank)
        invariant apart <==> !AllJoined(RootMap(parent, rank))
        invariant Run(n, R0, E0, proposals) == Run(n, RootMap(parent, rank), edges, proposals[k..])
        decreases |proposals| - k
      {
        RunNext(n, RootMap(parent, rank), edges, proposals, k);
        apart := Pass(proposals[k]);
        k := k + 1;
      }
      RunDone(n, RootMap(parent, rank), edges, proposals, k);
    }

    /** The end of a finished run: the knocked-out walls form a spanning
        tree of the grid; the boundary is sealed and the two corner cells
        are opened. */
    method Finish()
      requires Valid() && Joined(parent, rank)
      requires forall y, x {:trigger isOpen[y, x]} :: 0 <= y < n && 0 <= x < n ==> !isOpen[y, x]
      modifies walls, isOpen
      ensures Valid()
      ensures forall y, x, d {:trigger walls[y, x, d]} :: 0 <= y < n && 0 <= x < n && 0 <= d < 4 ==>
                walls[y, x, d] == old(walls[y, x, d])
      ensures |edges| == n * n - 1
      ensures forall a, b :: InGrid(n, a) && InGrid(n, b) ==> Connected(edges, a, b)
      ensures forall y, x, d {:trigger walls[y, x, d]} :: 0 <= y < n && 0 <= x < n && 0 <= d < 4 ==>
                OnBoundary(n, y, x, d) ==> walls[y, x, d]
      ensures forall y, x {:trigger isOpen[y, x]} :: 0 <= y < n && 0 <= x < n ==>
                isOpen[y, x] == ((y == 0 && x == 0) || (y == n - 1 && x == n - 1))
    {
      SealBoundary();
      BoundaryUp();
      ghost var W :| Spanning(n, parent, rank, edges, W);
      SpanningTree(n, parent, rank, edges, W);
    }

    /** The two flags of a shared wall agree: side d of a cell is up
        exactly when the facing side of its neighbour is. */
    lemma SharedWallsAgree(y: int, x: int, d: nat)
      requires Valid() && 0 <= y < n && 0 <= x < n && d < 4 && Neighbour(n, Coord(x, y), d).Some?
      ensures var nb := Neighbour(n, Coord(x, y), d).value;
              walls[y, x, d] == walls[nb.y, nb.x, Opposite(d)]
    {
      OpenedSymmetric(n, edges, Coord(x, y), d);
    }

    /** Every side on the outer boundary has no neighbour, so its wall is
        up. */
    lemma BoundaryUp()
      requires Valid()
      ensures forall y, x, d {:trigger walls[y, x, d]} :: 0 <= y < n && 0 <= x < n && 0 <= d < 4 ==>
                OnBoundary(n, y, x, d) ==> walls[y, x, d]
    {
      forall y, x, d | 0 <= y < n && 0 <= x < n && 0 <= d < 4 && OnBoundary(n, y, x, d)
        ensures walls[y, x, d]
      {
        assert !Opened(n, edges, Coord(x, y), d);
      }
    }
  }

  /** The maze generator on an n-by-n grid. The loop runs while some cell
      has a root other than that of cell (0, 0); its rounds take their
      random choices from proposals in order. When the loop exits the
      boundary is sealed: the knocked-out walls then form a spanning tree
      of the grid, with the top-left and bottom-right cells open. When the
      proposals run out first, finished is false and the fix-up is not
      reached. */
  method GenerateMaze(n: nat, proposals: seq<Proposal>) returns (maze: Maze, finished: bool)
    requires 0 < n
    requires forall i :: 0 <= i < |proposals| ==> ValidProposal(n, proposals[i])
    ensures fresh(maze) && fresh(maze.walls) && fresh(maze.isOpen)
    ensures maze.n == n && maze.Valid()
    ensures finished <==> Joined(maze.parent, maze.rank)
    ensures (RootMap(maze.parent, maze.rank), maze.edges) == Run(n, map c | c in Cells(n) :: c, {}, proposals)
    ensures finished ==> |maze.edges| == n * n - 1
    ensures finished ==> forall a, b :: InGrid(n, a) && InGrid(n, b) ==> Connected(maze.edges, a, b)
    ensures finished ==>
              forall y, x, d {:trigger maze.walls[y, x, d]} :: 0 <= y < n && 0 <= x < n && 0 <= d < 4 ==>
                OnBoundary(n, y, x, d) ==> maze.walls[y, x, d]
    ensures forall y, x {:trigger maze.isOpen[y, x]} :: 0 <= y < n && 0 <= x < n ==>
              maze.isOpen[y, x] == (finished && ((y == 0 && x == 0) || (y == n - 1 && x == n - 1)))
  {
    maze := new Maze(n);
    var apart := maze.MergeLoop(proposals);
    finished := !apart;
    if finished {
      maze.Finish();
    }
  }
}
