/** Walks along removed walls: the connectivity of the maze. A walk is a
    non-empty sequence of cells in which each two consecutive cells form a
    pair of the edge set. */
module Walks {
  import opened Grid

  /** The pair of cells that step k of walk w crosses. */
  function StepPair(w: seq<Coord>, k: int): (Coord, Coord)
    requires 0 <= k < |w| - 1
  {
    Pair(w[k], w[k + 1])
  }

  ghost predicate IsWalk(E: set<(Coord, Coord)>, w: seq<Coord>, a: Coord, b: Coord)
  {
    |w| >= 1 && w[0] == a && w[|w| - 1] == b &&
    forall k :: 0 <= k < |w| - 1 ==> StepPair(w, k) in E
  }

  /** Cells a and b are connected through the open edges E. */
  ghost predicate Connected(E: set<(Coord, Coord)>, a: Coord, b: Coord)
  {
    exists w :: IsWalk(E, w, a, b)
  }

  function Reverse(w: seq<Coord>): (r: seq<Coord>)
    ensures |r| == |w|
  {
    seq(|w|, k requires 0 <= k < |w| => w[|w| - 1 - k])
  }

  lemma ReverseWalk(E: set<(Coord, Coord)>, w: seq<Coord>, a: Coord, b: Coord)
    requires IsWalk(E, w, a, b)
    ensures IsWalk(E, Reverse(w), b, a)
  {
    var r := Reverse(w);
    forall k | 0 <= k < |r| - 1 ensures StepPair(r, k) in E {
      var m := |w| - 2 - k;
      assert r[k] == w[m + 1] && r[k + 1] == w[m];
      assert StepPair(w, m) in E;
    }
  }

  /** A walk from a to b followed by a walk from b to c. */
  lemma ChainWalk(E: set<(Coord, Coord)>, w1: seq<Coord>, w2: seq<Coord>, a: Coord, b: Coord, c: Coord)
    requires IsWalk(E, w1, a, b) && IsWalk(E, w2, b, c)
    ensures IsWalk(E, w1 + w2[1..], a, c)
  {
    var w := w1 + w2[1..];
    forall k | 0 <= k < |w| - 1 ensures StepPair(w, k) in E {
      if k < |w1| - 1 {
        assert StepPair(w, k) == StepPair(w1, k);
      } else {
        var m := k - |w1| + 1;
        assert StepPair(w, k) == StepPair(w2, m);
      }
    }
  }

  /** A walk from a to b, the edge from b to c, and a walk from c to d. */
  lemma BridgeWalk(E: set<(Coord, Coord)>, w1: seq<Coord>, w2: seq<Coord>, a: Coord, b: Coord, c: Coord, d: Coord)
    requires IsWalk(E, w1, a, b) && IsWalk(E, w2, c, d) && Pair(b, c) in E
    ensures IsWalk(E, w1 + w2, a, d)
  {
    var w := w1 + w2;
    forall k | 0 <= k < |w| - 1 ensures StepPair(w, k) in E {
      if k < |w1| - 1 {
        assert StepPair(w, k) == StepPair(w1, k);
      } else if k == |w1| - 1 {
        assert w[k] == b && w[k + 1] == c;
      } else {
        var m := k - |w1|;
        assert StepPair(w, k) == StepPair(w2, m);
      }
    }
  }

  /** A walk stays a walk when edges are added. */
  lemma GrowWalk(E: set<(Coord, Coord)>, F: set<(Coord, Coord)>, w: seq<Coord>, a: Coord, b: Coord)
    requires IsWalk(E, w, a, b) && E <= F
    ensures IsWalk(F, w, a, b)
  {
  }

  /** Two cells that reach the same root are connected. */
  lemma ConnectedViaRoot(E: set<(Coord, Coord)>, w1: seq<Coord>, w2: seq<Coord>, a: Coord, b: Coord, r: Coord)
    requires IsWalk(E, w1, a, r) && IsWalk(E, w2, b, r)
    ensures Connected(E, a, b)
  {
    ReverseWalk(E, w2, b, r);
    ChainWalk(E, w1, Reverse(w2), a, r, b);
  }
}
