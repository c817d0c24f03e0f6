/**
 * The board as the match search sees it: a grid of tile kinds held column by
 * column (row 0 at the bottom), 4-adjacency between cells, the same-kind
 * connected component of a cell, and the cells that border a set of cells.
 * These definitions do not depend on any traversal order.
 */
module Grid {
  import opened Tiles

  /** A board coordinate: (column, row). */
  type Cell = (int, int)

  /** The kind of every tile, column by column, bottom to top. */
  type Kinds = seq<seq<TileType>>

  predicate InGrid(g: Kinds, p: Cell)
  {
    0 <= p.0 < |g| && 0 <= p.1 < |g[p.0]|
  }

  function KindAt(g: Kinds, p: Cell): TileType
    requires InGrid(g, p)
  {
    g[p.0][p.1]
  }

  /** Every cell of the grid. */
  ghost function Cells(g: Kinds): set<Cell>
  {
    set x, y | 0 <= x < |g| && 0 <= y < |g[x]| :: (x, y)
  }

  /** p and q are 4-neighbours: one is left of, below, right of or above the other. */
  predicate Adjacent(p: Cell, q: Cell)
  {
    (p.0 == q.0 && (p.1 == q.1 + 1 || q.1 == p.1 + 1)) ||
    (p.1 == q.1 && (p.0 == q.0 + 1 || q.0 == p.0 + 1))
  }

  /** One of the four 4-neighbours of q belongs to S. */
  predicate NextTo(S: set<Cell>, q: Cell)
  {
    (q.0 - 1, q.1) in S || (q.0, q.1 - 1) in S || (q.0 + 1, q.1) in S || (q.0, q.1 + 1) in S
  }

  /** Every 4-neighbour of p that lies on the grid belongs to K. */
  predicate Around(g: Kinds, p: Cell, K: set<Cell>)
  {
    && (InGrid(g, (p.0 - 1, p.1)) ==> (p.0 - 1, p.1) in K)
    && (InGrid(g, (p.0, p.1 - 1)) ==> (p.0, p.1 - 1) in K)
    && (InGrid(g, (p.0 + 1, p.1)) ==> (p.0 + 1, p.1) in K)
    && (InGrid(g, (p.0, p.1 + 1)) ==> (p.0, p.1 + 1) in K)
  }

  /** NextTo says exactly that some member of S is adjacent. */
  lemma NextToAdjacent(S: set<Cell>, q: Cell)
    ensures NextTo(S, q) <==> exists p :: p in S && Adjacent(p, q)
  {
    if NextTo(S, q) {
      if (q.0 - 1, q.1) in S {
        assert Adjacent((q.0 - 1, q.1), q);
      } else if (q.0, q.1 - 1) in S {
        assert Adjacent((q.0, q.1 - 1), q);
      } else if (q.0 + 1, q.1) in S {
        assert Adjacent((q.0 + 1, q.1), q);
      } else {
        assert Adjacent((q.0, q.1 + 1), q);
      }
    }
    if exists p :: p in S && Adjacent(p, q) {
      var p :| p in S && Adjacent(p, q);
      AdjacentIsNeighbour(p, q);
    }
  }

  /** A cell adjacent to a member of S is next to S. */
  lemma AdjacentNextTo(S: set<Cell>, p: Cell, q: Cell)
    requires p in S && Adjacent(p, q)
    ensures NextTo(S, q)
  {
    AdjacentIsNeighbour(p, q);
  }

  /** An adjacent cell is one of the four neighbours. */
  lemma AdjacentIsNeighbour(p: Cell, q: Cell)
    requires Adjacent(p, q)
    ensures p == (q.0 - 1, q.1) || p == (q.0, q.1 - 1) || p == (q.0 + 1, q.1) || p == (q.0, q.1 + 1)
    ensures q == (p.0 - 1, p.1) || q == (p.0, p.1 - 1) || q == (p.0 + 1, p.1) || q == (p.0, p.1 + 1)
  {
  }

  /** w is a 4-connected walk through cells of kind c. */
  ghost predicate IsWalk(g: Kinds, c: TileType, w: seq<Cell>)
  {
    (forall i :: 0 <= i < |w| ==> InGrid(g, w[i]) && KindAt(g, w[i]) == c) &&
    (forall i :: 0 < i < |w| ==> Adjacent(w[i - 1], w[i]))
  }

  /** p can be reached from r by a walk that stays on r's kind. */
  ghost predicate Connected(g: Kinds, r: Cell, p: Cell)
    requires InGrid(g, r)
  {
    exists w :: IsWalk(g, KindAt(g, r), w) && |w| > 0 && w[0] == r && w[|w| - 1] == p
  }

  /** The 4-connected component of same-kind cells that contains r. */
  ghost function Component(g: Kinds, r: Cell): set<Cell>
    requires InGrid(g, r)
  {
    set p | p in Cells(g) && Connected(g, r, p)
  }

  /** Every grid cell of kind c next to a member of S is itself in S. */
  ghost predicate Closed(g: Kinds, c: TileType, S: set<Cell>)
  {
    forall q {:trigger NextTo(S, q)} :: InGrid(g, q) && KindAt(g, q) == c && NextTo(S, q) ==> q in S
  }

  /** The cells of the grid that are 4-adjacent to some member of S. */
  ghost function Border(g: Kinds, S: set<Cell>): set<Cell>
  {
    set p | p in Cells(g) && NextTo(S, p)
  }

  /** The Crate cells among S. */
  ghost function CratesIn(g: Kinds, S: set<Cell>): set<Cell>
  {
    set p | p in S && InGrid(g, p) && KindAt(g, p) == Crate
  }

  /** What a search from r tags for removal: r's component and the Crates bordering it. */
  ghost function Marked(g: Kinds, r: Cell): set<Cell>
    requires InGrid(g, r)
  {
    Component(g, r) + CratesIn(g, Border(g, Component(g, r)))
  }

  /** The component holds r, lies on the grid, and has r's kind throughout. */
  lemma ComponentBasics(g: Kinds, r: Cell)
    requires InGrid(g, r)
    ensures r in Component(g, r)
    ensures forall p :: p in Component(g, r) ==> InGrid(g, p) && KindAt(g, p) == KindAt(g, r)
  {
    assert IsWalk(g, KindAt(g, r), [r]);
    assert Connected(g, r, r);
    forall p | p in Component(g, r)
      ensures InGrid(g, p) && KindAt(g, p) == KindAt(g, r)
    {
      var w :| IsWalk(g, KindAt(g, r), w) && |w| > 0 && w[0] == r && w[|w| - 1] == p;
      assert InGrid(g, w[|w| - 1]);
    }
  }

  /** The component absorbs every same-kind neighbour of its members. */
  lemma ComponentClosed(g: Kinds, r: Cell)
    requires InGrid(g, r)
    ensures Closed(g, KindAt(g, r), Component(g, r))
  {
    var c := KindAt(g, r);
    var C := Component(g, r);
    forall q | InGrid(g, q) && KindAt(g, q) == c && NextTo(C, q)
      ensures q in C
    {
      NextToAdjacent(C, q);
      var p :| p in C && Adjacent(p, q);
      var w :| IsWalk(g, c, w) && |w| > 0 && w[0] == r && w[|w| - 1] == p;
      var w' := w + [q];
      assert IsWalk(g, c, w');
      assert Connected(g, r, q);
    }
  }

  /** A closed set that holds the start of a walk holds the walk's end. */
  lemma {:induction false} WalkStaysInside(g: Kinds, c: TileType, w: seq<Cell>, S: set<Cell>)
    requires IsWalk(g, c, w) && |w| > 0 && w[0] in S && Closed(g, c, S)
    ensures w[|w| - 1] in S
    decreases |w|
  {
    if |w| > 1 {
      var v := w[..|w| - 1];
      assert IsWalk(g, c, v);
      WalkStaysInside(g, c, v, S);
      var p, q := w[|w| - 2], w[|w| - 1];
      assert Adjacent(p, q);
      NextToAdjacent(S, q);
      assert InGrid(g, q) && KindAt(g, q) == c && NextTo(S, q);
    }
  }

  /** The component is the least closed set containing r. */
  lemma ComponentLeast(g: Kinds, r: Cell, S: set<Cell>)
    requires InGrid(g, r) && r in S && Closed(g, KindAt(g, r), S)
    ensures Component(g, r) <= S
  {
    forall p | p in Component(g, r)
      ensures p in S
    {
      var w :| IsWalk(g, KindAt(g, r), w) && |w| > 0 && w[0] == r && w[|w| - 1] == p;
      WalkStaysInside(g, KindAt(g, r), w, S);
    }
  }

  /** The component is r alone exactly when no 4-neighbour of r has r's kind. */
  lemma SingletonComponent(g: Kinds, r: Cell)
    requires InGrid(g, r)
    ensures |Component(g, r)| == 1 <==>
            forall q :: InGrid(g, q) && Adjacent(r, q) ==> KindAt(g, q) != KindAt(g, r)
  {
    var C := Component(g, r);
    var c := KindAt(g, r);
    ComponentBasics(g, r);
    if forall q :: InGrid(g, q) && Adjacent(r, q) ==> KindAt(g, q) != c {
      forall q
        ensures NextTo({r}, q) ==> Adjacent(r, q)
      {
        NextToAdjacent({r}, q);
      }
      assert Closed(g, c, {r});
      ComponentLeast(g, r, {r});
      assert C == {r};
    } else {
      var q :| InGrid(g, q) && Adjacent(r, q) && KindAt(g, q) == c;
      ComponentClosed(g, r);
      NextToAdjacent(C, q);
      assert q in C && r in C && q != r;
      assert {q, r} <= C;
      assert |{q, r}| == 2;
      SubsetCard({q, r}, C);
    }
  }

  lemma SubsetCard<T>(A: set<T>, B: set<T>)
    requires A <= B
    ensures |A| <= |B|
  {
    assert B == A + (B - A);
  }

  /**
   * What a search tags, cell by cell: only cells of the root's kind or Crates,
   * and a Crate exactly when it is next to the root's component.
   */
  lemma MarkedExactly(g: Kinds, r: Cell)
    requires InGrid(g, r) && KindAt(g, r) != Crate
    ensures forall p :: p in Marked(g, r) ==> InGrid(g, p) && (KindAt(g, p) == KindAt(g, r) || KindAt(g, p) == Crate)
    ensures forall p :: InGrid(g, p) && KindAt(g, p) == Crate ==> (p in Marked(g, r) <==> NextTo(Component(g, r), p))
  {
    ComponentBasics(g, r);
  }

  /**
   * The root's component holds no Crate, so counting it counts no Crate: the
   * tagged cells are the component plus the Crates bordering it, apart.
   */
  lemma CratesNeverScore(g: Kinds, r: Cell)
    requires InGrid(g, r) && KindAt(g, r) != Crate
    ensures CratesIn(g, Component(g, r)) == {}
    ensures Component(g, r) == Marked(g, r) - CratesIn(g, Marked(g, r))
    ensures |Marked(g, r)| == |Component(g, r)| + |CratesIn(g, Border(g, Component(g, r)))|
  {
    var C := Component(g, r);
    var B := CratesIn(g, Border(g, C));
    ComponentBasics(g, r);
    assert CratesIn(g, C) == {};
    assert C * B == {};
    assert CratesIn(g, Marked(g, r)) == B;
  }
}
