/**
 * The state of the depth-first match search (Assets/Scripts/GameBoard.cs,
 * FindMatchFromTile and CheckTile) as sets of cells: K holds the cells whose
 * tile is checked, F those whose tile is tagged toDestroy, and C is a set the
 * tagged cells of the root's kind must stay inside (the root's component).
 * The predicates below are what the recursion keeps true; SearchComplete says
 * what they imply once the root's exploration is over, whatever order the
 * neighbours were visited in.
 */
module Search {
  import opened Tiles
  import opened Grid

  /** The members of F of kind c. */
  ghost function Same(g: Kinds, F: set<Cell>, c: TileType): set<Cell>
  {
    set p | p in F && InGrid(g, p) && KindAt(g, p) == c
  }

  /**
   * Soundness of a search from r inside C (the root's component): every checked
   * cell lies on the grid, in C or next to it, and every tagged cell is checked
   * and lies in C or is a Crate.
   */
  ghost predicate Sound(g: Kinds, r: Cell, C: set<Cell>, K: set<Cell>, F: set<Cell>)
  {
    && InGrid(g, r) && KindAt(g, r) != Crate
    && (forall p {:trigger p in K} :: p in K ==> InGrid(g, p) && (p in C || NextTo(C, p)))
    && (forall p {:trigger p in F} :: p in F ==> p in K && (p in C || KindAt(g, p) == Crate))
  }

  /** A checked cell of kind c or of kind Crate is tagged. */
  ghost predicate Settled(g: Kinds, c: TileType, K: set<Cell>, F: set<Cell>)
  {
    forall p {:trigger p in K} :: p in K && InGrid(g, p) && (KindAt(g, p) == c || KindAt(g, p) == Crate) ==> p in F
  }

  /** Every grid neighbour of every member of S is checked. */
  ghost predicate Finished(g: Kinds, K: set<Cell>, S: set<Cell>)
  {
    forall p {:trigger p in S} :: p in S ==> Around(g, p, K)
  }

  /** A tagged cell whose neighbours are all checked joins the finished part. */
  lemma FinishedAdd(g: Kinds, K: set<Cell>, A: set<Cell>, t: Cell, D: set<Cell>)
    requires Around(g, t, K) && Finished(g, K, D - (A + {t}))
    ensures Finished(g, K, D - A)
  {
    forall p | p in D - A
      ensures Around(g, p, K)
    {
      if p != t {
        assert p in D - (A + {t});
      }
    }
  }

  /** Tagging t and pushing it on the pending set leaves the finished part as it was. */
  lemma FinishedTag(g: Kinds, K: set<Cell>, S: set<Cell>, P: set<Cell>, t: Cell)
    requires Finished(g, K, S - P)
    ensures Finished(g, K, (S + {t}) - (P + {t}))
  {
    assert (S + {t}) - (P + {t}) <= S - P;
  }

  /** Checking one more cell keeps a finished part finished. */
  lemma FinishedMore(g: Kinds, K: set<Cell>, q: Cell, S: set<Cell>)
    requires Finished(g, K, S)
    ensures Finished(g, K + {q}, S)
  {
  }

  /** The first visit of the root: it is checked and nothing is tagged yet. */
  lemma RootStart(g: Kinds, r: Cell, C: set<Cell>)
    requires InGrid(g, r) && KindAt(g, r) != Crate && r in C
    ensures Sound(g, r, C, {r}, {})
    ensures Settled(g, KindAt(g, r), {r}, {r})
    ensures Same(g, {}, KindAt(g, r)) == {}
  {
  }

  /** Checking a grid cell in C or next to it keeps the search sound. */
  lemma CheckStep(g: Kinds, r: Cell, C: set<Cell>, K: set<Cell>, F: set<Cell>, q: Cell)
    requires Sound(g, r, C, K, F) && InGrid(g, q) && NextTo(C, q)
    ensures Sound(g, r, C, K + {q}, F)
  {
  }

  /** Tagging a checked cell of the root's kind that lies in C. */
  lemma MatchStep(g: Kinds, r: Cell, C: set<Cell>, K: set<Cell>, F: set<Cell>, t: Cell)
    requires Sound(g, r, C, K, F)
    requires t in K && t !in F && InGrid(g, t) && KindAt(g, t) == KindAt(g, r)
    requires t in C
    ensures Sound(g, r, C, K, F + {t})
    ensures Same(g, F + {t}, KindAt(g, r)) == Same(g, F, KindAt(g, r)) + {t}
    ensures t !in Same(g, F, KindAt(g, r))
    ensures |Same(g, F + {t}, KindAt(g, r))| == |Same(g, F, KindAt(g, r))| + 1
  {
    var c := KindAt(g, r);
    assert Same(g, F + {t}, c) == Same(g, F, c) + {t};
  }

  /** Checking q and tagging it together keeps the search settled. */
  lemma SettledAdd(g: Kinds, c: TileType, K: set<Cell>, F: set<Cell>, q: Cell)
    requires Settled(g, c, K, F)
    ensures Settled(g, c, K + {q}, F + {q})
  {
  }

  /** Tagging a checked Crate keeps the search sound and adds nothing of the root's kind. */
  lemma CrateStep(g: Kinds, r: Cell, C: set<Cell>, K: set<Cell>, F: set<Cell>, q: Cell)
    requires Sound(g, r, C, K, F)
    requires q in K && InGrid(g, q) && KindAt(g, q) == Crate
    ensures Sound(g, r, C, K, F + {q})
    ensures Same(g, F + {q}, KindAt(g, r)) == Same(g, F, KindAt(g, r))
  {
    var c := KindAt(g, r);
    assert Same(g, F + {q}, c) == Same(g, F, c);
  }

  /**
   * Once the root is tagged and every tagged cell of its kind has had all its
   * neighbours checked, the tagged cells are exactly the component plus the
   * Crates bordering it, the checked cells are the component plus its border,
   * and the tagged cells of the root's kind are the component.
   */
  lemma SearchComplete(g: Kinds, r: Cell, K: set<Cell>, F: set<Cell>)
    requires InGrid(g, r)
    requires Sound(g, r, Component(g, r), K, F)
    requires Settled(g, KindAt(g, r), K, F)
    requires r in F
    requires Finished(g, K, Same(g, F, KindAt(g, r)))
    ensures Same(g, F, KindAt(g, r)) == Component(g, r)
    ensures F == Marked(g, r)
    ensures K == Component(g, r) + Border(g, Component(g, r))
  {
    var c := KindAt(g, r);
    var S := Same(g, F, c);
    var C := Component(g, r);
    assert r in S;
    assert Closed(g, c, S) by {
      forall q | InGrid(g, q) && KindAt(g, q) == c && NextTo(S, q)
        ensures q in S
      {
        assert q in K by {
          NextToAdjacent(S, q);
          var p :| p in S && Adjacent(p, q);
          AdjacentIsNeighbour(p, q);
          assert Around(g, p, K);
        }
      }
    }
    ComponentLeast(g, r, S);
    assert S == C;
    forall p | p in F
      ensures p in Marked(g, r)
    {
      if KindAt(g, p) != c {
        assert p in CratesIn(g, Border(g, C));
      }
    }
    forall p | p in C + Border(g, C)
      ensures p in K
    {
      if p !in C {
        NextToAdjacent(C, p);
        var q :| q in C && Adjacent(q, p);
        AdjacentIsNeighbour(q, p);
        assert Around(g, q, K);
      }
    }
    forall p | p in Marked(g, r)
      ensures p in F
    {
      if p !in C {
        assert p in Border(g, C);
      }
    }
  }

  /**
   * Two finished searches from the same root agree on what they tagged and
   * checked: neighbour order cannot change the outcome. The invariant never
   * mentions an order, so this covers any order; the model itself runs only
   * the source's order (left, below, right, above).
   */
  lemma SearchDeterminate(g: Kinds, r: Cell, K1: set<Cell>, F1: set<Cell>, K2: set<Cell>, F2: set<Cell>)
    requires InGrid(g, r)
    requires Sound(g, r, Component(g, r), K1, F1) && Settled(g, KindAt(g, r), K1, F1) && r in F1
    requires Finished(g, K1, Same(g, F1, KindAt(g, r)))
    requires Sound(g, r, Component(g, r), K2, F2) && Settled(g, KindAt(g, r), K2, F2) && r in F2
    requires Finished(g, K2, Same(g, F2, KindAt(g, r)))
    ensures F1 == F2 && K1 == K2
  {
    SearchComplete(g, r, K1, F1);
    SearchComplete(g, r, K2, F2);
  }
}
