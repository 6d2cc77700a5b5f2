/**
  The set of cells one reveal uncovers, defined independently of the order
  in which the recursive reveal visits them: a cell is uncovered when a
  cascade path leads to it from the revealed position. Every cell on such a
  path is on the board, unflagged and still hidden, and every cell but the
  last is a blank one (no mine on it or around it), so the cascade goes on
  through it.
 */
module Cascade {
  import opened Board

  /** What a reveal depends on: the size of the grid, the mine positions and the flagged positions. */
  datatype Field = Field(rows: int, cols: int, mines: set<Coord>, flags: set<Coord>)

  /** On the board and not flagged. */
  predicate Free(g: Field, p: Coord)
  {
    0 <= p.0 < g.rows && 0 <= p.1 < g.cols && p !in g.flags
  }

  /** A reveal at `p` would act: on the board, unflagged and not among the revealed cells `shown`. */
  predicate Open(g: Field, shown: set<Coord>, p: Coord)
  {
    Free(g, p) && p !in shown
  }

  /** A blank cell: no mine on it and none around it, so revealing it also reveals its neighbours. */
  ghost predicate Spreads(g: Field, p: Coord)
  {
    p !in g.mines && MinesAround(g.mines, p) == {}
  }

  ghost predicate IsCascadePath(g: Field, shown: set<Coord>, path: seq<Coord>)
  {
    && |path| > 0
    && (forall k :: 0 <= k < |path| ==> Open(g, shown, path[k]))
    && (forall k :: 0 <= k < |path| - 1 ==> Spreads(g, path[k]) && Near(path[k], path[k + 1]))
  }

  /** `path` is a cascade path from `s` to `t`. */
  ghost predicate LeadsTo(g: Field, shown: set<Coord>, path: seq<Coord>, s: Coord, t: Coord)
  {
    IsCascadePath(g, shown, path) && path[0] == s && path[|path| - 1] == t
  }

  ghost predicate Reaches(g: Field, shown: set<Coord>, s: Coord, t: Coord)
  {
    exists path :: LeadsTo(g, shown, path, s, t)
  }

  /** The cells a reveal at `s` uncovers when `shown` is already revealed. */
  ghost function Flood(g: Field, shown: set<Coord>, s: Coord): set<Coord>
  {
    set p | p in Cells(g.rows, g.cols) && Reaches(g, shown, s, p)
  }

  /** Every uncovered cell is open, so none was revealed before. */
  lemma FloodIsOpen(g: Field, shown: set<Coord>, s: Coord, t: Coord)
    requires t in Flood(g, shown, s)
    ensures Open(g, shown, t)
  {
    var path :| LeadsTo(g, shown, path, s, t);
    assert Open(g, shown, path[|path| - 1]);
  }

  /** A reveal that cannot act (off the board, flagged or already revealed) uncovers nothing. */
  lemma FloodOfClosed(g: Field, shown: set<Coord>, s: Coord)
    ensures !Open(g, shown, s) ==> Flood(g, shown, s) == {}
  {
    forall t | t in Flood(g, shown, s) ensures Open(g, shown, s) {
      var path :| LeadsTo(g, shown, path, s, t);
      assert Open(g, shown, path[0]);
    }
  }

  /** An open cell is always uncovered by a reveal at itself. */
  lemma FloodHasStart(g: Field, shown: set<Coord>, s: Coord)
    requires Open(g, shown, s)
    ensures s in Flood(g, shown, s)
  {
    assert LeadsTo(g, shown, [s], s, s);
  }

  /** A reveal at a mine or at a positive number uncovers that cell alone. */
  lemma FloodOfStop(g: Field, shown: set<Coord>, s: Coord)
    requires Open(g, shown, s) && !Spreads(g, s)
    ensures Flood(g, shown, s) == {s}
  {
    FloodHasStart(g, shown, s);
    forall t | t in Flood(g, shown, s) ensures t == s {
      var path :| LeadsTo(g, shown, path, s, t);
      assert !Spreads(g, path[0]);
    }
  }

  /**
    A cascade path found from a neighbour `n` of a blank start `s`, at a
    later moment when more cells are revealed, is the tail of a cascade path
    from `s` at the earlier moment.
   */
  lemma ReachesThrough(g: Field, shown: set<Coord>, later: set<Coord>, s: Coord, n: Coord, t: Coord)
    requires Open(g, shown, s) && Spreads(g, s) && Near(s, n)
    requires shown <= later
    requires Reaches(g, later, n, t)
    ensures Reaches(g, shown, s, t)
  {
    var path :| LeadsTo(g, later, path, n, t);
    var longer := [s] + path;
    forall k | 0 <= k < |longer| ensures Open(g, shown, longer[k]) {
      if k > 0 {
        assert longer[k] == path[k - 1];
        assert Open(g, later, path[k - 1]);
      }
    }
    forall k | 0 <= k < |longer| - 1 ensures Spreads(g, longer[k]) && Near(longer[k], longer[k + 1]) {
      if k > 0 {
        assert longer[k] == path[k - 1] && longer[k + 1] == path[k];
      }
    }
    assert IsCascadePath(g, shown, longer);
    assert LeadsTo(g, shown, longer, s, t);
  }

  /** The uncovered set is closed: a blank uncovered cell's open neighbours are uncovered too. */
  lemma FloodGrows(g: Field, shown: set<Coord>, s: Coord, q: Coord, m: Coord)
    requires q in Flood(g, shown, s)
    requires Spreads(g, q) && Near(q, m) && Open(g, shown, m)
    ensures m in Flood(g, shown, s)
  {
    var path :| LeadsTo(g, shown, path, s, q);
    var longer := path + [m];
    forall k | 0 <= k < |longer| - 1 ensures Spreads(g, longer[k]) && Near(longer[k], longer[k + 1]) {
      if k < |path| - 1 {
        assert longer[k] == path[k] && longer[k + 1] == path[k + 1];
      }
    }
    assert LeadsTo(g, shown, longer, s, m);
  }

  /**
    `now` is closed under the cascade for the cells it has revealed since
    `shown`: each blank one has all its free neighbours revealed.
   */
  ghost predicate ClosedSince(g: Field, shown: set<Coord>, now: set<Coord>)
  {
    forall q, m {:trigger Near(q, m)} :: q in now && q !in shown && Spreads(g, q) && Near(q, m) && Free(g, m) ==> m in now
  }

  lemma {:induction false} PathInside(g: Field, shown: set<Coord>, now: set<Coord>, path: seq<Coord>, k: nat)
    requires IsCascadePath(g, shown, path) && path[0] in now
    requires ClosedSince(g, shown, now)
    requires k < |path|
    ensures path[k] in now
  {
    if k > 0 {
      PathInside(g, shown, now, path, k - 1);
      assert Open(g, shown, path[k - 1]) && Open(g, shown, path[k]);
      assert Spreads(g, path[k - 1]) && Near(path[k - 1], path[k]);
    }
  }

  /** A revealed set that contains the start and is closed under the cascade contains the whole flood. */
  lemma FloodWithin(g: Field, shown: set<Coord>, now: set<Coord>, s: Coord)
    requires s in now
    requires ClosedSince(g, shown, now)
    ensures Flood(g, shown, s) <= now
  {
    forall t | t in Flood(g, shown, s) ensures t in now {
      var path :| LeadsTo(g, shown, path, s, t);
      PathInside(g, shown, now, path, |path| - 1);
    }
  }

  /** A blank cell has no mine next to it. */
  lemma NoMineNextToBlank(g: Field, p: Coord, n: Coord)
    requires Spreads(g, p) && Near(p, n)
    ensures n !in g.mines
  {
    assert n in g.mines ==> n in MinesAround(g.mines, p);
  }

  /** The cascade uncovers no mine besides, possibly, the start. */
  lemma FloodAvoidsMines(g: Field, shown: set<Coord>, s: Coord, t: Coord)
    requires t in Flood(g, shown, s) && t != s
    ensures t !in g.mines
  {
    var path :| LeadsTo(g, shown, path, s, t);
    var k := |path| - 2;
    assert Spreads(g, path[k]) && Near(path[k], path[k + 1]);
    NoMineNextToBlank(g, path[k], t);
  }

  /** A reveal that does not start on a mine uncovers no mine. */
  lemma FloodSafe(g: Field, shown: set<Coord>, s: Coord)
    requires s !in g.mines
    ensures Flood(g, shown, s) !! g.mines
  {
    forall t | t in Flood(g, shown, s) ensures t !in g.mines {
      if t != s {
        FloodAvoidsMines(g, shown, s, t);
      }
    }
  }

  /** Every cell revealed since `shown` was reached by a cascade path from `s`. */
  ghost predicate ReachedFrom(g: Field, shown: set<Coord>, s: Coord, now: set<Coord>)
  {
    forall q :: q in now && q !in shown ==> Reaches(g, shown, s, q)
  }

  /** Revealing the blank start `s` alone begins the flood invariant. */
  lemma CascadeBegins(g: Field, shown: set<Coord>, s: Coord)
    requires Open(g, shown, s)
    ensures ReachedFrom(g, shown, s, shown + {s})
    ensures ClosedSince(g, shown + {s}, shown + {s})
  {
    assert LeadsTo(g, shown, [s], s, s);
  }

  /**
    One recursive reveal at a neighbour `n` of the blank start `s`, made when
    `mid` is revealed, keeps both halves of the flood invariant.
   */
  lemma CascadeStep(g: Field, shown: set<Coord>, s: Coord, mid: set<Coord>, n: Coord)
    requires Open(g, shown, s) && Spreads(g, s) && Near(s, n)
    requires shown + {s} <= mid
    requires ReachedFrom(g, shown, s, mid)
    requires ClosedSince(g, shown + {s}, mid)
    ensures ReachedFrom(g, shown, s, mid + Flood(g, mid, n))
    ensures ClosedSince(g, shown + {s}, mid + Flood(g, mid, n))
    ensures Free(g, n) ==> n in mid + Flood(g, mid, n)
  {
    var added := Flood(g, mid, n);
    var now := mid + added;
    forall q | q in now && q !in shown ensures Reaches(g, shown, s, q) {
      if q !in mid {
        ReachesThrough(g, shown, mid, s, n, q);
      }
    }
    forall q, m | q in now && q !in shown + {s} && Spreads(g, q) && Near(q, m) && Free(g, m)
      ensures m in now
    {
      if q in added && m !in mid {
        FloodGrows(g, mid, n, q, m);
      }
    }
    if Free(g, n) && n !in mid {
      FloodHasStart(g, mid, n);
    }
  }

  /**
    The row-major scan of the neighbours of `s` has passed (r, c): every
    free neighbour before that position is revealed in `now`.
   */
  ghost predicate NeighboursUpTo(g: Field, s: Coord, now: set<Coord>, r: int, c: int)
  {
    forall m {:trigger Near(s, m)} :: Near(s, m) && Free(g, m) && Precedes(m, r, c) ==> m in now
  }

  /** Before the scan starts no neighbour is due. */
  lemma NeighboursNone(g: Field, s: Coord, now: set<Coord>)
    ensures NeighboursUpTo(g, s, now, s.0 - 1, s.1 - 1)
  {
  }

  /** Visiting (r, c), which reveals it when it is a free neighbour, moves the scan one column on. */
  lemma NeighboursNext(g: Field, s: Coord, a: set<Coord>, b: set<Coord>, r: int, c: int)
    requires NeighboursUpTo(g, s, a, r, c) && a <= b
    requires Near(s, (r, c)) && Free(g, (r, c)) ==> (r, c) in b
    ensures NeighboursUpTo(g, s, b, r, c + 1)
  {
  }

  /** Past the last neighbour column of a row, the scan continues at the first column of the next row. */
  lemma NeighboursNextRow(g: Field, s: Coord, now: set<Coord>, r: int)
    requires NeighboursUpTo(g, s, now, r, s.1 + 2)
    ensures NeighboursUpTo(g, s, now, r + 1, s.1 - 1)
  {
  }

  /**
    When the reveals at every neighbour of the blank start `s` are done, the
    revealed set is the one before plus exactly the flood from `s`.
   */
  lemma CascadeDone(g: Field, shown: set<Coord>, s: Coord, now: set<Coord>)
    requires Open(g, shown, s)
    requires shown + {s} <= now
    requires ReachedFrom(g, shown, s, now)
    requires ClosedSince(g, shown + {s}, now)
    requires NeighboursUpTo(g, s, now, s.0 + 2, s.1 - 1)
    ensures now == shown + Flood(g, shown, s)
  {
    assert ClosedSince(g, shown, now);
    FloodWithin(g, shown, now, s);
    forall q | q in now && q !in shown ensures q in Flood(g, shown, s) {
      var path :| LeadsTo(g, shown, path, s, q);
      assert Open(g, shown, path[|path| - 1]);
    }
    forall q | q in Flood(g, shown, s) ensures q !in shown {
      FloodIsOpen(g, shown, s, q);
    }
  }

  /** A reveal at a non-mine adds exactly the size of its flood to the count of revealed non-mine cells. */
  lemma FloodScore(g: Field, shown: set<Coord>, s: Coord)
    requires s !in g.mines
    ensures |(shown + Flood(g, shown, s)) - g.mines| == |shown - g.mines| + |Flood(g, shown, s)|
  {
    var flood := Flood(g, shown, s);
    forall t | t in flood ensures t !in g.mines && t !in shown {
      FloodIsOpen(g, shown, s, t);
      if t != s {
        FloodAvoidsMines(g, shown, s, t);
      }
    }
    assert (shown + flood) - g.mines == (shown - g.mines) + flood;
    assert (shown - g.mines) !! flood;
  }
}
