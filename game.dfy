/**
  The game session: the board, the revealed and flagged grids, the
  game-over flag and the running score, with the player's two actions
  (reveal a cell, toggle a flag), the recursive reveal and the win check.
 */
module Engine {
  import opened Board
  import opened Cascade
  import opened Scores

  /** One end of the game as reported to the score store: the outcome and the final score. */
  datatype Ending = Ending(won: bool, finalScore: int)

  class Game {
    const rows: nat
    const cols: nat
    const board: array2<Cell>
    const revealed: array2<bool>
    const flagged: array2<bool>
    var gameOver: bool
    var score: int
    /** The calls of endGame so far, in order. */
    var endings: seq<Ending>
    /** The mine positions of `board`. */
    ghost const mines: set<Coord>
    /** The revealed positions, kept in step with the `revealed` grid. */
    ghost var shown: set<Coord>
    /** The flagged positions, kept in step with the `flagged` grid. */
    ghost var flags: set<Coord>

    /** The field as a reveal sees it. */
    ghost function View(): Field
      reads this
    {
      Field(rows, cols, mines, flags)
    }

    /** The positions without a mine that are still hidden. */
    ghost function HiddenSafe(): set<Coord>
      reads this
    {
      Cells(rows, cols) - shown - mines
    }

    /**
      The grids agree in shape, the ghost sets hold exactly the mine,
      revealed and flagged positions, the board is numbered correctly and
      the score counts the revealed cells without a mine.
     */
    ghost predicate Valid()
      reads this, board, revealed, flagged
    {
      && BoardOk()
      && revealed.Length0 == rows && revealed.Length1 == cols
      && flagged.Length0 == rows && flagged.Length1 == cols
      && revealed != flagged
      && shown <= Cells(rows, cols)
      && (forall i, j {:trigger revealed[i, j]} :: 0 <= i < rows && 0 <= j < cols ==> (revealed[i, j] <==> (i, j) in shown))
      && flags <= Cells(rows, cols)
      && (forall i, j {:trigger flagged[i, j]} :: 0 <= i < rows && 0 <= j < cols ==> (flagged[i, j] <==> (i, j) in flags))
      && score == |shown - mines|
    }

    /** The board has the game's size, its mines are `mines` and every other cell shows its count. */
    ghost predicate BoardOk()
      reads board
    {
      && board.Length0 == rows && board.Length1 == cols
      && MarksMines(board, mines)
      && Numbered(board, mines)
    }

    /**
      The state between two player actions. A game in progress has a
      hidden safe cell and no revealed mine; a finished game has ended
      exactly once, as a win exactly when no safe cell is hidden and as a
      loss exactly when a mine is revealed.
     */
    ghost predicate Live()
      reads this, board, revealed, flagged
    {
      && Valid()
      && |endings| == (if gameOver then 1 else 0)
      && (!gameOver ==> HiddenSafe() != {} && shown !! mines)
      && (gameOver ==> (endings[0].won <==> HiddenSafe() == {}) && (endings[0].won <==> shown !! mines))
    }

    /** A reveal at (r, c) acts there and finds a mine. */
    ghost predicate HitsMine(r: int, c: int)
      reads this
    {
      Open(View(), shown, (r, c)) && (r, c) in mines
    }

    /** Starts a game at the given difficulty, placing mines from the supplied random draws. */
    constructor (level: Difficulty, draws: seq<Coord>)
      requires forall k :: 0 <= k < |draws| ==>
        0 <= draws[k].0 < Preset(level).rows && 0 <= draws[k].1 < Preset(level).cols
      ensures Live()
      ensures rows == Preset(level).rows && cols == Preset(level).cols
      ensures !gameOver && score == 0 && endings == [] && shown == {} && flags == {}
      ensures mines == Mines(board)
      ensures mines <= Drawn(draws)
      ensures |mines| == Preset(level).mines || mines == Drawn(draws)
      ensures SampledFrom(draws, Preset(level).mines, mines)
      ensures fresh(board) && fresh(revealed) && fresh(flagged)
    {
      var cfg := Preset(level);
      var b := NewBoard(cfg, draws);
      assert Cells(cfg.rows, cfg.cols) - {} - Mines(b) == Cells(cfg.rows, cfg.cols) - Mines(b);
      rows, cols := cfg.rows, cfg.cols;
      board := b;
      mines := Mines(b);
      revealed := new bool[cfg.rows, cfg.cols]((i, j) => false);
      flagged := new bool[cfg.rows, cfg.cols]((i, j) => false);
      gameOver, score, endings := false, 0, [];
      shown, flags := {}, {};
    }

    /** Ends the game and hands the outcome and the final score on. */
    method EndGame(won: bool, elapsed: int)
      modifies this
      ensures gameOver && score == old(score) && shown == old(shown) && flags == old(flags)
      ensures endings == old(endings) + [Ending(won, FinalScore(old(score), won, elapsed))]
    {
      gameOver := true;
      endings := endings + [Ending(won, FinalScore(score, won, elapsed))];
    }

    /**
      Reveals (r, c) and, from a blank cell, its neighbours recursively.
      Revealed cells are exactly the old ones plus the flood from (r, c);
      a mine ends the game as a loss, any other revealed cell scores one.
     */
    method RevealCell(r: int, c: int, elapsed: int)
      requires Valid()
      modifies this, revealed
      decreases |Cells(rows, cols) - shown|, 3
      ensures Valid() && flags == old(flags)
      ensures !old(Open(View(), shown, (r, c))) ==> unchanged(this) && unchanged(revealed)
      ensures shown == old(shown) + Flood(View(), old(shown), (r, c))
      ensures old(HitsMine(r, c)) ==>
        gameOver && score == old(score) && endings == old(endings) + [Ending(false, old(score))]
      ensures !old(HitsMine(r, c)) ==>
        && gameOver == old(gameOver) && endings == old(endings)
        && score == old(score) + |Flood(View(), old(shown), (r, c))|
    {
      if r < 0 || r >= rows || c < 0 || c >= cols || revealed[r, c] || flagged[r, c] {
        FloodOfClosed(View(), shown, (r, c));
        return;
      }
      assert NumberCorrectAt(board, mines, r, c);
      if board[r, c] == Mine {
        RevealMine(r, c, elapsed);
        FloodOfStop(old(View()), old(shown), (r, c));
      } else {
        FloodScore(View(), shown, (r, c));
        RevealSafe(r, c, elapsed);
      }
    }

    /** The reveal of the hidden mine at (r, c): it is shown and the game is lost. */
    method RevealMine(r: int, c: int, elapsed: int)
      requires Valid() && Open(View(), shown, (r, c)) && (r, c) in mines
      modifies this, revealed
      ensures Valid() && View() == old(View())
      ensures shown == old(shown) + {(r, c)}
      ensures gameOver && score == old(score) && endings == old(endings) + [Ending(false, old(score))]
    {
      revealed[r, c] := true;
      shown := shown + {(r, c)};
      assert shown - mines == old(shown) - mines;
      EndGame(false, elapsed);
    }

    /**
      The reveal of the hidden free cell (r, c): it is shown and scored, and
      when no mine is next to it its neighbours are revealed in turn.
     */
    method RevealSafe(r: int, c: int, elapsed: int)
      requires Valid() && Open(View(), shown, (r, c)) && (r, c) !in mines
      modifies this, revealed
      decreases |Cells(rows, cols) - shown|, 2
      ensures Valid() && View() == old(View())
      ensures shown == old(shown) + Flood(View(), old(shown), (r, c))
      ensures gameOver == old(gameOver) && endings == old(endings)
    {
      ghost var g := View();
      ghost var before := shown;
      ghost var start := (r, c);
      assert NumberCorrectAt(board, mines, r, c);
      assert board[r, c].n == 0 <==> Spreads(g, start);
      revealed[r, c] := true;
      shown := shown + {start};
      score := score + 1;
      assert shown - mines == (before - mines) + {start};
      if board[r, c].n > 0 {
        FloodOfStop(g, before, start);
        return;
      }
      RevealAround(g, before, r, c, elapsed);
    }

    /**
      The loops of the reveal at the blank cell (r, c): reveals each of
      its eight neighbours in row-major order, ending with every cell of
      the flood from (r, c) revealed.
     */
    method RevealAround(ghost g: Field, ghost before: set<Coord>, r: int, c: int, elapsed: int)
      requires Valid() && View() == g && shown == before + {(r, c)}
      requires Open(g, before, (r, c)) && Spreads(g, (r, c))
      modifies this, revealed
      decreases |Cells(rows, cols) - before|, 1
      ensures Valid() && View() == g
      ensures shown == before + Flood(g, before, (r, c))
      ensures gameOver == old(gameOver) && endings == old(endings)
    {
      ghost var start := (r, c);
      CascadeBegins(g, before, start);
      NeighboursNone(g, start, shown);
      for dr := -1 to 2
        invariant Cascading(g, before, start) && gameOver == old(gameOver) && endings == old(endings)
        invariant NeighboursUpTo(g, start, shown, r + dr, c - 1)
      {
        for dc := -1 to 2
          invariant Cascading(g, before, start) && gameOver == old(gameOver) && endings == old(endings)
          invariant NeighboursUpTo(g, start, shown, r + dr, c + dc)
        {
          if dr != 0 || dc != 0 {
            RevealNeighbour(g, before, start, r + dr, c + dc, elapsed);
          } else {
            NeighboursNext(g, start, shown, shown, r, c);
          }
        }
        NeighboursNextRow(g, start, shown, r + dr);
      }
      CascadeDone(g, before, start, shown);
    }

    /**
      The state inside a reveal that started at the blank cell `start` when
      `before` was revealed: every cell revealed since was reached by the
      cascade from `start`, and every blank one revealed since `start` has
      its free neighbours revealed.
     */
    ghost predicate Cascading(g: Field, before: set<Coord>, start: Coord)
      reads this, board, revealed, flagged
    {
      && Valid() && View() == g
      && Open(g, before, start) && Spreads(g, start)
      && before + {start} <= shown
      && ReachedFrom(g, before, start, shown)
      && ClosedSince(g, before + {start}, shown)
    }

    /** The recursive reveal at (r, c), a neighbour of the blank cell `start`, inside the reveal at `start`. */
    method RevealNeighbour(ghost g: Field, ghost before: set<Coord>, ghost start: Coord, r: int, c: int, elapsed: int)
      requires Cascading(g, before, start) && Near(start, (r, c))
      requires NeighboursUpTo(g, start, shown, r, c)
      modifies this, revealed
      decreases |Cells(rows, cols) - before|, 0
      ensures Cascading(g, before, start) && NeighboursUpTo(g, start, shown, r, c + 1)
      ensures gameOver == old(gameOver) && endings == old(endings)
    {
      ghost var mid := shown;
      FewerHidden(Cells(rows, cols), before, mid, start);
      NoMineNextToBlank(g, start, (r, c));
      CascadeStep(g, before, start, mid, (r, c));
      RevealCell(r, c, elapsed);
      NeighboursNext(g, start, mid, shown, r, c);
    }

    /** Counts the hidden cells without a mine. */
    method CountHiddenSafe() returns (unrevealed: nat)
      requires Valid()
      ensures unrevealed == |HiddenSafe()|
    {
      unrevealed := 0;
      for r := 0 to rows
        invariant unrevealed == |HiddenBefore(r, 0)|
      {
        for c := 0 to cols
          invariant unrevealed == |HiddenBefore(r, c)|
        {
          HiddenBeforeStep(r, c);
          if !revealed[r, c] && board[r, c] != Mine {
            unrevealed := unrevealed + 1;
          }
        }
        HiddenBeforeNextRow(r);
      }
      HiddenBeforeAll();
    }

    /** The hidden safe cells the row-major scan has passed before reaching (r, c). */
    ghost function HiddenBefore(r: int, c: int): set<Coord>
      reads this
    {
      set p | p in HiddenSafe() && Precedes(p, r, c)
    }

    lemma HiddenSafeAt(r: int, c: int)
      requires Valid() && 0 <= r < rows && 0 <= c < cols
      ensures (r, c) in HiddenSafe() <==> !revealed[r, c] && board[r, c] != Mine
    {
    }

    lemma HiddenBeforeStep(r: int, c: int)
      requires Valid() && 0 <= r < rows && 0 <= c < cols
      ensures |HiddenBefore(r, c + 1)| ==
        |HiddenBefore(r, c)| + (if !revealed[r, c] && board[r, c] != Mine then 1 else 0)
    {
      HiddenSafeAt(r, c);
      if (r, c) in HiddenSafe() {
        assert HiddenBefore(r, c + 1) == HiddenBefore(r, c) + {(r, c)};
      } else {
        assert HiddenBefore(r, c + 1) == HiddenBefore(r, c);
      }
    }

    lemma HiddenBeforeNextRow(r: int)
      requires Valid()
      ensures HiddenBefore(r, cols) == HiddenBefore(r + 1, 0)
    {
    }

    lemma HiddenBeforeAll()
      requires Valid()
      ensures HiddenBefore(rows, 0) == HiddenSafe()
    {
    }

    /** Ends the game as a win when no safe cell is hidden; flags play no part. */
    method CheckWin(elapsed: int)
      requires Valid()
      modifies this
      ensures Valid()
      ensures score == old(score) && shown == old(shown) && flags == old(flags)
      ensures HiddenSafe() == {} ==> gameOver && endings == old(endings) + [Ending(true, score + 1000 - elapsed)]
      ensures HiddenSafe() != {} ==> gameOver == old(gameOver) && endings == old(endings)
    {
      var unrevealed := CountHiddenSafe();
      if unrevealed == 0 {
        EndGame(true, elapsed);
      }
    }

    /**
      The player reveals (r, c). Nothing happens once the game is over or on
      a revealed or flagged cell. A mine loses with the running score; any
      other cell floods, scores one per revealed cell, and wins when no
      safe cell is left hidden.
     */
    method Click(r: int, c: int, elapsed: int)
      requires Live()
      requires 0 <= r < rows && 0 <= c < cols
      modifies this, revealed
      ensures Live()
      ensures old(gameOver || revealed[r, c] || flagged[r, c]) ==> unchanged(this) && unchanged(revealed)
      ensures !old(gameOver || revealed[r, c] || flagged[r, c]) ==>
        && shown == old(shown) + Flood(View(), old(shown), (r, c))
        && ((r, c) in mines ==>
              gameOver && score == old(score) && |endings| == 1 && endings[0] == Ending(false, old(score)))
        && ((r, c) !in mines ==>
              && score == old(score) + |Flood(View(), old(shown), (r, c))|
              && gameOver == (HiddenSafe() == {})
              && |endings| == (if gameOver then 1 else 0)
              && (gameOver ==> endings[0] == Ending(true, score + 1000 - elapsed)))
    {
      if gameOver {
        return;
      }
      if revealed[r, c] || flagged[r, c] {
        return;
      }
      ghost var g := View();
      ghost var hit := (r, c) in mines;
      FloodHasStart(g, shown, (r, c));
      assert endings == [];
      assert Open(g, shown, (r, c));
      assert hit == HitsMine(r, c);
      RevealCell(r, c, elapsed);
      if hit {
        assert HiddenSafe() == old(HiddenSafe());
      } else {
        FloodSafe(g, old(shown), (r, c));
        assert !gameOver && endings == [];
      }
      CheckWin(elapsed);
    }

    /**
      The player toggles the flag on (r, c): nothing happens once the game
      is over or on a revealed cell; otherwise exactly that flag flips.
     */
    method ToggleFlag(r: int, c: int)
      requires Live()
      requires 0 <= r < rows && 0 <= c < cols
      modifies this, flagged
      ensures Live()
      ensures gameOver == old(gameOver) && score == old(score) && endings == old(endings) && shown == old(shown)
      ensures old(gameOver || revealed[r, c]) ==> unchanged(flagged) && flags == old(flags)
      ensures !old(gameOver || revealed[r, c]) ==>
        && flagged[r, c] == !old(flagged[r, c])
        && (forall i, j :: 0 <= i < rows && 0 <= j < cols && (i, j) != (r, c) ==> flagged[i, j] == old(flagged[i, j]))
        && flags == (if old(flagged[r, c]) then old(flags) - {(r, c)} else old(flags) + {(r, c)})
    {
      if gameOver {
        return;
      }
      if revealed[r, c] {
        return;
      }
      if flagged[r, c] {
        flags := flags - {(r, c)};
      } else {
        flags := flags + {(r, c)};
      }
      flagged[r, c] := !flagged[r, c];
    }

    /** Toggling the same flag twice leaves every flag as it was. */
    method ToggleFlagTwice(r: int, c: int)
      requires Live()
      requires 0 <= r < rows && 0 <= c < cols
      modifies this, flagged
      ensures Live()
      ensures gameOver == old(gameOver) && score == old(score) && endings == old(endings) && shown == old(shown)
      ensures flags == old(flags)
      ensures forall i, j :: 0 <= i < rows && 0 <= j < cols ==> flagged[i, j] == old(flagged[i, j])
    {
      ToggleFlag(r, c);
      ToggleFlag(r, c);
    }
  }
}
