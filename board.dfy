/**
  Board generation of the minesweeper engine: the three difficulty presets,
  mine placement by rejection sampling over a supplied sequence of draws,
  and the pass that writes into every non-mine cell the number of mines
  among its (up to) eight neighbours.
 */
module Board {

  /** A grid position (row, column). */
  type Coord = (int, int)

  /** A cell of the board holds the mine marker or a neighbour count. */
  datatype Cell = Mine | Num(n: int)

  datatype Difficulty = Easy | Medium | Hard

  datatype Config = Config(rows: nat, cols: nat, mines: nat)

  /** The fixed presets; each leaves at least one cell free of mines. */
  function Preset(d: Difficulty): (cfg: Config)
    ensures 0 < cfg.rows && 0 < cfg.cols
    ensures cfg.mines < cfg.rows * cfg.cols
  {
    match d
    case Easy => Config(8, 8, 10)
    case Medium => Config(12, 12, 25)
    case Hard => Config(16, 16, 50)
  }

  /** The 8-neighbourhood relation: distinct positions at most one step apart on each axis. */
  predicate Near(p: Coord, q: Coord)
  {
    p != q && -1 <= p.0 - q.0 <= 1 && -1 <= p.1 - q.1 <= 1
  }

  /** Lexicographic "already visited" order of the row-major loops: `p` comes before (r, c). */
  predicate Precedes(p: Coord, r: int, c: int)
  {
    p.0 < r || (p.0 == r && p.1 < c)
  }

  /** Every position of a rows x cols grid. */
  ghost function Cells(rows: int, cols: int): set<Coord>
  {
    set i, j | 0 <= i < rows && 0 <= j < cols :: (i, j)
  }

  /** The positions of a board that hold a mine. */
  ghost function Mines(b: array2<Cell>): set<Coord>
    reads b
  {
    set p | p in Cells(b.Length0, b.Length1) && IsMine(b, p)
  }

  ghost predicate IsMine(b: array2<Cell>, p: Coord)
    reads b
  {
    0 <= p.0 < b.Length0 && 0 <= p.1 < b.Length1 && b[p.0, p.1] == Mine
  }

  /** The mines of `mines` that neighbour `p`. */
  ghost function MinesAround(mines: set<Coord>, p: Coord): set<Coord>
  {
    set q | q in mines && Near(q, p)
  }

  /** `mines` is exactly the set of mine positions of `b`. */
  ghost predicate MarksMines(b: array2<Cell>, mines: set<Coord>)
    reads b
  {
    && mines <= Cells(b.Length0, b.Length1)
    && forall i, j {:trigger b[i, j]} :: 0 <= i < b.Length0 && 0 <= j < b.Length1 ==> (b[i, j] == Mine <==> (i, j) in mines)
  }

  /** The cell at (i, j), when it is not a mine, holds the number of its neighbours in `mines`. */
  ghost predicate NumberCorrectAt(b: array2<Cell>, mines: set<Coord>, i: int, j: int)
    reads b
    requires 0 <= i < b.Length0 && 0 <= j < b.Length1
  {
    b[i, j] != Mine ==> b[i, j] == Num(|MinesAround(mines, (i, j))|)
  }

  /** Every non-mine cell holds the number of its neighbours in `mines`. */
  ghost predicate Numbered(b: array2<Cell>, mines: set<Coord>)
    reads b
  {
    forall i, j :: 0 <= i < b.Length0 && 0 <= j < b.Length1 ==> NumberCorrectAt(b, mines, i, j)
  }

  /** Every non-mine cell holds the number of its neighbouring mines. */
  ghost predicate NumbersCorrect(b: array2<Cell>)
    reads b
  {
    Numbered(b, Mines(b))
  }

  /** The positions that occur in a sequence of draws. */
  ghost function Drawn(draws: seq<Coord>): set<Coord>
  {
    set k | 0 <= k < |draws| :: draws[k]
  }

  ghost function Row(r: int, cols: int): set<Coord>
  {
    set j | 0 <= j < cols :: (r, j)
  }

  lemma {:induction false} RowCount(r: int, cols: nat)
    ensures |Row(r, cols)| == cols
  {
    if cols > 0 {
      RowCount(r, cols - 1);
      assert Row(r, cols) == Row(r, cols - 1) + {(r, cols - 1)};
    } else {
      assert Row(r, cols) == {};
    }
  }

  /** The grid of `rows` rows is the grid of one row less plus its last row. */
  lemma CellsSplit(rows: nat, cols: nat)
    requires rows > 0
    ensures Cells(rows, cols) == Cells(rows - 1, cols) + Row(rows - 1, cols)
    ensures Cells(rows - 1, cols) !! Row(rows - 1, cols)
  {
  }

  /** A rows x cols grid has rows * cols positions. */
  lemma {:induction false} CellsCount(rows: nat, cols: nat)
    ensures |Cells(rows, cols)| == rows * cols
  {
    if rows > 0 {
      CellsSplit(rows, cols);
      CellsCount(rows - 1, cols);
      RowCount(rows - 1, cols);
      assert (rows - 1) * cols + cols == rows * cols;
    } else {
      assert Cells(rows, cols) == {};
    }
  }

  /** A position has at most eight neighbouring mines. */
  lemma MinesAroundAtMostEight(mines: set<Coord>, p: Coord)
    ensures |MinesAround(mines, p)| <= 8
  {
    var (r, c) := p;
    var ring := {(r - 1, c - 1), (r - 1, c), (r - 1, c + 1), (r, c - 1),
                 (r, c + 1), (r + 1, c - 1), (r + 1, c), (r + 1, c + 1)};
    assert MinesAround(mines, p) <= ring;
    SubsetNoLarger(MinesAround(mines, p), ring);
  }

  lemma {:induction false} SubsetNoLarger<T>(a: set<T>, b: set<T>)
    requires a <= b
    ensures |a| <= |b|
  {
    assert b == a + (b - a);
  }

  lemma SubsetSmaller<T>(a: set<T>, b: set<T>, x: T)
    requires a <= b && x in b && x !in a
    ensures |a| < |b|
  {
    assert b == a + (b - a);
    assert x in b - a;
  }

  /** Revealing at least one more position leaves fewer positions hidden. */
  lemma FewerHidden(cells: set<Coord>, before: set<Coord>, after: set<Coord>, p: Coord)
    requires before + {p} <= after && p in cells && p !in before
    ensures |cells - after| < |cells - before|
  {
    SubsetSmaller(cells - after, cells - before, p);
  }

  /** Fewer mines than positions leave at least one position without a mine. */
  lemma SomeCellFree(rows: nat, cols: nat, mines: set<Coord>)
    requires |mines| < rows * cols
    ensures Cells(rows, cols) - mines != {}
  {
    var cells := Cells(rows, cols);
    CellsCount(rows, cols);
    assert cells == (cells - mines) + (cells * mines);
    SubsetNoLarger(cells * mines, mines);
    assert |cells - mines| > 0;
  }

  /** On a correctly numbered board every number lies in 0..8. */
  lemma NumbersInRange(b: array2<Cell>)
    requires NumbersCorrect(b)
    ensures forall i, j :: 0 <= i < b.Length0 && 0 <= j < b.Length1 && b[i, j].Num? ==>
      0 <= b[i, j].n <= 8
  {
    forall i, j | 0 <= i < b.Length0 && 0 <= j < b.Length1 && b[i, j].Num?
      ensures 0 <= b[i, j].n <= 8
    {
      assert NumberCorrectAt(b, Mines(b), i, j);
      MinesAroundAtMostEight(Mines(b), (i, j));
    }
  }

  /** The set of mine positions marks the mines of the board. */
  lemma MinesMarked(b: array2<Cell>)
    ensures MarksMines(b, Mines(b))
  {
    forall i, j | 0 <= i < b.Length0 && 0 <= j < b.Length1
      ensures b[i, j] == Mine <==> (i, j) in Mines(b)
    {
      MineAt(b, i, j);
    }
  }

  /**
    Rejection sampling: take draws in order until `mines` distinct positions
    hold a mine. A draw that hits a mine already placed is discarded. The
    loop also stops when the draws run out.
   */
  method PlaceMines(b: array2<Cell>, mines: nat, draws: seq<Coord>) returns (placed: nat, used: nat)
    requires forall k :: 0 <= k < |draws| ==> 0 <= draws[k].0 < b.Length0 && 0 <= draws[k].1 < b.Length1
    requires MarksMines(b, {})
    modifies b
    ensures used <= |draws|
    ensures MarksMines(b, Drawn(draws[..used]))
    ensures placed == |Drawn(draws[..used])| <= mines
    ensures placed == mines || used == |draws|
    ensures used > 0 ==> |Drawn(draws[..used - 1])| < mines
    ensures forall i, j :: 0 <= i < b.Length0 && 0 <= j < b.Length1 && b[i, j] != Mine ==>
      b[i, j] == old(b[i, j])
  {
    placed, used := 0, 0;
    ghost var drawn: set<Coord> := {};
    ghost var last: set<Coord> := {};
    while placed < mines && used < |draws|
      invariant used <= |draws| && drawn == Drawn(draws[..used])
      invariant MarksMines(b, drawn)
      invariant placed == |drawn| <= mines
      invariant used > 0 ==> last == Drawn(draws[..used - 1]) && |last| < mines
      invariant forall i, j :: 0 <= i < b.Length0 && 0 <= j < b.Length1 && b[i, j] != Mine ==>
        b[i, j] == old(b[i, j])
      decreases |draws| - used
    {
      var p := draws[used];
      DrawnSnoc(draws, used);
      var added := PlaceAt(b, drawn, p);
      if added {
        placed := placed + 1;
        assert |drawn + {p}| == |drawn| + 1;
      } else {
        assert drawn + {p} == drawn;
      }
      last, drawn := drawn, drawn + {p};
      used := used + 1;
    }
  }

  /** Puts a mine at `p` unless one is there already; says whether it added one. */
  method PlaceAt(b: array2<Cell>, ghost marked: set<Coord>, p: Coord) returns (added: bool)
    requires 0 <= p.0 < b.Length0 && 0 <= p.1 < b.Length1
    requires MarksMines(b, marked)
    modifies b
    ensures MarksMines(b, marked + {p})
    ensures added <==> p !in marked
    ensures forall i, j :: 0 <= i < b.Length0 && 0 <= j < b.Length1 && b[i, j] != Mine ==>
      b[i, j] == old(b[i, j])
  {
    added := b[p.0, p.1] != Mine;
    if added {
      b[p.0, p.1] := Mine;
    }
  }

  /** Drawing one more position adds it to the drawn set. */
  lemma DrawnSnoc(draws: seq<Coord>, n: nat)
    requires n < |draws|
    ensures Drawn(draws[..n + 1]) == Drawn(draws[..n]) + {draws[n]}
  {
    assert draws[..n + 1] == draws[..n] + [draws[n]];
  }

  /** A set that marks the mines of `b` is its set of mine positions. */
  lemma MarkedIsMines(b: array2<Cell>, mines: set<Coord>)
    requires MarksMines(b, mines)
    ensures Mines(b) == mines
  {
    forall p | p in mines ensures p in Mines(b) {
      MineAt(b, p.0, p.1);
    }
  }

  /**
    `placed` is what rejection sampling over `draws` places when it aims at
    `mines` mines: the distinct positions of the shortest prefix of the
    draws that holds `mines` of them, or of all the draws when none does.
   */
  ghost predicate SampledFrom(draws: seq<Coord>, mines: nat, placed: set<Coord>)
  {
    exists n: nat :: SampledPrefix(draws, mines, placed, n)
  }

  /** The prefix of length `n` is the one the rejection loop consumes, and `placed` is its set. */
  ghost predicate SampledPrefix(draws: seq<Coord>, mines: nat, placed: set<Coord>, n: nat)
  {
    && n <= |draws|
    && placed == Drawn(draws[..n])
    && (n > 0 ==> |Drawn(draws[..n - 1])| < mines)
    && (|placed| == mines || n == |draws|)
  }

  /** A longer prefix of the draws holds every position a shorter one does. */
  lemma DrawnPrefix(draws: seq<Coord>, i: nat, j: nat)
    requires i <= j <= |draws|
    ensures Drawn(draws[..i]) <= Drawn(draws[..j])
  {
    forall p | p in Drawn(draws[..i]) ensures p in Drawn(draws[..j]) {
      var k :| 0 <= k < i && draws[..i][k] == p;
      assert draws[..j][k] == p;
    }
  }

  /** The draws determine the placed mines: rejection sampling has a single outcome. */
  lemma SampledUnique(draws: seq<Coord>, mines: nat, a: set<Coord>, b: set<Coord>)
    requires SampledFrom(draws, mines, a) && SampledFrom(draws, mines, b)
    ensures a == b
  {
    var n: nat :| SampledPrefix(draws, mines, a, n);
    var m: nat :| SampledPrefix(draws, mines, b, m);
    if n < m {
      DrawnPrefix(draws, n, m - 1);
      SubsetNoLarger(Drawn(draws[..n]), Drawn(draws[..m - 1]));
    } else if m < n {
      DrawnPrefix(draws, m, n - 1);
      SubsetNoLarger(Drawn(draws[..m]), Drawn(draws[..n - 1]));
    }
  }

  /**
    Builds the board of a new game: `mines` mines placed from the draws,
    then every other cell numbered with its neighbouring mines.
   */
  method NewBoard(cfg: Config, draws: seq<Coord>) returns (b: array2<Cell>)
    requires cfg.mines < cfg.rows * cfg.cols
    requires forall k :: 0 <= k < |draws| ==> 0 <= draws[k].0 < cfg.rows && 0 <= draws[k].1 < cfg.cols
    ensures fresh(b) && b.Length0 == cfg.rows && b.Length1 == cfg.cols
    ensures MarksMines(b, Mines(b)) && NumbersCorrect(b)
    ensures Mines(b) <= Drawn(draws)
    ensures |Mines(b)| == cfg.mines || Mines(b) == Drawn(draws)
    ensures SampledFrom(draws, cfg.mines, Mines(b))
    ensures Cells(cfg.rows, cfg.cols) - Mines(b) != {}
  {
    b := new Cell[cfg.rows, cfg.cols]((i, j) => Num(0));
    var placed, used := PlaceMines(b, cfg.mines, draws);
    MarkedIsMines(b, Drawn(draws[..used]));
    assert draws[..used] == draws ==> Mines(b) == Drawn(draws);
    assert SampledPrefix(draws, cfg.mines, Mines(b), used);
    FillNumbers(b);
    MinesMarked(b);
    SomeCellFree(cfg.rows, cfg.cols, Mines(b));
  }

  /** The mines counted so far by the neighbour loop, which has reached offset (dr, dc). */
  ghost function CountedSoFar(mines: set<Coord>, r: int, c: int, dr: int, dc: int): set<Coord>
  {
    set q | q in mines && Scanned(q, r, c, dr, dc)
  }

  /** `q` lies in the 3 x 3 block around (r, c) at an offset the loop has passed. */
  predicate Scanned(q: Coord, r: int, c: int, dr: int, dc: int)
  {
    -1 <= q.0 - r <= 1 && -1 <= q.1 - c <= 1 && Precedes((q.0 - r, q.1 - c), dr, dc)
  }

  lemma CountedStep(mines: set<Coord>, r: int, c: int, dr: int, dc: int)
    requires -1 <= dr <= 1 && -1 <= dc <= 1
    ensures |CountedSoFar(mines, r, c, dr, dc + 1)| ==
      |CountedSoFar(mines, r, c, dr, dc)| + (if (r + dr, c + dc) in mines then 1 else 0)
  {
    var p := (r + dr, c + dc);
    if p in mines {
      assert CountedSoFar(mines, r, c, dr, dc + 1) == CountedSoFar(mines, r, c, dr, dc) + {p};
    } else {
      assert CountedSoFar(mines, r, c, dr, dc + 1) == CountedSoFar(mines, r, c, dr, dc);
    }
  }

  lemma CountedNextRow(mines: set<Coord>, r: int, c: int, dr: int)
    ensures CountedSoFar(mines, r, c, dr, 2) == CountedSoFar(mines, r, c, dr + 1, -1)
  {
  }

  lemma CountedAll(mines: set<Coord>, r: int, c: int)
    requires (r, c) !in mines
    ensures CountedSoFar(mines, r, c, 2, -1) == MinesAround(mines, (r, c))
  {
  }

  lemma MineAt(b: array2<Cell>, i: int, j: int)
    ensures (i, j) in Mines(b) <==> 0 <= i < b.Length0 && 0 <= j < b.Length1 && b[i, j] == Mine
  {
  }

  /** Counts the mines around a non-mine cell, scanning the 3 x 3 block it centres. */
  method CountAdjacentMines(b: array2<Cell>, r: int, c: int) returns (count: nat)
    requires 0 <= r < b.Length0 && 0 <= c < b.Length1 && b[r, c] != Mine
    ensures count == |MinesAround(Mines(b), (r, c))|
  {
    ghost var mines := Mines(b);
    count := 0;
    for dr := -1 to 2
      invariant count == |CountedSoFar(mines, r, c, dr, -1)|
    {
      for dc := -1 to 2
        invariant count == |CountedSoFar(mines, r, c, dr, dc)|
      {
        var nr, nc := r + dr, c + dc;
        CountedStep(mines, r, c, dr, dc);
        MineAt(b, nr, nc);
        if nr >= 0 && nr < b.Length0 && nc >= 0 && nc < b.Length1 && b[nr, nc] == Mine {
          count := count + 1;
        }
      }
      CountedNextRow(mines, r, c, dr);
    }
    MineAt(b, r, c);
    CountedAll(mines, r, c);
  }

  /** Writes each non-mine cell's neighbour count; the mines stay where they are. */
  method FillNumbers(b: array2<Cell>)
    modifies b
    ensures Mines(b) == old(Mines(b))
    ensures NumbersCorrect(b)
  {
    ghost var mines := Mines(b);
    for r := 0 to b.Length0
      invariant Mines(b) == mines
      invariant forall i, j :: 0 <= i < r && 0 <= j < b.Length1 && b[i, j] != Mine ==>
        b[i, j] == Num(|MinesAround(mines, (i, j))|)
    {
      for c := 0 to b.Length1
        invariant Mines(b) == mines
        invariant forall i, j :: 0 <= i < b.Length0 && 0 <= j < b.Length1 && Precedes((i, j), r, c) && b[i, j] != Mine ==>
          b[i, j] == Num(|MinesAround(mines, (i, j))|)
      {
        if b[r, c] == Mine {
          continue;
        }
        var count := CountAdjacentMines(b, r, c);
        b[r, c] := Num(count);
        assert Mines(b) == mines;
      }
    }
  }
}
