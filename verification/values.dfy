/**
 * The value grid: the mine grid convolved with a 3x3 kernel of ones (cells
 * off the board count as zero), then -1 written over every mine cell.
 */
module Values {
  import opened Grid

  /** The value that marks a mine cell; no neighbour count can equal it. */
  const MineValue := -1

  /** 1 for a mine on the board at (r, c), 0 otherwise, including off the board. */
  function MineAt(g: seq<seq<bool>>, h: int, w: int, r: int, c: int): int
    requires Rect(g, h, w)
  {
    if 0 <= r < h && 0 <= c < w && g[r][c] then 1 else 0
  }

  /** The all-ones 3x3 kernel applied at (r, c): mines in the window, centre included. */
  function Window(g: seq<seq<bool>>, h: int, w: int, r: int, c: int): int
    requires Rect(g, h, w)
  {
    MineAt(g, h, w, r - 1, c - 1) + MineAt(g, h, w, r - 1, c) + MineAt(g, h, w, r - 1, c + 1) +
    MineAt(g, h, w, r, c - 1) + MineAt(g, h, w, r, c) + MineAt(g, h, w, r, c + 1) +
    MineAt(g, h, w, r + 1, c - 1) + MineAt(g, h, w, r + 1, c) + MineAt(g, h, w, r + 1, c + 1)
  }

  /**
   * The eight neighbours of p, in reading order; some may lie off the board.
   * The count below walks a sequence, one term per neighbour, so this is
   * the listed form of the window NearCells(p) without its centre
   * (NeighboursAreNearCells).
   */
  function Neighbours(p: Pos): seq<Pos> {
    var r, c := p.row, p.col;
    [Pos(r - 1, c - 1), Pos(r - 1, c), Pos(r - 1, c + 1),
     Pos(r, c - 1), Pos(r, c + 1),
     Pos(r + 1, c - 1), Pos(r + 1, c), Pos(r + 1, c + 1)]
  }

  /** The listed neighbours are exactly the window's cells other than the centre, each once. */
  lemma NeighboursAreNearCells(p: Pos)
    ensures forall q :: q in Neighbours(p) <==> q in NearCells(p) && q != p
    ensures |Neighbours(p)| == 8 && forall i, j :: 0 <= i < j < 8 ==> Neighbours(p)[i] != Neighbours(p)[j]
  {
  }

  /** How many of the listed cells are on the board and hold a mine. */
  function CountMines(g: seq<seq<bool>>, h: int, w: int, cells: seq<Pos>): (n: nat)
    requires Rect(g, h, w)
    ensures n <= |cells|
  {
    if |cells| == 0 then 0
    else (if InBoard(cells[0], h, w) && g[cells[0].row][cells[0].col] then 1 else 0)
         + CountMines(g, h, w, cells[1..])
  }

  /** The value grid of mine grid g. */
  function ValueGrid(g: seq<seq<bool>>, h: int, w: int): (v: seq<seq<int>>)
    requires Rect(g, h, w)
    ensures Rect(v, h, w)
    ensures forall r, c :: 0 <= r < h && 0 <= c < w ==> (v[r][c] == MineValue <==> g[r][c])
    ensures forall r, c :: 0 <= r < h && 0 <= c < w && !g[r][c] ==>
              v[r][c] == CountMines(g, h, w, Neighbours(Pos(r, c))) && 0 <= v[r][c] <= 8
  {
    forall r, c | 0 <= r < h && 0 <= c < w && !g[r][c]
      ensures Window(g, h, w, r, c) == CountMines(g, h, w, Neighbours(Pos(r, c)))
    {
      WindowCountsNeighbours(g, h, w, Pos(r, c));
    }
    seq(h, r requires 0 <= r < h =>
      seq(w, c requires 0 <= c < w => if g[r][c] then MineValue else Window(g, h, w, r, c)))
  }

  /** One step of the count: the first listed cell, then the rest. */
  lemma CountStep(g: seq<seq<bool>>, h: int, w: int, s: seq<Pos>, k: int)
    requires Rect(g, h, w) && 0 <= k < |s|
    ensures CountMines(g, h, w, s[k..]) == MineAt(g, h, w, s[k].row, s[k].col) + CountMines(g, h, w, s[k + 1..])
  {
    assert s[k..][1..] == s[k + 1..];
  }

  /** Around a mine-free cell, the window sum is the number of mines among the eight neighbours. */
  lemma WindowCountsNeighbours(g: seq<seq<bool>>, h: int, w: int, p: Pos)
    requires Rect(g, h, w) && InBoard(p, h, w) && !g[p.row][p.col]
    ensures Window(g, h, w, p.row, p.col) == CountMines(g, h, w, Neighbours(p))
  {
    var s := Neighbours(p);
    CountStep(g, h, w, s, 0);
    CountStep(g, h, w, s, 1);
    CountStep(g, h, w, s, 2);
    CountStep(g, h, w, s, 3);
    CountStep(g, h, w, s, 4);
    CountStep(g, h, w, s, 5);
    CountStep(g, h, w, s, 6);
    CountStep(g, h, w, s, 7);
    assert s[8..] == [];
    assert s[0..] == s;
  }

  /** A window summing to zero holds no mine. */
  lemma EmptyWindow(g: seq<seq<bool>>, h: int, w: int, p: Pos, q: Pos)
    requires Rect(g, h, w) && InBoard(q, h, w) && Near(p, q)
    requires Window(g, h, w, p.row, p.col) == 0
    ensures !g[q.row][q.col]
  {
    assert MineAt(g, h, w, q.row, q.col) == 0;
  }

  /** A zero-valued cell has no mine within one step, itself included. */
  lemma ZeroHasNoMineNear(g: seq<seq<bool>>, h: int, w: int, p: Pos, q: Pos)
    requires Rect(g, h, w) && InBoard(p, h, w) && InBoard(q, h, w)
    requires ValueGrid(g, h, w)[p.row][p.col] == 0
    requires Near(p, q)
    ensures !g[q.row][q.col]
  {
    var v := ValueGrid(g, h, w);
    assert !g[p.row][p.col] && v[p.row][p.col] == Window(g, h, w, p.row, p.col);
    EmptyWindow(g, h, w, p, q);
  }

  /** Conversely, a cell with no mine within one step, itself included, has value 0. */
  lemma NoMineNearIsZero(g: seq<seq<bool>>, h: int, w: int, p: Pos)
    requires Rect(g, h, w) && InBoard(p, h, w)
    requires forall r, c :: 0 <= r < h && 0 <= c < w && Near(Pos(r, c), p) ==> !g[r][c]
    ensures ValueGrid(g, h, w)[p.row][p.col] == 0
  {
    var r, c := p.row, p.col;
    ClearCell(g, h, w, p, r - 1, c - 1);
    ClearCell(g, h, w, p, r - 1, c);
    ClearCell(g, h, w, p, r - 1, c + 1);
    ClearCell(g, h, w, p, r, c - 1);
    ClearCell(g, h, w, p, r, c);
    ClearCell(g, h, w, p, r, c + 1);
    ClearCell(g, h, w, p, r + 1, c - 1);
    ClearCell(g, h, w, p, r + 1, c);
    ClearCell(g, h, w, p, r + 1, c + 1);
    assert Window(g, h, w, r, c) == 0;
  }

  lemma ClearCell(g: seq<seq<bool>>, h: int, w: int, p: Pos, r: int, c: int)
    requires Rect(g, h, w)
    requires forall r, c :: 0 <= r < h && 0 <= c < w && Near(Pos(r, c), p) ==> !g[r][c]
    requires Near(Pos(r, c), p)
    ensures MineAt(g, h, w, r, c) == 0
  {
  }

  /** Without mines every cell has value 0. */
  lemma NoMinesAllZero(g: seq<seq<bool>>, h: int, w: int)
    requires Rect(g, h, w)
    requires forall r, c :: 0 <= r < h && 0 <= c < w ==> !g[r][c]
    ensures forall r, c :: 0 <= r < h && 0 <= c < w ==> ValueGrid(g, h, w)[r][c] == 0
  {
    var v := ValueGrid(g, h, w);
    forall r, c | 0 <= r < h && 0 <= c < w
      ensures v[r][c] == 0
    {
      assert v[r][c] == Window(g, h, w, r, c);
    }
  }

  /** With a single mine at m, exactly the cells next to m have value 1 and all other free cells 0. */
  lemma SingleMine(g: seq<seq<bool>>, h: int, w: int, m: Pos)
    requires Rect(g, h, w) && InBoard(m, h, w)
    requires forall r, c :: 0 <= r < h && 0 <= c < w ==> (g[r][c] <==> Pos(r, c) == m)
    ensures forall r, c :: 0 <= r < h && 0 <= c < w && Pos(r, c) != m ==>
              ValueGrid(g, h, w)[r][c] == if Near(Pos(r, c), m) then 1 else 0
  {
    var v := ValueGrid(g, h, w);
    forall r, c | 0 <= r < h && 0 <= c < w && Pos(r, c) != m
      ensures v[r][c] == if Near(Pos(r, c), m) then 1 else 0
    {
      assert v[r][c] == Window(g, h, w, r, c);
      WindowOfSingle(g, h, w, m, r, c);
    }
  }

  lemma WindowOfSingle(g: seq<seq<bool>>, h: int, w: int, m: Pos, r: int, c: int)
    requires Rect(g, h, w) && InBoard(m, h, w)
    requires forall r, c :: 0 <= r < h && 0 <= c < w ==> (g[r][c] <==> Pos(r, c) == m)
    ensures Window(g, h, w, r, c) == if Near(Pos(r, c), m) then 1 else 0
  {
    MineAtSingle(g, h, w, m, r - 1, c - 1);
    MineAtSingle(g, h, w, m, r - 1, c);
    MineAtSingle(g, h, w, m, r - 1, c + 1);
    MineAtSingle(g, h, w, m, r, c - 1);
    MineAtSingle(g, h, w, m, r, c);
    MineAtSingle(g, h, w, m, r, c + 1);
    MineAtSingle(g, h, w, m, r + 1, c - 1);
    MineAtSingle(g, h, w, m, r + 1, c);
    MineAtSingle(g, h, w, m, r + 1, c + 1);
  }

  lemma MineAtSingle(g: seq<seq<bool>>, h: int, w: int, m: Pos, r: int, c: int)
    requires Rect(g, h, w) && InBoard(m, h, w)
    requires forall r, c :: 0 <= r < h && 0 <= c < w ==> (g[r][c] <==> Pos(r, c) == m)
    ensures MineAt(g, h, w, r, c) == if Pos(r, c) == m then 1 else 0
  {
  }
}
