/** Optional values, used for the parser's split and the lazily created board. */
module Options {
  datatype Option<+T> = None | Some(value: T)
}

/** Rectangular grids indexed by (row, column), and the 8-neighbourhood on them. */
module Grid {

  /** A cell position, 0-based, in (row, column) order. */
  datatype Pos = Pos(row: int, col: int)

  /** g has h rows of w cells each. */
  predicate Rect<T>(g: seq<seq<T>>, h: int, w: int) {
    |g| == h && 0 <= w && forall r :: 0 <= r < h ==> |g[r]| == w
  }

  predicate InBoard(p: Pos, h: int, w: int) {
    0 <= p.row < h && 0 <= p.col < w
  }

  /** Chebyshev distance at most one: p and q are the same cell or 8-neighbours. */
  predicate Near(p: Pos, q: Pos) {
    -1 <= p.row - q.row <= 1 && -1 <= p.col - q.col <= 1
  }

  /** The 3x3 window centred on p, not clipped to any board. */
  function NearCells(p: Pos): (s: set<Pos>)
    ensures forall q :: q in s <==> Near(p, q)
  {
    set r, c | p.row - 1 <= r <= p.row + 1 && p.col - 1 <= c <= p.col + 1 :: Pos(r, c)
  }

  /** Every cell of an h x w board. */
  function BoardCells(h: int, w: int): (s: set<Pos>)
    ensures forall q :: q in s <==> InBoard(q, h, w)
  {
    set r, c | 0 <= r < h && 0 <= c < w :: Pos(r, c)
  }

  /** g with the single cell p replaced by x. */
  function Set<T>(g: seq<seq<T>>, p: Pos, x: T, h: int, w: int): (g': seq<seq<T>>)
    requires Rect(g, h, w) && InBoard(p, h, w)
    ensures Rect(g', h, w)
    ensures g'[p.row][p.col] == x
    ensures forall r, c :: 0 <= r < h && 0 <= c < w && Pos(r, c) != p ==> g'[r][c] == g[r][c]
  {
    g[p.row := g[p.row][p.col := x]]
  }

  /** Two grids of the same shape that agree cell by cell are equal. */
  lemma Extensionality<T>(a: seq<seq<T>>, b: seq<seq<T>>, h: int, w: int)
    requires Rect(a, h, w) && Rect(b, h, w)
    requires forall r, c :: 0 <= r < h && 0 <= c < w ==> a[r][c] == b[r][c]
    ensures a == b
  {
    forall r | 0 <= r < h
      ensures a[r] == b[r]
    {
      assert forall c :: 0 <= c < w ==> a[r][c] == b[r][c];
    }
  }
}
