/**
 * Mine placement. The program excludes nine flattened indices around the first
 * click, then takes the first `mines` entries of a random permutation of the
 * remaining indices. The permutation is a parameter here: any duplicate-free
 * sequence whose elements are exactly the eligible indices.
 */
module Board {
  import opened Grid
  import opened Counting
  import opened Setup

  /** Row-major flattened index of a cell. */
  function Flat(r: int, c: int, w: int): int { r * w + c }

  /**
   * The nine indices the program avoids: offsets -w-1, -w, -w+1, -1, 0, 1,
   * w-1, w, w+1 from the first click's flattened index. They are not clipped to
   * the row, so at a row's end they wrap into the neighbouring row.
   */
  function AvoidIndices(w: int, avoid: Pos): set<int> {
    var v := Flat(avoid.row, avoid.col, w);
    {v - w - 1, v - w, v - w + 1, v - 1, v, v + 1, v + w - 1, v + w, v + w + 1}
  }

  /** Indices of the board that the permutation draws from. */
  function Eligible(w: int, h: int, avoid: Pos): set<int> {
    Interval(0, w * h) - AvoidIndices(w, avoid)
  }

  predicate PermutationOf(perm: seq<int>, s: set<int>) {
    Distinct(perm) && Elems(perm) == s
  }

  /** The slice perm[:n]: the first n entries, or all but the last -n when n is negative. */
  function Prefix(perm: seq<int>, n: int): (p: seq<int>)
    ensures n >= 0 ==> |p| == Min(n, |perm|)
    ensures |p| <= |perm| && forall k :: 0 <= k < |p| ==> p[k] == perm[k]
  {
    if n >= 0 then perm[..Min(n, |perm|)] else perm[..Max(0, |perm| + n)]
  }

  /** The grid with a mine on exactly the cells whose flattened index is among chosen. */
  function Place(w: nat, h: nat, chosen: seq<int>): (g: seq<seq<bool>>)
    ensures Rect(g, h, w)
  {
    seq(h, r => seq(w, c => Flat(r, c, w) in chosen))
  }

  /** Flattened indices of the mine cells of g. */
  function MineIndices(g: seq<seq<bool>>, h: int, w: int): set<int>
    requires Rect(g, h, w)
  {
    set r, c | 0 <= r < h && 0 <= c < w && g[r][c] :: Flat(r, c, w)
  }

  /** The generator as the program runs it. */
  function InitMap(w: int, h: int, mines: int, avoid: Pos, perm: seq<int>): (g: seq<seq<bool>>)
    requires InBoard(avoid, h, w)
    requires PermutationOf(perm, Eligible(w, h, avoid))
    ensures Rect(g, h, w)
    ensures forall r, c :: 0 <= r < h && 0 <= c < w && Near(Pos(r, c), avoid) ==> !g[r][c]
    ensures MineIndices(g, h, w) == Elems(Prefix(perm, mines))
    ensures mines >= 0 ==> |MineIndices(g, h, w)| == Min(mines, |Eligible(w, h, avoid)|)
  {
    NotChosenNearAvoid(w, h, mines, avoid, perm);
    PlacePrefix(w, h, mines, perm);
    DistinctCard(perm);
    Place(w, h, Prefix(perm, mines))
  }

  lemma NotChosenNearAvoid(w: int, h: int, mines: int, avoid: Pos, perm: seq<int>)
    requires PermutationOf(perm, Eligible(w, h, avoid))
    ensures forall r, c :: Near(Pos(r, c), avoid) ==> Flat(r, c, w) !in Prefix(perm, mines)
  {
    var p := Prefix(perm, mines);
    forall r, c | Near(Pos(r, c), avoid)
      ensures Flat(r, c, w) !in p
    {
      NearIsAvoided(w, avoid, Pos(r, c));
      forall k | 0 <= k < |p|
        ensures p[k] != Flat(r, c, w)
      {
        assert p[k] == perm[k] && perm[k] in Elems(perm);
      }
    }
  }

  /** Every cell within one step of the first click, flattened, is among the avoided indices. */
  lemma NearIsAvoided(w: int, avoid: Pos, p: Pos)
    requires Near(p, avoid)
    ensures Flat(p.row, p.col, w) in AvoidIndices(w, avoid)
  {
    var v := Flat(avoid.row, avoid.col, w);
    var dr, dc := p.row - avoid.row, p.col - avoid.col;
    assert Flat(p.row, p.col, w) == v + dr * w + dc;
    assert dr == -1 || dr == 0 || dr == 1;
  }

  /** 0 <= i < w * h decomposes into a cell (i / w, i % w) of the board. */
  lemma Unflatten(i: int, w: int, h: int)
    requires w > 0 && 0 <= i < w * h
    ensures 0 <= i / w < h && 0 <= i % w < w && Flat(i / w, i % w, w) == i
  {
  }

  /** With chosen indices all on the board, the mine cells are exactly the chosen ones. */
  lemma PlaceMines(w: int, h: int, chosen: seq<int>)
    requires w > 0 && h >= 0
    requires forall k :: 0 <= k < |chosen| ==> 0 <= chosen[k] < w * h
    ensures MineIndices(Place(w, h, chosen), h, w) == Elems(chosen)
  {
    var g := Place(w, h, chosen);
    forall i | i in Elems(chosen)
      ensures i in MineIndices(g, h, w)
    {
      Unflatten(i, w, h);
      var r, c := i / w, i % w;
      assert g[r][c];
    }
  }

  /** Placing a duplicate-free prefix of on-board indices puts one mine per entry. */
  lemma PlacePrefix(w: int, h: int, mines: int, perm: seq<int>)
    requires w > 0 && h >= 0
    requires Distinct(perm) && Elems(perm) <= Interval(0, w * h)
    ensures MineIndices(Place(w, h, Prefix(perm, mines)), h, w) == Elems(Prefix(perm, mines))
    ensures |MineIndices(Place(w, h, Prefix(perm, mines)), h, w)| == |Prefix(perm, mines)|
  {
    var p := Prefix(perm, mines);
    forall k | 0 <= k < |p|
      ensures 0 <= p[k] < w * h
    {
      assert p[k] == perm[k];
      assert perm[k] in Elems(perm);
    }
    PlaceMines(w, h, p);
    assert Distinct(p);
    DistinctCard(p);
  }

  // ---------------------------------------------------------------------------
  // The generator with the first click's neighbourhood clipped to the board.
  // ---------------------------------------------------------------------------

  /** Flattened indices of the board cells within one step of avoid, without wrap-around. */
  function SafeZone(w: int, h: int, avoid: Pos): set<int> {
    set r, c | 0 <= r < h && 0 <= c < w && Near(Pos(r, c), avoid) :: Flat(r, c, w)
  }

  function SafeEligible(w: int, h: int, avoid: Pos): set<int> {
    Interval(0, w * h) - SafeZone(w, h, avoid)
  }

  /** The generator with the intended exclusion: only the clipped 3x3 window around the first click. */
  function InitMapClipped(w: int, h: int, mines: int, avoid: Pos, perm: seq<int>): (g: seq<seq<bool>>)
    requires InBoard(avoid, h, w)
    requires PermutationOf(perm, SafeEligible(w, h, avoid))
    ensures Rect(g, h, w)
    ensures forall r, c :: 0 <= r < h && 0 <= c < w && Near(Pos(r, c), avoid) ==> !g[r][c]
    ensures CheckSize(w, h, mines) == Accepted ==> |MineIndices(g, h, w)| == mines
  {
    NotChosenInSafeZone(w, h, mines, avoid, perm);
    ClippedPlacesAll(w, h, mines, avoid, perm);
    Place(w, h, Prefix(perm, mines))
  }

  lemma NotChosenInSafeZone(w: int, h: int, mines: int, avoid: Pos, perm: seq<int>)
    requires PermutationOf(perm, SafeEligible(w, h, avoid))
    ensures forall r, c :: 0 <= r < h && 0 <= c < w && Near(Pos(r, c), avoid) ==> Flat(r, c, w) !in Prefix(perm, mines)
  {
    var p := Prefix(perm, mines);
    forall r, c | 0 <= r < h && 0 <= c < w && Near(Pos(r, c), avoid)
      ensures Flat(r, c, w) !in p
    {
      assert Flat(r, c, w) in SafeZone(w, h, avoid);
      forall k | 0 <= k < |p|
        ensures p[k] != Flat(r, c, w)
      {
        assert p[k] == perm[k] && perm[k] in Elems(perm);
      }
    }
  }

  /** d * w is at least w in size unless d is zero. */
  lemma {:induction false} MulSign(d: int, w: int)
    requires w >= 0
    ensures d >= 1 ==> d * w >= w
    ensures d <= -1 ==> d * w <= -w
    decreases if d < 0 then -d else d
  {
    if d > 1 {
      MulSign(d - 1, w);
      assert d * w == (d - 1) * w + w;
    } else if d < -1 {
      MulSign(d + 1, w);
      assert d * w == (d + 1) * w - w;
    }
  }

  /** A cell's flattened index determines the cell. */
  lemma FlatInjective(r: int, c: int, r': int, c': int, w: int)
    requires 0 <= c < w && 0 <= c' < w
    requires Flat(r, c, w) == Flat(r', c', w)
    ensures r == r' && c == c'
  {
    assert (r - r') * w == c' - c;
    MulSign(r - r', w);
  }

  /** The clipped zone excludes exactly the cells near the first click. */
  lemma SafeZoneExact(w: int, h: int, avoid: Pos, i: int)
    requires w > 0 && 0 <= i < w * h
    ensures i in SafeZone(w, h, avoid) <==> Near(Pos(i / w, i % w), avoid)
  {
    Unflatten(i, w, h);
    if i in SafeZone(w, h, avoid) {
      var r, c :| 0 <= r < h && 0 <= c < w && Near(Pos(r, c), avoid) && Flat(r, c, w) == i;
      FlatInjective(r, c, i / w, i % w, w);
    }
  }

  /** Every cell of the board has a flattened index in 0 .. w * h - 1. */
  lemma FlatOnBoard(r: int, c: int, w: int, h: int)
    requires 0 <= r < h && 0 <= c < w
    ensures 0 <= Flat(r, c, w) < w * h
  {
    MulSign(h - 1 - r, w);
    assert (h - 1) * w == r * w + (h - 1 - r) * w;
    assert h * w == (h - 1) * w + w;
    MulSign(r, w);
  }

  /** The flattened cells of row r from column c0 to column c1: one interval, empty off the board. */
  function RowSpan(w: int, h: int, r: int, c0: int, c1: int): (s: set<int>)
    ensures 0 <= r < h && c0 <= c1 ==> |s| == c1 - c0 + 1
  {
    if 0 <= r < h then Interval(Flat(r, c0, w), Flat(r, c1, w) + 1) else {}
  }

  lemma CellInRowSpan(w: int, h: int, r: int, c: int, c0: int, c1: int)
    requires 0 <= r < h && c0 <= c <= c1
    ensures Flat(r, c, w) in RowSpan(w, h, r, c0, c1)
  {
  }

  /** The clipped window lies in the spans of the three rows around avoid, columns c0 to c1. */
  lemma SafeZoneInRows(w: int, h: int, avoid: Pos, c0: int, c1: int)
    requires c0 == Max(0, avoid.col - 1) && c1 == Min(w - 1, avoid.col + 1)
    ensures SafeZone(w, h, avoid) <=
              RowSpan(w, h, avoid.row - 1, c0, c1) + RowSpan(w, h, avoid.row, c0, c1) + RowSpan(w, h, avoid.row + 1, c0, c1)
  {
    var a := RowSpan(w, h, avoid.row - 1, c0, c1);
    var b := RowSpan(w, h, avoid.row, c0, c1);
    var d := RowSpan(w, h, avoid.row + 1, c0, c1);
    forall i | i in SafeZone(w, h, avoid)
      ensures i in a + b + d
    {
      var r, c :| 0 <= r < h && 0 <= c < w && Near(Pos(r, c), avoid) && Flat(r, c, w) == i;
      SafeCellInRows(w, h, avoid, c0, c1, r, c);
    }
  }

  lemma SafeCellInRows(w: int, h: int, avoid: Pos, c0: int, c1: int, r: int, c: int)
    requires c0 == Max(0, avoid.col - 1) && c1 == Min(w - 1, avoid.col + 1)
    requires 0 <= r < h && 0 <= c < w && Near(Pos(r, c), avoid)
    ensures Flat(r, c, w) in
              RowSpan(w, h, avoid.row - 1, c0, c1) + RowSpan(w, h, avoid.row, c0, c1) + RowSpan(w, h, avoid.row + 1, c0, c1)
  {
    NearInWindow(w, avoid, c0, c1, r, c);
    var i := Flat(r, c, w);
    CellInRowSpan(w, h, r, c, c0, c1);
    if r == avoid.row - 1 {
      assert i in RowSpan(w, h, avoid.row - 1, c0, c1);
    } else if r == avoid.row {
      assert i in RowSpan(w, h, avoid.row, c0, c1);
    } else {
      assert i in RowSpan(w, h, avoid.row + 1, c0, c1);
    }
  }

  /** A cell on the board near avoid lies in the clipped 3 x 3 window around it. */
  lemma NearInWindow(w: int, avoid: Pos, c0: int, c1: int, r: int, c: int)
    requires c0 == Max(0, avoid.col - 1) && c1 == Min(w - 1, avoid.col + 1)
    requires 0 <= c < w && Near(Pos(r, c), avoid)
    ensures c0 <= c <= c1 && avoid.row - 1 <= r <= avoid.row + 1
  {
  }

  /** The clipped window has at most 3 * min(3, w, h) cells. */
  lemma SafeZoneSize(w: int, h: int, avoid: Pos)
    requires InBoard(avoid, h, w)
    ensures |SafeZone(w, h, avoid)| <= 3 * Min3(3, w, h)
  {
    var c0, c1 := Max(0, avoid.col - 1), Min(w - 1, avoid.col + 1);
    var nc := c1 - c0 + 1;
    var a := RowSpan(w, h, avoid.row - 1, c0, c1);
    var b := RowSpan(w, h, avoid.row, c0, c1);
    var d := RowSpan(w, h, avoid.row + 1, c0, c1);
    SafeZoneInRows(w, h, avoid, c0, c1);
    SubsetCard(SafeZone(w, h, avoid), a + b + d);
    assert |a + b + d| <= |a| + |b| + |d|;
    assert |a| <= nc && |b| == nc && |d| <= nc;
    // Rows off the board contribute nothing, so at most min(3, h) rows count.
    assert h == 1 ==> |a| == 0 && |d| == 0;
    assert h == 2 ==> |a| == 0 || |d| == 0;
  }

  /** The clipped window lies on the board. */
  lemma SafeZoneOnBoard(w: int, h: int, avoid: Pos)
    ensures SafeZone(w, h, avoid) <= Interval(0, w * h)
  {
    forall i | i in SafeZone(w, h, avoid)
      ensures 0 <= i < w * h
    {
      var r, c :| 0 <= r < h && 0 <= c < w && Near(Pos(r, c), avoid) && Flat(r, c, w) == i;
      FlatOnBoard(r, c, w, h);
    }
  }

  /**
   * After an accepted size check the clipped generator always finds enough
   * eligible cells, so it places exactly the requested number of mines.
   */
  lemma ClippedPlacesAll(w: int, h: int, mines: int, avoid: Pos, perm: seq<int>)
    requires InBoard(avoid, h, w)
    requires PermutationOf(perm, SafeEligible(w, h, avoid))
    ensures CheckSize(w, h, mines) == Accepted ==> |MineIndices(Place(w, h, Prefix(perm, mines)), h, w)| == mines
  {
    if CheckSize(w, h, mines) == Accepted {
      SafeZoneOnBoard(w, h, avoid);
      DifferenceCard(Interval(0, w * h), SafeZone(w, h, avoid));
      SafeZoneSize(w, h, avoid);
      DistinctCard(perm);
      assert |perm| >= mines;
      PlacePrefix(w, h, mines, perm);
    }
  }

  /**
   * Away from the left and right edges nothing wraps, so the program's
   * generator and the clipped one draw from the same indices.
   */
  lemma GeneratorsAgreeInside(w: int, h: int, avoid: Pos)
    requires InBoard(avoid, h, w) && 0 < avoid.col < w - 1
    ensures Eligible(w, h, avoid) == SafeEligible(w, h, avoid)
  {
    forall i | 0 <= i < w * h
      ensures i in AvoidIndices(w, avoid) <==> i in SafeZone(w, h, avoid)
    {
      SafeZoneExact(w, h, avoid, i);
      Unflatten(i, w, h);
      if i in AvoidIndices(w, avoid) {
        AvoidedIsNear(w, h, avoid, i);
      }
      if Near(Pos(i / w, i % w), avoid) {
        NearIsAvoided(w, avoid, Pos(i / w, i % w));
      }
    }
  }

  /** Away from the side edges, each avoided index is the flattening of a cell next to the click. */
  lemma AvoidedIsNear(w: int, h: int, avoid: Pos, i: int)
    requires 0 < avoid.col < w - 1 && 0 <= i < w * h && i in AvoidIndices(w, avoid)
    ensures Near(Pos(i / w, i % w), avoid)
  {
    var r, c := avoid.row, avoid.col;
    var v := Flat(r, c, w);
    assert (r - 1) * w == r * w - w && (r + 1) * w == r * w + w;
    if i == v - w - 1 { OffsetIsNear(w, h, avoid, -1, -1, i); }
    else if i == v - w { OffsetIsNear(w, h, avoid, -1, 0, i); }
    else if i == v - w + 1 { OffsetIsNear(w, h, avoid, -1, 1, i); }
    else if i == v - 1 { OffsetIsNear(w, h, avoid, 0, -1, i); }
    else if i == v { OffsetIsNear(w, h, avoid, 0, 0, i); }
    else if i == v + 1 { OffsetIsNear(w, h, avoid, 0, 1, i); }
    else if i == v + w - 1 { OffsetIsNear(w, h, avoid, 1, -1, i); }
    else if i == v + w { OffsetIsNear(w, h, avoid, 1, 0, i); }
    else { OffsetIsNear(w, h, avoid, 1, 1, i); }
  }

  lemma OffsetIsNear(w: int, h: int, avoid: Pos, dr: int, dc: int, i: int)
    requires -1 <= dr <= 1 && -1 <= dc <= 1 && 0 <= avoid.col + dc < w && 0 <= i < w * h
    requires i == Flat(avoid.row + dr, avoid.col + dc, w)
    ensures Near(Pos(i / w, i % w), avoid)
  {
    Unflatten(i, w, h);
    FlatInjective(avoid.row + dr, avoid.col + dc, i / w, i % w, w);
  }

  /**
   * The wrap-around shows on a one-column board: width 1, height 4, one mine,
   * first click on the second row. The avoided offsets reach two rows up and
   * down, so no cell is eligible and no mine is placed, although the size is
   * accepted. The clipped zone leaves the bottom cell eligible.
   */
  lemma NarrowBoardPlacesNoMine(perm: seq<int>)
    requires PermutationOf(perm, Eligible(1, 4, Pos(1, 0)))
    ensures CheckSize(1, 4, 1) == Accepted
    ensures MineIndices(InitMap(1, 4, 1, Pos(1, 0), perm), 4, 1) == {}
    ensures 3 in SafeEligible(1, 4, Pos(1, 0))
  {
    assert AvoidIndices(1, Pos(1, 0)) == {-1, 0, 1, 2, 3};
    assert Eligible(1, 4, Pos(1, 0)) == {};
    SafeZoneExact(1, 4, Pos(1, 0), 3);
  }
}
