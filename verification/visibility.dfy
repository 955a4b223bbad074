/**
 * The visibility grid and the move that changes it. A flag move toggles
 * Hidden and Flagged. A reveal move ignores a Flagged cell, reveals a single
 * nonzero cell, and on a zero cell reveals the 8-connected region of zero cells
 * around it together with a one-cell border, over Flagged cells too.
 */
module Visibility {
  import opened Grid
  import opened Values

  /** Per-cell state; the program encodes Hidden as 0, Revealed as 1 and Flagged as -1. */
  datatype Cell = Hidden | Revealed | Flagged

  /** Flagging swaps Hidden and Flagged and leaves Revealed alone. */
  function Toggle(c: Cell): Cell {
    match c
    case Hidden => Flagged
    case Flagged => Hidden
    case Revealed => Revealed
  }

  predicate IsZero(value: seq<seq<int>>, h: int, w: int, p: Pos)
    requires Rect(value, h, w)
  {
    InBoard(p, h, w) && value[p.row][p.col] == 0
  }

  /** A non-empty walk through zero-valued board cells, each step to an 8-neighbour. */
  ghost predicate ZeroPath(value: seq<seq<int>>, h: int, w: int, path: seq<Pos>)
    requires Rect(value, h, w)
  {
    && |path| > 0
    && (forall i :: 0 <= i < |path| ==> IsZero(value, h, w, path[i]))
    && (forall i :: 0 <= i < |path| - 1 ==> Near(path[i], path[i + 1]))
  }

  /** b lies in the 8-connected component of zero cells that contains a. */
  ghost predicate Reachable(value: seq<seq<int>>, h: int, w: int, a: Pos, b: Pos)
    requires Rect(value, h, w)
  {
    exists path :: ZeroPath(value, h, w, path) && path[0] == a && path[|path| - 1] == b
  }

  /** q is in the component of start dilated by one cell. */
  ghost predicate InClosure(value: seq<seq<int>>, h: int, w: int, start: Pos, q: Pos)
    requires Rect(value, h, w)
  {
    exists p :: Reachable(value, h, w, start, p) && Near(p, q)
  }

  /** The flood reveal as labelling and dilation state it: Revealed on the closure, unchanged elsewhere. */
  ghost function Flood(value: seq<seq<int>>, visible: seq<seq<Cell>>, h: int, w: int, start: Pos): (v: seq<seq<Cell>>)
    requires Rect(value, h, w) && Rect(visible, h, w)
    ensures Rect(v, h, w)
  {
    seq(h, r requires 0 <= r < h =>
      seq(w, c requires 0 <= c < w => if InClosure(value, h, w, start, Pos(r, c)) then Revealed else visible[r][c]))
  }

  /** What one move does to the visibility grid. */
  ghost function Update(value: seq<seq<int>>, visible: seq<seq<Cell>>, h: int, w: int, pos: Pos, flag: bool): (v: seq<seq<Cell>>)
    requires Rect(value, h, w) && Rect(visible, h, w) && InBoard(pos, h, w)
    ensures Rect(v, h, w)
  {
    if flag then Set(visible, pos, Toggle(visible[pos.row][pos.col]), h, w)
    else if visible[pos.row][pos.col] == Flagged then visible
    else if value[pos.row][pos.col] == 0 then Flood(value, visible, h, w, pos)
    else Set(visible, pos, Revealed, h, w)
  }

  /**
   * The zero component of start, by a worklist search: every cell taken off
   * the worklist has its zero-valued neighbours added to the component.
   */
  method Component(value: seq<seq<int>>, h: int, w: int, start: Pos) returns (comp: set<Pos>)
    requires Rect(value, h, w) && IsZero(value, h, w, start)
    ensures forall q :: q in comp <==> Reachable(value, h, w, start, q)
  {
    comp := {start};
    var work := {start};
    ghost var paths: map<Pos, seq<Pos>> := map[start := [start]];
    assert ZeroPath(value, h, w, [start]);
    while work != {}
      invariant work <= comp && comp == paths.Keys
      invariant forall q :: q in comp ==> IsZero(value, h, w, q)
      invariant forall q :: q in paths ==>
                  ZeroPath(value, h, w, paths[q]) && paths[q][0] == start && paths[q][|paths[q]| - 1] == q
      invariant forall q, n :: q in comp && q !in work && Near(q, n) && IsZero(value, h, w, n) ==> n in comp
      decreases BoardCells(h, w) - comp, work
    {
      var p :| p in work;
      work := work - {p};
      var found := set n | n in NearCells(p) && IsZero(value, h, w, n) && n !in comp;
      forall n | n in found
        ensures ZeroPath(value, h, w, paths[p] + [n])
      {
        ExtendPath(value, h, w, paths[p], n);
      }
      paths := paths + map n | n in found :: paths[p] + [n];
      comp := comp + found;
      work := work + found;
    }
    forall q | q in comp
      ensures Reachable(value, h, w, start, q)
    {
      assert ZeroPath(value, h, w, paths[q]);
    }
    forall q | Reachable(value, h, w, start, q)
      ensures q in comp
    {
      var path :| ZeroPath(value, h, w, path) && path[0] == start && path[|path| - 1] == q;
      PathStaysInside(value, h, w, comp, path);
    }
  }

  lemma ExtendPath(value: seq<seq<int>>, h: int, w: int, path: seq<Pos>, n: Pos)
    requires Rect(value, h, w) && ZeroPath(value, h, w, path)
    requires IsZero(value, h, w, n) && Near(path[|path| - 1], n)
    ensures ZeroPath(value, h, w, path + [n])
  {
  }

  /** A set closed under zero-valued neighbours that holds a path's first cell holds its last. */
  lemma {:induction false} PathStaysInside(value: seq<seq<int>>, h: int, w: int, s: set<Pos>, path: seq<Pos>)
    requires Rect(value, h, w) && ZeroPath(value, h, w, path) && path[0] in s
    requires forall q, n :: q in s && Near(q, n) && IsZero(value, h, w, n) ==> n in s
    ensures path[|path| - 1] in s
    decreases |path|
  {
    if |path| > 1 {
      var prefix := path[..|path| - 1];
      assert ZeroPath(value, h, w, prefix);
      PathStaysInside(value, h, w, s, prefix);
      assert Near(path[|path| - 2], path[|path| - 1]);
    }
  }

  /** Cells within one step of some cell of comp. */
  function Dilate(comp: set<Pos>, q: Pos): bool {
    NearCells(q) * comp != {}
  }

  /** The move step of the program on the visibility grid. */
  method UpdateVisible(value: seq<seq<int>>, visible: seq<seq<Cell>>, h: int, w: int, pos: Pos, flag: bool)
    returns (result: seq<seq<Cell>>)
    requires Rect(value, h, w) && Rect(visible, h, w) && InBoard(pos, h, w)
    ensures result == Update(value, visible, h, w, pos, flag)
  {
    if flag {
      result := Set(visible, pos, Toggle(visible[pos.row][pos.col]), h, w);
    } else if visible[pos.row][pos.col] == Flagged {
      result := visible;
    } else if value[pos.row][pos.col] == 0 {
      var comp := Component(value, h, w, pos);
      result := seq(h, r requires 0 <= r < h =>
        seq(w, c requires 0 <= c < w => if Dilate(comp, Pos(r, c)) then Revealed else visible[r][c]));
      var spec := Flood(value, visible, h, w, pos);
      forall r, c | 0 <= r < h && 0 <= c < w
        ensures result[r][c] == spec[r][c]
      {
        var q := Pos(r, c);
        if Dilate(comp, q) {
          var p :| p in NearCells(q) * comp;
          assert Reachable(value, h, w, pos, p) && Near(p, q);
        }
        if InClosure(value, h, w, pos, q) {
          var p :| Reachable(value, h, w, pos, p) && Near(p, q);
          assert p in NearCells(q) * comp;
        }
      }
      Extensionality(result, spec, h, w);
    } else {
      result := Set(visible, pos, Revealed, h, w);
    }
  }

  // ---------------------------------------------------------------------------
  // Properties of a move.
  // ---------------------------------------------------------------------------

  /** Flag moves: Hidden becomes Flagged, Flagged becomes Hidden, Revealed stays; no other cell changes. */
  lemma FlagMove(value: seq<seq<int>>, visible: seq<seq<Cell>>, h: int, w: int, pos: Pos)
    requires Rect(value, h, w) && Rect(visible, h, w) && InBoard(pos, h, w)
    ensures var v := Update(value, visible, h, w, pos, true);
            && (visible[pos.row][pos.col] == Hidden ==> v[pos.row][pos.col] == Flagged)
            && (visible[pos.row][pos.col] == Flagged ==> v[pos.row][pos.col] == Hidden)
            && (visible[pos.row][pos.col] == Revealed ==> v == visible)
            && forall r, c :: 0 <= r < h && 0 <= c < w && Pos(r, c) != pos ==> v[r][c] == visible[r][c]
  {
    if visible[pos.row][pos.col] == Revealed {
      Extensionality(Update(value, visible, h, w, pos, true), visible, h, w);
    }
  }

  /** Flagging the same cell twice restores the grid. */
  lemma FlagTwice(value: seq<seq<int>>, visible: seq<seq<Cell>>, h: int, w: int, pos: Pos)
    requires Rect(value, h, w) && Rect(visible, h, w) && InBoard(pos, h, w)
    ensures Update(value, Update(value, visible, h, w, pos, true), h, w, pos, true) == visible
  {
    var v2 := Update(value, Update(value, visible, h, w, pos, true), h, w, pos, true);
    Extensionality(v2, visible, h, w);
  }

  /** Revealing a Flagged cell changes nothing. */
  lemma RevealFlagged(value: seq<seq<int>>, visible: seq<seq<Cell>>, h: int, w: int, pos: Pos)
    requires Rect(value, h, w) && Rect(visible, h, w) && InBoard(pos, h, w)
    requires visible[pos.row][pos.col] == Flagged
    ensures Update(value, visible, h, w, pos, false) == visible
  {
  }

  /** Revealing an unflagged nonzero cell reveals that cell alone. */
  lemma RevealNonzero(value: seq<seq<int>>, visible: seq<seq<Cell>>, h: int, w: int, pos: Pos)
    requires Rect(value, h, w) && Rect(visible, h, w) && InBoard(pos, h, w)
    requires visible[pos.row][pos.col] != Flagged && value[pos.row][pos.col] != 0
    ensures var v := Update(value, visible, h, w, pos, false);
            && v[pos.row][pos.col] == Revealed
            && forall r, c :: 0 <= r < h && 0 <= c < w && Pos(r, c) != pos ==> v[r][c] == visible[r][c]
  {
  }

  /** The component of a zero cell contains the cell, so the cell itself is in the closure. */
  lemma StartInClosure(value: seq<seq<int>>, h: int, w: int, start: Pos)
    requires Rect(value, h, w) && IsZero(value, h, w, start)
    ensures Reachable(value, h, w, start, start) && InClosure(value, h, w, start, start)
  {
    assert ZeroPath(value, h, w, [start]);
  }

  /**
   * Revealing an unflagged zero cell sets Revealed on exactly the closure of
   * its zero component, Flagged cells included, and keeps every other cell.
   */
  lemma RevealZero(value: seq<seq<int>>, visible: seq<seq<Cell>>, h: int, w: int, pos: Pos)
    requires Rect(value, h, w) && Rect(visible, h, w) && InBoard(pos, h, w)
    requires visible[pos.row][pos.col] != Flagged && value[pos.row][pos.col] == 0
    ensures var v := Update(value, visible, h, w, pos, false);
            && v[pos.row][pos.col] == Revealed
            && forall r, c :: 0 <= r < h && 0 <= c < w ==>
                 v[r][c] == if InClosure(value, h, w, pos, Pos(r, c)) then Revealed else visible[r][c]
  {
    StartInClosure(value, h, w, pos);
  }

  /** Repeating a reveal on the same cell changes nothing more. */
  lemma RevealIdempotent(value: seq<seq<int>>, visible: seq<seq<Cell>>, h: int, w: int, pos: Pos)
    requires Rect(value, h, w) && Rect(visible, h, w) && InBoard(pos, h, w)
    ensures var once := Update(value, visible, h, w, pos, false);
            Update(value, once, h, w, pos, false) == once
  {
    var once := Update(value, visible, h, w, pos, false);
    if visible[pos.row][pos.col] != Flagged {
      if value[pos.row][pos.col] == 0 {
        StartInClosure(value, h, w, pos);
        assert once[pos.row][pos.col] == Revealed;
        Extensionality(Flood(value, once, h, w, pos), once, h, w);
      } else {
        Extensionality(Set(once, pos, Revealed, h, w), once, h, w);
      }
    }
  }

  /**
   * On a value grid derived from mines, the closure of a zero cell holds no
   * mine: every cell in it is next to a zero cell, and a zero cell has no mine
   * next to it.
   */
  lemma ClosureHasNoMine(g: seq<seq<bool>>, h: int, w: int, start: Pos, q: Pos)
    requires Rect(g, h, w) && InBoard(q, h, w)
    requires InClosure(ValueGrid(g, h, w), h, w, start, q)
    ensures !g[q.row][q.col]
  {
    var value := ValueGrid(g, h, w);
    var p :| Reachable(value, h, w, start, p) && Near(p, q);
    var path :| ZeroPath(value, h, w, path) && path[0] == start && path[|path| - 1] == p;
    assert IsZero(value, h, w, path[|path| - 1]);
    ZeroHasNoMineNear(g, h, w, p, q);
  }
}
