/**
 * The end-of-move check, one move of a round (board generated lazily around
 * the first move, visibility updated, end state checked, all cells revealed on
 * a win), and the control flow between rounds that the program drives with
 * exceptions, here a state enum.
 */
module Game {
  import opened Options
  import opened Grid
  import opened Counting
  import opened Setup
  import opened Board
  import opened Values
  import opened Visibility
  import opened Command

  /** Result of the end check; the program returns -1, 0 and 1 for these. */
  datatype EndState = Ongoing | Lost | Won

  /** The program's win test: a cell is Revealed exactly when it is not a mine. */
  predicate RevealedExactlySafe(value: seq<seq<int>>, visible: seq<seq<Cell>>, h: int, w: int)
    requires Rect(value, h, w) && Rect(visible, h, w)
  {
    forall r, c :: 0 <= r < h && 0 <= c < w ==> (value[r][c] != MineValue <==> visible[r][c] == Revealed)
  }

  /** The end check after a move on pos: a revealed mine there loses, and that test comes first. */
  function CheckEnd(value: seq<seq<int>>, visible: seq<seq<Cell>>, h: int, w: int, pos: Pos): (e: EndState)
    requires Rect(value, h, w) && Rect(visible, h, w) && InBoard(pos, h, w)
    ensures e == Lost <==> value[pos.row][pos.col] == MineValue && visible[pos.row][pos.col] == Revealed
    ensures e == Won <==> e != Lost && RevealedExactlySafe(value, visible, h, w)
  {
    if value[pos.row][pos.col] == MineValue && visible[pos.row][pos.col] == Revealed then Lost
    else if forall r, c :: 0 <= r < h && 0 <= c < w ==> (value[r][c] != MineValue <==> visible[r][c] == Revealed) then Won
    else Ongoing
  }

  /** No mine cell is Revealed. */
  predicate NoMineRevealed(value: seq<seq<int>>, visible: seq<seq<Cell>>, h: int, w: int)
    requires Rect(value, h, w) && Rect(visible, h, w)
  {
    forall r, c :: 0 <= r < h && 0 <= c < w && value[r][c] == MineValue ==> visible[r][c] != Revealed
  }

  /**
   * While no mine is revealed, the game is won exactly when every mine-free
   * cell is revealed; mines need be neither flagged nor revealed.
   */
  lemma WonIffSafeCellsRevealed(value: seq<seq<int>>, visible: seq<seq<Cell>>, h: int, w: int, pos: Pos)
    requires Rect(value, h, w) && Rect(visible, h, w) && InBoard(pos, h, w)
    requires NoMineRevealed(value, visible, h, w)
    ensures CheckEnd(value, visible, h, w, pos) == Won <==>
              forall r, c :: 0 <= r < h && 0 <= c < w && value[r][c] != MineValue ==> visible[r][c] == Revealed
  {
  }

  /** Hiding again one mine-free cell of a won grid makes the same check report Ongoing. */
  lemma HidingSafeCellUndoesWin(value: seq<seq<int>>, visible: seq<seq<Cell>>, h: int, w: int, pos: Pos, q: Pos)
    requires Rect(value, h, w) && Rect(visible, h, w) && InBoard(pos, h, w) && InBoard(q, h, w)
    requires CheckEnd(value, visible, h, w, pos) == Won
    requires value[q.row][q.col] != MineValue
    ensures CheckEnd(value, Set(visible, q, Hidden, h, w), h, w, pos) == Ongoing
  {
    var v := Set(visible, q, Hidden, h, w);
    assert !(value[q.row][q.col] != MineValue <==> v[q.row][q.col] == Revealed);
  }

  /** Revealing a mine cell directly, when it is not flagged, loses on that move. */
  lemma RevealingMineLoses(value: seq<seq<int>>, visible: seq<seq<Cell>>, h: int, w: int, pos: Pos)
    requires Rect(value, h, w) && Rect(visible, h, w) && InBoard(pos, h, w)
    requires value[pos.row][pos.col] == MineValue && visible[pos.row][pos.col] != Flagged
    ensures CheckEnd(value, Update(value, visible, h, w, pos, false), h, w, pos) == Lost
  {
  }

  /**
   * A move that does not lose keeps every mine cell unrevealed: a flag move
   * never reveals, a single reveal on a mine loses, and the flood closure of
   * a zero cell holds no mine.
   */
  lemma MoveKeepsMinesHidden(g: seq<seq<bool>>, visible: seq<seq<Cell>>, h: int, w: int, pos: Pos, flag: bool)
    requires Rect(g, h, w) && Rect(visible, h, w) && InBoard(pos, h, w)
    requires NoMineRevealed(ValueGrid(g, h, w), visible, h, w)
    requires CheckEnd(ValueGrid(g, h, w), Update(ValueGrid(g, h, w), visible, h, w, pos, flag), h, w, pos) != Lost
    ensures NoMineRevealed(ValueGrid(g, h, w), Update(ValueGrid(g, h, w), visible, h, w, pos, flag), h, w)
  {
    var value := ValueGrid(g, h, w);
    var v := Update(value, visible, h, w, pos, flag);
    if !flag && visible[pos.row][pos.col] != Flagged && value[pos.row][pos.col] == 0 {
      RevealZero(value, visible, h, w, pos);
      forall r, c | 0 <= r < h && 0 <= c < w && InClosure(value, h, w, pos, Pos(r, c))
        ensures value[r][c] != MineValue
      {
        ClosureHasNoMine(g, h, w, pos, Pos(r, c));
      }
    }
  }

  function AllCells(h: nat, w: nat, x: Cell): (v: seq<seq<Cell>>)
    ensures Rect(v, h, w)
    ensures forall r, c :: 0 <= r < h && 0 <= c < w ==> v[r][c] == x
  {
    seq(h, _ => seq(w, _ => x))
  }

  /** The grids of a round once generated: mine map, value grid, visibility grid. */
  datatype Minefield = Minefield(mineMap: seq<seq<bool>>, value: seq<seq<int>>, visible: seq<seq<Cell>>)

  /** A round: the size chosen at the prompt, and the minefield once the first move has created it. */
  datatype Round = Round(width: int, height: int, mines: int, field: Option<Minefield>)

  /** A round only starts from an accepted size; once created, the grids fit it and the values derive from the mines. */
  predicate ValidRound(round: Round) {
    && CheckSize(round.width, round.height, round.mines) == Accepted
    && (round.field.Some? ==>
          var f := round.field.value;
          && Rect(f.mineMap, round.height, round.width)
          && f.value == ValueGrid(f.mineMap, round.height, round.width)
          && Rect(f.visible, round.height, round.width))
  }

  /** The first click sits on a zero: no cell within one step of it holds a mine. */
  lemma FirstClickIsZero(w: int, h: int, mines: int, pos: Pos, perm: seq<int>)
    requires InBoard(pos, h, w)
    requires PermutationOf(perm, SafeEligible(w, h, pos))
    ensures ValueGrid(InitMapClipped(w, h, mines, pos, perm), h, w)[pos.row][pos.col] == 0
  {
    NoMineNearIsZero(InitMapClipped(w, h, mines, pos, perm), h, w, pos);
  }

  /** The same holds for the generator as the program writes it, wrap-around and all. */
  lemma ProgramFirstClickIsZero(w: int, h: int, mines: int, pos: Pos, perm: seq<int>)
    requires InBoard(pos, h, w)
    requires PermutationOf(perm, Eligible(w, h, pos))
    ensures ValueGrid(InitMap(w, h, mines, pos, perm), h, w)[pos.row][pos.col] == 0
  {
    NoMineNearIsZero(InitMap(w, h, mines, pos, perm), h, w, pos);
  }

  /**
   * One move of a round. The first move creates the minefield around pos from
   * the permutation, with the generator's neighbourhood clipped to the board;
   * then the move updates the visibility grid, the end check runs on pos, and
   * a win reveals every cell.
   */
  method Step(round: Round, pos: Pos, flag: bool, perm: seq<int>) returns (next: Round, end: EndState)
    requires ValidRound(round) && InBoard(pos, round.height, round.width)
    requires round.field.None? ==> PermutationOf(perm, SafeEligible(round.width, round.height, pos))
    ensures ValidRound(next) && next.field.Some?
    ensures next.width == round.width && next.height == round.height && next.mines == round.mines
    ensures round.field.Some? ==> next.field.value.mineMap == round.field.value.mineMap
    ensures round.field.None? ==>
              && next.field.value.mineMap == InitMapClipped(round.width, round.height, round.mines, pos, perm)
              && next.field.value.value[pos.row][pos.col] == 0
              && end != Lost
    ensures var h, w := round.height, round.width;
            var value := next.field.value.value;
            var before := if round.field.Some? then round.field.value.visible else AllCells(h, w, Hidden);
            var after := Update(value, before, h, w, pos, flag);
            && end == CheckEnd(value, after, h, w, pos)
            && next.field.value.visible == (if end == Won then AllCells(h, w, Revealed) else after)
    ensures var h, w := round.height, round.width;
            (round.field.None? || NoMineRevealed(round.field.value.value, round.field.value.visible, h, w)) && end == Ongoing ==>
              NoMineRevealed(next.field.value.value, next.field.value.visible, h, w)
  {
    var h, w := round.height, round.width;
    var field: Minefield;
    if round.field.None? {
      var mineMap := InitMapClipped(w, h, round.mines, pos, perm);
      FirstClickIsZero(w, h, round.mines, pos, perm);
      field := Minefield(mineMap, ValueGrid(mineMap, h, w), AllCells(h, w, Hidden));
    } else {
      field := round.field.value;
    }
    var visible := UpdateVisible(field.value, field.visible, h, w, pos, flag);
    end := CheckEnd(field.value, visible, h, w, pos);
    if NoMineRevealed(field.value, field.visible, h, w) && end != Lost {
      MoveKeepsMinesHidden(field.mineMap, field.visible, h, w, pos, flag);
    }
    if end == Won {
      visible := AllCells(h, w, Revealed);
    }
    next := Round(round.width, round.height, round.mines, Some(Minefield(field.mineMap, field.value, visible)));
  }

  /** The first reveal of a round always floods, since the first click sits on a zero. */
  lemma FirstRevealFloods(w: int, h: int, mines: int, pos: Pos, perm: seq<int>)
    requires InBoard(pos, h, w)
    requires PermutationOf(perm, SafeEligible(w, h, pos))
    ensures var value := ValueGrid(InitMapClipped(w, h, mines, pos, perm), h, w);
            Update(value, AllCells(h, w, Hidden), h, w, pos, false) == Flood(value, AllCells(h, w, Hidden), h, w, pos)
  {
    FirstClickIsZero(w, h, mines, pos, perm);
  }

  // ---------------------------------------------------------------------------
  // Control flow between prompts.
  // ---------------------------------------------------------------------------

  /** Where the program is waiting: the size prompt, the move prompt, the play-again prompt, or done. */
  datatype Phase =
    | AwaitingSize
    | Playing(round: Round)
    | Over(round: Round, won: bool)
    | Exited

  /** The size prompt: an accepted size starts a round with no minefield yet; anything else asks again. */
  function EnterSize(width: int, height: int, mines: int): (p: Phase)
    ensures p.Playing? <==> CheckSize(width, height, mines) == Accepted
    ensures p.Playing? ==> p.round == Round(width, height, mines, None) && ValidRound(p.round)
    ensures !p.Playing? ==> p == AwaitingSize
  {
    if CheckSize(width, height, mines) == Accepted then Playing(Round(width, height, mines, None)) else AwaitingSize
  }

  /**
   * One line typed at the move prompt. Quit leaves, Restart returns to the
   * size prompt, help and unusable input keep the phase, and a move runs Step;
   * a loss or a win moves on to the play-again prompt.
   */
  method Turn(phase: Phase, text: string, perm: seq<int>) returns (next: Phase)
    requires phase.Playing? && ValidRound(phase.round)
    requires var c := Parse(text, phase.round.width, phase.round.height);
             c.Move? && phase.round.field.None? ==>
               PermutationOf(perm, SafeEligible(phase.round.width, phase.round.height, Pos(c.row, c.col)))
    ensures var c := Parse(text, phase.round.width, phase.round.height);
            && (c == Quit <==> next == Exited)
            && (c == Restart <==> next == AwaitingSize)
            && (c == Help || c == Invalid || c == OutOfRange ==> next == phase)
            && (c.Move? ==> (next.Playing? || next.Over?) && next.round.field.Some?)
            && (c.Move? && phase.round.field.None? ==> !(next.Over? && !next.won))
    ensures var c := Parse(text, phase.round.width, phase.round.height);
            var round := phase.round;
            var h, w := round.height, round.width;
            c.Move? ==>
              var pos := Pos(c.row, c.col);
              && InBoard(pos, h, w)
              && (next.Playing? || next.Over?) && ValidRound(next.round) && next.round.field.Some?
              && next.round.width == w && next.round.height == h && next.round.mines == round.mines
              && (round.field.Some? ==> next.round.field.value.mineMap == round.field.value.mineMap)
              && (round.field.None? ==>
                    next.round.field.value.mineMap == InitMapClipped(w, h, round.mines, pos, perm))
              && var value := next.round.field.value.value;
                 var before := if round.field.Some? then round.field.value.visible else AllCells(h, w, Hidden);
                 var after := Update(value, before, h, w, pos, c.flag);
                 var e := CheckEnd(value, after, h, w, pos);
                 && (next.Playing? <==> e == Ongoing)
                 && (next.Over? ==> (next.won <==> e == Won))
                 && next.round.field.value.visible == (if e == Won then AllCells(h, w, Revealed) else after)
  {
    var round := phase.round;
    var c := Parse(text, round.width, round.height);
    match c {
      case Quit => next := Exited;
      case Restart => next := AwaitingSize;
      case Help => next := phase;
      case Invalid => next := phase;
      case OutOfRange => next := phase;
      case Move(row, col, flag) =>
        MoveIsOnBoard(text, round.width, round.height);
        var round', end := Step(round, Pos(row, col), flag, perm);
        next := if end == Ongoing then Playing(round') else Over(round', end == Won);
    }
  }

  /** The play-again prompt: y or Y starts over, n or N leaves, anything else asks again. */
  function PlayAgain(phase: Phase, answer: string): (next: Phase)
    requires phase.Over?
    ensures answer in ["Y", "y"] ==> next == AwaitingSize
    ensures answer in ["N", "n"] ==> next == Exited
    ensures answer !in ["Y", "y", "N", "n"] ==> next == phase
  {
    if answer == "Y" || answer == "y" then AwaitingSize
    else if answer == "N" || answer == "n" then Exited
    else phase
  }
}
