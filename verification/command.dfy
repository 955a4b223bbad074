/**
 * The move prompt's grammar: the exact one-letter commands q/Q, r/R, h/H, or a
 * position <letters><digits> with an optional trailing f/F that marks a flag
 * toggle. Letters name the column, digits the 1-based row.
 */
module Command {
  import opened Options
  import opened Columns

  datatype Command =
    | Quit
    | Restart
    | Help
    | Invalid                                  // not a command and not of the position form
    | OutOfRange                               // of the position form, but off the board
    | Move(row: int, col: int, flag: bool)     // 0-based cell on the board

  /** The three capture groups of a full match: column letters, row digits, flag suffix present. */
  datatype Groups = Groups(letters: string, digits: string, flag: bool)

  predicate IsDigit(c: char) { '0' <= c <= '9' }
  predicate AllDigits(s: string) { forall i :: 0 <= i < |s| ==> IsDigit(s[i]) }
  predicate IsFlagSuffix(s: string) { s == "f" || s == "F" }

  /**
   * text matches ([A-Za-z]+)([0-9]+)([fF])? in full, with exactly these groups.
   */
  predicate FullMatch(text: string, g: Groups) {
    var n := |g.letters| + |g.digits|;
    && |g.letters| > 0 && AllLetters(g.letters)
    && |g.digits| > 0 && AllDigits(g.digits)
    && |text| >= n && text[..n] == g.letters + g.digits
    && (if g.flag then IsFlagSuffix(text[n..]) else |text| == n)
  }

  /** Length of the longest prefix of s whose characters all satisfy p. */
  function Run(s: string, p: char -> bool): (n: nat)
    ensures n <= |s|
    ensures forall i :: 0 <= i < n ==> p(s[i])
    ensures n < |s| ==> !p(s[n])
  {
    if |s| == 0 || !p(s[0]) then 0 else 1 + Run(s[1..], p)
  }

  /** A prefix of satisfying characters followed by the end or a failing one is the longest such prefix. */
  lemma RunIsMaximal(s: string, p: char -> bool, k: nat)
    requires k <= |s|
    requires forall i :: 0 <= i < k ==> p(s[i])
    requires k < |s| ==> !p(s[k])
    ensures Run(s, p) == k
  {
  }

  /** Value of a decimal digit string, leading zeros allowed. */
  function Decimal(s: string): int {
    if |s| == 0 then 0 else 10 * Decimal(s[..|s| - 1]) + (s[|s| - 1] as int - '0' as int)
  }

  /** Splits text into the groups of a full match of the position pattern, if there is one. */
  function Split(text: string): (r: Option<Groups>)
    ensures r.Some? ==> FullMatch(text, r.value)
    ensures forall g :: FullMatch(text, g) ==> r == Some(g)
  {
    var n := Run(text, IsLetter);
    var m := Run(text[n..], IsDigit);
    var rest := text[n + m..];
    var g := Groups(text[..n], text[n..n + m], rest != "");
    EveryMatchIsSplit(text);
    if n > 0 && m > 0 && (rest == "" || IsFlagSuffix(rest)) then
      SplitMatches(text, n, m);
      Some(g)
    else
      None
  }

  /** The longest-run split, when its pieces have the right shape, is a full match. */
  lemma SplitMatches(text: string, n: nat, m: nat)
    requires n == Run(text, IsLetter) && m == Run(text[n..], IsDigit)
    requires n > 0 && m > 0 && (text[n + m..] == "" || IsFlagSuffix(text[n + m..]))
    ensures FullMatch(text, Groups(text[..n], text[n..n + m], text[n + m..] != ""))
  {
    var letters, digits := text[..n], text[n..n + m];
    assert AllLetters(letters) by {
      forall i | 0 <= i < n ensures IsLetter(letters[i]) { assert letters[i] == text[i]; }
    }
    assert AllDigits(digits) by {
      forall i | 0 <= i < m ensures IsDigit(digits[i]) { assert digits[i] == text[n..][i]; }
    }
    assert text[..n + m] == letters + digits;
    if text[n + m..] == "" {
      assert |text| == n + m;
    }
  }

  /** Every full match is the longest-run split, and that split has the right shape. */
  lemma EveryMatchIsSplit(text: string)
    ensures var n := Run(text, IsLetter);
            var m := Run(text[n..], IsDigit);
            var rest := text[n + m..];
            forall g :: FullMatch(text, g) ==>
              && n > 0 && m > 0 && (rest == "" || IsFlagSuffix(rest))
              && g == Groups(text[..n], text[n..n + m], rest != "")
  {
    forall g | FullMatch(text, g)
      ensures var n := Run(text, IsLetter);
              var m := Run(text[n..], IsDigit);
              var rest := text[n + m..];
              && n > 0 && m > 0 && (rest == "" || IsFlagSuffix(rest))
              && g == Groups(text[..n], text[n..n + m], rest != "")
    {
      MatchIsSplit(text, g);
    }
  }

  /** Any full match has its groups where the longest-run split puts them. */
  lemma MatchIsSplit(text: string, g: Groups)
    requires FullMatch(text, g)
    ensures var n := Run(text, IsLetter);
            var m := Run(text[n..], IsDigit);
            && n == |g.letters| && m == |g.digits|
            && text[..n] == g.letters && text[n..n + m] == g.digits
            && (g.flag <==> text[n + m..] != "")
            && (text[n + m..] == "" || IsFlagSuffix(text[n + m..]))
  {
    var k := |g.letters|;
    var j := |g.digits|;
    assert text[..k + j] == g.letters + g.digits;
    assert forall i :: 0 <= i < k ==> text[i] == g.letters[i];
    assert text[k] == g.digits[0];
    RunIsMaximal(text, IsLetter, k);
    var t := text[k..];
    assert forall i :: 0 <= i < j ==> t[i] == g.digits[i];
    if j < |t| {
      assert t[j] == text[k + j];
      assert text[k + j..] == [text[k + j]] + text[k + j + 1..];
      assert t[j] == 'f' || t[j] == 'F';
    }
    RunIsMaximal(t, IsDigit, j);
    assert text[..k] == g.letters;
    assert text[k..k + j] == g.digits;
  }

  predicate IsControl(text: string) {
    text in ["Q", "q", "R", "r", "H", "h"]
  }

  /** Interprets one line typed at the move prompt on a width x height board. */
  function Parse(text: string, width: int, height: int): (c: Command)
    ensures text == "Q" || text == "q" <==> c == Quit
    ensures text == "R" || text == "r" <==> c == Restart
    ensures text == "H" || text == "h" <==> c == Help
    ensures c == Invalid <==> !IsControl(text) && forall g :: !FullMatch(text, g)
    ensures forall g :: !IsControl(text) && FullMatch(text, g) ==>
              var row, col := Decimal(g.digits) - 1, ColumnIndex(g.letters);
              c == if 0 <= col < width && 0 <= row < height then Move(row, col, g.flag) else OutOfRange
  {
    if text == "Q" || text == "q" then Quit
    else if text == "R" || text == "r" then Restart
    else if text == "H" || text == "h" then Help
    else
      match Split(text)
      case None => Invalid
      case Some(g) =>
        var col := ColumnIndex(g.letters);
        var row := Decimal(g.digits) - 1;
        if 0 <= col < width && 0 <= row < height then Move(row, col, g.flag) else OutOfRange
  }

  /** A Move returned by the parser always names a cell on the board. */
  lemma MoveIsOnBoard(text: string, width: int, height: int)
    ensures Parse(text, width, height).Move? ==>
              var c := Parse(text, width, height);
              0 <= c.row < height && 0 <= c.col < width
  {
  }

  /** Worked input: a flagged move with a lower-case column. */
  lemma ParseFlagExample()
    ensures Parse("c3f", 5, 4) == Move(2, 2, true)
  {
    var g := Groups("c", "3", true);
    assert "c3f"[..2] == g.letters + g.digits && "c3f"[2..] == "f";
    assert FullMatch("c3f", g);
    assert "c"[..0] == "" && LetterValue("c") == 3;
    assert "3"[..0] == "" && Decimal("3") == 3;
  }

  /** Worked input: a two-letter column and a two-digit row. */
  lemma ParseWideExample()
    ensures Parse("AA10", 30, 10) == Move(9, 26, false)
  {
    var g := Groups("AA", "10", false);
    assert "AA10"[..4] == g.letters + g.digits;
    assert FullMatch("AA10", g);
    assert "AA"[..1] == "A" && "A"[..0] == "";
    assert LetterValue("A") == 1;
    assert LetterValue("AA") == 27;
    assert "10"[..1] == "1" && "1"[..0] == "";
    assert Decimal("1") == 1;
    assert Decimal("10") == 10;
  }

  /** Worked inputs: a row of 0 is off the board; letters with no digits and doubled command letters are invalid. */
  lemma ParseRejectExamples()
    ensures Parse("a0", 5, 4) == OutOfRange
    ensures Parse("zz", 5, 4) == Invalid
    ensures Parse("qq", 5, 4) == Invalid
  {
    var g := Groups("a", "0", false);
    assert "a0"[..2] == g.letters + g.digits;
    assert FullMatch("a0", g);
    forall g
      ensures !FullMatch("zz", g) && !FullMatch("qq", g)
    {
      LettersOnlyNeverMatch("zz", g);
      LettersOnlyNeverMatch("qq", g);
    }
  }

  /** A string of letters alone has no row digits, so it never matches the position pattern. */
  lemma LettersOnlyNeverMatch(text: string, g: Groups)
    requires AllLetters(text)
    ensures !FullMatch(text, g)
  {
    if |g.letters| < |text| && |text| >= |g.letters| + |g.digits| {
      var n := |g.letters| + |g.digits|;
      if text[..n] == g.letters + g.digits && |g.digits| > 0 {
        assert text[|g.letters|] == g.digits[0];
      }
    }
  }
}
