/**
 * Spreadsheet-style column labels: bijective base 26 over 'A'..'Z' with no
 * zero digit (1 -> "A", 26 -> "Z", 27 -> "AA"). Labels are read case-insensitively
 * and decoded to a 0-based column index.
 */
module Columns {

  predicate IsUpper(c: char) { 'A' <= c <= 'Z' }
  predicate IsLower(c: char) { 'a' <= c <= 'z' }
  predicate IsLetter(c: char) { IsUpper(c) || IsLower(c) }

  predicate AllLetters(s: string) { forall i :: 0 <= i < |s| ==> IsLetter(s[i]) }
  predicate AllUpper(s: string) { forall i :: 0 <= i < |s| ==> IsUpper(s[i]) }

  /** The digit a character stands for: A and a are 1, Z and z are 26; any other character adds nothing. */
  function Weight(c: char): int {
    if IsUpper(c) then c as int - 'A' as int + 1
    else if IsLower(c) then c as int - 'a' as int + 1
    else 0
  }

  /** The upper-case letter for digit d - 1. */
  function Letter(d: int): (c: char)
    requires 0 <= d < 26
    ensures IsUpper(c) && Weight(c) == d + 1
  {
    ('A' as int + d) as char
  }

  function Pow26(n: nat): (p: int)
    ensures p >= 1
  {
    if n == 0 then 1 else 26 * Pow26(n - 1)
  }

  /**
   * The 1-based number a label denotes, read most significant letter first.
   * Characters that are not letters keep their place but contribute zero.
   */
  function LetterValue(s: string): int {
    if |s| == 0 then 0 else 26 * LetterValue(s[..|s| - 1]) + Weight(s[|s| - 1])
  }

  /** The label of a positive number; the label of a number <= 0 is empty, as the loop body never runs. */
  function IntToLetters(value: int): (s: string)
    ensures value >= 1 <==> |s| > 0
    ensures AllUpper(s)
    ensures value >= 1 ==> LetterValue(s) == value
    decreases value
  {
    if value <= 0 then ""
    else
      var q, d := (value - 1) / 26, (value - 1) % 26;
      var p := IntToLetters(q);
      AppendValue(p, Letter(d));
      assert 26 * q + d + 1 == value;
      p + [Letter(d)]
  }

  /** Appending a character shifts the label one place and adds its digit. */
  lemma AppendValue(p: string, c: char)
    ensures LetterValue(p + [c]) == 26 * LetterValue(p) + Weight(c)
  {
    assert (p + [c])[..|p|] == p;
  }

  /** The 0-based column index of a label. */
  function ColumnIndex(letters: string): int {
    LetterValue(letters) - 1
  }

  /**
   * The weighted sum of the decoding loop: the last character has weight 1,
   * the one before 26, and so on. The loop adds weights from the right.
   */
  method LettersToInt(letters: string) returns (value: int)
    ensures value == ColumnIndex(letters)
  {
    value := 0;
    var i := 0;
    var power := 1;
    while i < |letters|
      invariant 0 <= i <= |letters|
      invariant power == Pow26(i)
      invariant value == LetterValue(letters[|letters| - i..])
    {
      var ch := letters[|letters| - i - 1];
      PrependValue(ch, letters[|letters| - i..]);
      assert letters[|letters| - i - 1..] == [ch] + letters[|letters| - i..];
      value := value + Weight(ch) * power;
      power := power * 26;
      i := i + 1;
    }
    assert letters[|letters| - i..] == letters;
    value := value - 1;
  }

  /** Putting a character in front of a label adds its digit at the next weight. */
  lemma {:induction false} PrependValue(c: char, s: string)
    ensures LetterValue([c] + s) == Weight(c) * Pow26(|s|) + LetterValue(s)
    decreases |s|
  {
    if |s| == 0 {
      assert ([c] + s)[..0] == [];
    } else {
      var t := [c] + s;
      assert t[..|t| - 1] == [c] + s[..|s| - 1];
      PrependValue(c, s[..|s| - 1]);
    }
  }

  /** A non-empty all-letter label denotes at least 1, so its column index is never negative. */
  lemma {:induction false} LetterValuePositive(s: string)
    requires |s| > 0 && AllLetters(s)
    ensures LetterValue(s) >= 1
    decreases |s|
  {
    if |s| > 1 {
      LetterValuePositive(s[..|s| - 1]);
    }
  }

  /** Decoding then encoding returns an upper-case label: labels and positive numbers are in bijection. */
  lemma {:induction false} LabelOfLetterValue(s: string)
    requires |s| > 0 && AllUpper(s)
    ensures IntToLetters(LetterValue(s)) == s
    decreases |s|
  {
    var p := s[..|s| - 1];
    var d := Weight(s[|s| - 1]);
    var n := LetterValue(s);
    assert n == 26 * LetterValue(p) + d;
    assert (n - 1) / 26 == LetterValue(p) && (n - 1) % 26 == d - 1;
    if |p| > 0 {
      LabelOfLetterValue(p);
      LetterValuePositive(p);
    } else {
      assert LetterValue(p) == 0;
    }
    assert Letter(d - 1) == s[|s| - 1];
    assert s == p + [s[|s| - 1]];
  }

  /** Worked values: A is column 0, Z column 25, AA column 26, and 27 is labelled AA. */
  lemma CodecExamples()
    ensures ColumnIndex("A") == 0 && ColumnIndex("Z") == 25 && ColumnIndex("AA") == 26
    ensures IntToLetters(27) == "AA"
  {
    assert "A"[..0] == "" && "Z"[..0] == "" && "AA"[..1] == "A";
    assert IntToLetters(1) == IntToLetters(0) + [Letter(0)];
  }

  function ToUpper(c: char): char {
    if IsLower(c) then (c as int - 'a' as int + 'A' as int) as char else c
  }

  function ToLower(c: char): char {
    if IsUpper(c) then (c as int - 'A' as int + 'a' as int) as char else c
  }

  function UpperCase(s: string): (u: string)
    ensures |u| == |s|
  {
    seq(|s|, i requires 0 <= i < |s| => ToUpper(s[i]))
  }

  function LowerCase(s: string): (u: string)
    ensures |u| == |s|
  {
    seq(|s|, i requires 0 <= i < |s| => ToLower(s[i]))
  }

  /** Decoding ignores case: a label, its upper-case and its lower-case forms all denote the same column. */
  lemma {:induction false} CaseInsensitive(s: string)
    ensures ColumnIndex(UpperCase(s)) == ColumnIndex(s)
    ensures ColumnIndex(LowerCase(s)) == ColumnIndex(s)
    decreases |s|
  {
    if |s| > 0 {
      var p := s[..|s| - 1];
      assert UpperCase(s)[..|s| - 1] == UpperCase(p);
      assert LowerCase(s)[..|s| - 1] == LowerCase(p);
      assert Weight(ToUpper(s[|s| - 1])) == Weight(s[|s| - 1]);
      assert Weight(ToLower(s[|s| - 1])) == Weight(s[|s| - 1]);
      CaseInsensitive(p);
    }
  }
}
