/**
 An ideal one-row terminal: what a stream of bytes leaves on the row, and where the cursor ends.
 */
module RdlineTerminal {
  import opened Decimals

  /** Between characters, after ESC, or inside a control sequence with the number read so far. */
  datatype Mode = Ground | Escape | Control(n: nat)

  datatype Term = Term(row: seq<int>, col: nat, mode: Mode)

  predicate Printable(c: int) {
    31 < c < 127
  }

  /** The row with a character at a column; blanks fill the gap behind a short row. */
  function Written(row: seq<int>, col: nat, c: int): seq<int> {
    if col < |row| then row[col := c] else row + seq(col - |row|, i => 32) + [c]
  }

  /** A missing number stands for one. */
  function Count(n: nat): nat {
    if n == 0 then 1 else n
  }

  /** One byte arrives. */
  function Step(t: Term, c: int): Term {
    match t.mode
    case Ground =>
      if c == 27 then t.(mode := Escape)
      else if Printable(c) then Term(Written(t.row, t.col, c), t.col + 1, Ground)
      else t
    case Escape =>
      if c == 91 then t.(mode := Control(0)) else t.(mode := Ground)
    case Control(n) =>
      if IsDigit(c) then t.(mode := Control(10 * n + (c - 48)))
      else if c == 68 then Term(t.row, if Count(n) > t.col then 0 else t.col - Count(n), Ground)
      else if c == 67 then Term(t.row, t.col + Count(n), Ground)
      else if c == 75 then Term(if t.col < |t.row| then t.row[..t.col] else t.row, t.col, Ground)
      else t.(mode := Ground)
  }

  function Run(t: Term, s: seq<int>): Term
    decreases |s|
  {
    if s == [] then t else Run(Step(t, s[0]), s[1..])
  }

  lemma {:induction false} RunAppend(t: Term, a: seq<int>, b: seq<int>)
    ensures Run(t, a + b) == Run(Run(t, a), b)
    decreases |a|
  {
    if a == [] {
      assert a + b == b;
    } else {
      assert (a + b)[1..] == a[1..] + b;
      RunAppend(Step(t, a[0]), a[1..], b);
    }
  }

  /** Printable characters replace what is under them and then extend the row. */
  lemma {:induction false} RunText(row: seq<int>, col: nat, s: seq<int>)
    requires col <= |row| && forall i :: 0 <= i < |s| ==> Printable(s[i])
    ensures Run(Term(row, col, Ground), s) ==
            Term(row[..col] + s + (if col + |s| <= |row| then row[col + |s|..] else []), col + |s|, Ground)
    decreases |s|
  {
    if s == [] {
      assert row[..col] + row[col..] == row;
    } else {
      var row' := Written(row, col, s[0]);
      assert row' == row[..col] + [s[0]] + (if col < |row| then row[col + 1..] else []);
      RunText(row', col + 1, s[1..]);
      assert row'[..col + 1] + s[1..] == row[..col] + s;
    }
  }

  /** The terminal reads the number that was written. */
  lemma {:induction false} RunDecimal(row: seq<int>, col: nat, n: nat)
    ensures Run(Term(row, col, Control(0)), Decimal(n)) == Term(row, col, Control(n))
    decreases n
  {
    if n < 10 {
      RunOne(Term(row, col, Control(0)), 48 + n);
    } else {
      RunDecimal(row, col, n / 10);
      RunAppend(Term(row, col, Control(0)), Decimal(n / 10), [48 + n % 10]);
      RunOne(Term(row, col, Control(n / 10)), 48 + n % 10);
    }
  }

  lemma RunOne(t: Term, c: int)
    ensures Run(t, [c]) == Step(t, c)
  {
    assert Run(Step(t, c), [c][1..]) == Step(t, c);
  }

  function MoveBytes(n: nat, dir: int): seq<int> {
    [27, 91] + Decimal(n) + [dir]
  }

  const CLEAR: seq<int> := [27, 91, 75]

  lemma RunMove(row: seq<int>, col: nat, n: nat, dir: int)
    requires n > 0 && (dir == 67 || dir == 68)
    ensures Run(Term(row, col, Ground), MoveBytes(n, dir)) ==
            Term(row, if dir == 67 then col + n else if n > col then 0 else col - n, Ground)
  {
    var t := Term(row, col, Ground);
    RunAppend(t, [27, 91] + Decimal(n), [dir]);
    RunAppend(t, [27, 91], Decimal(n));
    RunAppend(t, [27], [91]);
    assert [27, 91] == [27] + [91];
    RunOne(t, 27);
    RunOne(Term(row, col, Escape), 91);
    RunDecimal(row, col, n);
    RunOne(Term(row, col, Control(n)), dir);
  }

  lemma RunClear(row: seq<int>, col: nat)
    requires col <= |row|
    ensures Run(Term(row, col, Ground), CLEAR) == Term(row[..col], col, Ground)
  {
    var t := Term(row, col, Ground);
    assert CLEAR == [27] + [91] + [75];
    RunAppend(t, [27] + [91], [75]);
    RunAppend(t, [27], [91]);
    RunOne(t, 27);
    RunOne(Term(row, col, Escape), 91);
    RunOne(Term(row, col, Control(0)), 75);
    assert col == |row| ==> row[..col] == row;
  }

  /** The terminal with a prompt, a line and the cursor at place `pos` of the line. */
  function Screen(prompt: seq<int>, line: seq<int>, pos: nat): Term {
    Term(prompt + line, |prompt| + pos, Ground)
  }

  /** Erase from the cursor, print a new rest of the line and come back. */
  lemma RunRewrite(prompt: seq<int>, line: seq<int>, pos: nat, rest: seq<int>)
    requires pos <= |line| && forall i :: 0 <= i < |rest| ==> Printable(rest[i])
    ensures Run(Screen(prompt, line, pos), CLEAR + rest + Back(|rest|)) == Screen(prompt, line[..pos] + rest, pos)
  {
    hide Run, Back, CLEAR;
    var t := Screen(prompt, line, pos);
    assert CLEAR + rest + Back(|rest|) == CLEAR + (rest + Back(|rest|));
    RunAppend(t, CLEAR, rest + Back(|rest|));
    RunClear(t.row, t.col);
    assert t.row[..t.col] == prompt + line[..pos];
    RunExtend(prompt, line[..pos], pos, rest);
    assert line[..pos][..pos] == line[..pos];
  }

  /** move_left: nothing for no columns. */
  function Back(n: nat): seq<int> {
    if n > 0 then MoveBytes(n, 68) else []
  }

  function Forth(n: nat): seq<int> {
    if n > 0 then MoveBytes(n, 67) else []
  }

  lemma RunBack(row: seq<int>, col: nat, n: nat)
    requires n <= col
    ensures Run(Term(row, col, Ground), Back(n)) == Term(row, col - n, Ground)
  {
    if n > 0 { RunMove(row, col, n, 68); }
  }

  lemma RunForth(row: seq<int>, col: nat, n: nat)
    ensures Run(Term(row, col, Ground), Forth(n)) == Term(row, col + n, Ground)
  {
    if n > 0 { RunMove(row, col, n, 67); }
  }

  /** Print a rest of the line that is at least as long as the one shown, and come back. */
  lemma RunExtend(prompt: seq<int>, line: seq<int>, pos: nat, rest: seq<int>)
    requires pos <= |line| && |line| <= pos + |rest| && forall i :: 0 <= i < |rest| ==> Printable(rest[i])
    ensures Run(Screen(prompt, line, pos), rest + Back(|rest|)) == Screen(prompt, line[..pos] + rest, pos)
  {
    hide Run, Back;
    var t := Screen(prompt, line, pos);
    var col, row' := |prompt| + pos, prompt + (line[..pos] + rest);
    RunAppend(t, rest, Back(|rest|));
    RunText(t.row, col, rest);
    assert t.row[..col] + rest == row';
    assert col + |rest| <= |t.row| ==> t.row[col + |rest|..] == [];
    assert Run(t, rest) == Term(row', col + |rest|, Ground);
    RunBack(row', col + |rest|, |rest|);
  }
}
