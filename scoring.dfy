/** Line-clear scoring and the level ratchet. */
module Scoring {

  /** Points for clearing `lines` rows with one piece, before the level
      multiplier: 100, 300, 500 and 800 for one to four rows, nothing
      otherwise. */
  function LinePoints(lines: int): (p: int)
    ensures p >= 0
    ensures p > 0 <==> 1 <= lines <= 4
    ensures 1 <= lines <= 4 ==> p >= 100 * lines
  {
    match lines
    case 1 => 100
    case 2 => 300
    case 3 => 500
    case 4 => 800
    case _ => 0
  }

  /** The score gained by one clear at a given multiplier. */
  function ClearScore(lines: int, multiplier: int): (s: int)
    ensures multiplier > 0 ==> (s > 0 <==> 1 <= lines <= 4)
    ensures multiplier >= 0 ==> s >= 0
  {
    LinePoints(lines) * multiplier
  }

  /** Clearing more rows at once always earns more, and more than clearing
      them one at a time. */
  lemma MoreLinesEarnMore(a: int, b: int)
    requires 1 <= a < b <= 4
    ensures LinePoints(a) < LinePoints(b)
    ensures LinePoints(b) > b * LinePoints(1)
  {
  }

  /** The level after the line total reaches `linesCleared`: it becomes a
      tenth of the total, rounded down, but only if that is higher, so it
      never falls. */
  function RaisedLevel(level: int, linesCleared: int): (l: int)
    ensures l >= level && l >= linesCleared / 10
    ensures l == level || l == linesCleared / 10
  {
    if linesCleared / 10 > level then linesCleared / 10 else level
  }

  /** The level and line total after a sequence of clears, one entry per
      placed piece giving the rows it cleared. */
  function Progress(level: int, linesCleared: int, clears: seq<nat>): (r: (int, int))
    decreases |clears|
  {
    if clears == [] then (level, linesCleared)
    else Progress(RaisedLevel(level, linesCleared + clears[0]), linesCleared + clears[0], clears[1..])
  }

  function Sum(clears: seq<nat>): (s: nat)
    decreases |clears|
  {
    if clears == [] then 0 else clears[0] + Sum(clears[1..])
  }

  lemma DivMonotone(a: int, b: int)
    requires a <= b
    ensures a / 10 <= b / 10
  {
  }

  /** Over any sequence of clears the line total is the sum of the rows
      cleared and the level is the larger of the starting level and a tenth
      of the total: a game started at level 0 with no lines is always at
      level floor(lines / 10). The level is never below a tenth of the line
      total, and that stays so. */
  lemma {:induction false} ProgressTracksLines(level: int, linesCleared: int, clears: seq<nat>)
    requires linesCleared / 10 <= level
    ensures Progress(level, linesCleared, clears).1 == linesCleared + Sum(clears)
    ensures Progress(level, linesCleared, clears).0 == RaisedLevel(level, linesCleared + Sum(clears))
    decreases |clears|
  {
    if clears != [] {
      var total := linesCleared + clears[0];
      ProgressTracksLines(RaisedLevel(level, total), total, clears[1..]);
      var grand := total + Sum(clears[1..]);
      assert linesCleared + Sum(clears) == grand;
      DivMonotone(total, grand);
      assert RaisedLevel(RaisedLevel(level, total), grand) == RaisedLevel(level, grand);

    }
  }

  /** Clearing never lowers the level. */
  lemma {:induction false} LevelNeverFalls(level: int, linesCleared: int, clears: seq<nat>)
    ensures Progress(level, linesCleared, clears).0 >= level
    decreases |clears|
  {
    if clears != [] {
      var total := linesCleared + clears[0];
      LevelNeverFalls(RaisedLevel(level, total), total, clears[1..]);
    }
  }
}
