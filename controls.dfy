/** Per-frame input decisions of the browser engine: delayed auto shift
    (DAS) with its auto-repeat rate (ARR), the soft-drop cadence and the
    gravity table lookup. Times are counted in frames; a key's held time is
    0 while it is up, 1 in the frame it is pressed, and grows by one every
    frame it stays down. */
module Controls {

  const AUTO_START_DELAY: int := 10
  const AUTO_REPEAT_RATE: int := 3
  const SOFT_DROP_SPEED: int := 3

  datatype HeldTimes = HeldTimes(left: nat, right: nat, softDrop: nat)

  /** Once per frame, before the handlers run: every key that is down has
      been down one frame longer. */
  function IncreaseKeyHeldTimes(h: HeldTimes): (r: HeldTimes)
    ensures h.left == 0 <==> r.left == 0
    ensures h.right == 0 <==> r.right == 0
    ensures h.softDrop == 0 <==> r.softDrop == 0
    ensures h.left > 0 ==> r.left == h.left + 1
    ensures h.right > 0 ==> r.right == h.right + 1
    ensures h.softDrop > 0 ==> r.softDrop == h.softDrop + 1
  {
    HeldTimes(if h.left != 0 then h.left + 1 else 0,
              if h.right != 0 then h.right + 1 else 0,
              if h.softDrop != 0 then h.softDrop + 1 else 0)
  }

  /** n frames later, a key still held has a held time n larger. */
  lemma {:induction false} HeldTimeCounts(t: nat, n: nat)
    requires t > 0
    ensures Iterated(HeldTimes(t, 0, 0), n).left == t + n
    decreases n
  {
    if n > 0 {
      HeldTimeCounts(t + 1, n - 1);
    }
  }

  function Iterated(h: HeldTimes, n: nat): HeldTimes
    decreases n
  {
    if n == 0 then h else Iterated(IncreaseKeyHeldTimes(h), n - 1)
  }

  /** The horizontal auto-shift of one frame for the given left and right
      held times: -1 (left), +1 (right) or 0. The branches are those of the
      source; the ensures clauses give the closed form: a direction moves
      when its key is past the delay, its time is a multiple of the repeat
      rate, and the other key is not past the delay or was pressed earlier
      (a larger held time). On an exact tie the left key wins. */
  function DasShift(left: nat, right: nat): (dx: int)
    ensures dx == -1 || dx == 0 || dx == 1
    ensures dx == -1 <==> left > AUTO_START_DELAY && left % AUTO_REPEAT_RATE == 0 &&
                          (right <= AUTO_START_DELAY || left <= right)
    ensures dx == 1 <==> right > AUTO_START_DELAY && right % AUTO_REPEAT_RATE == 0 &&
                         (left <= AUTO_START_DELAY || right < left)
  {
    var leftPassedDelay := left > AUTO_START_DELAY;
    var rightPassedDelay := right > AUTO_START_DELAY;
    var leftMatches := left % AUTO_REPEAT_RATE == 0;
    var rightMatches := right % AUTO_REPEAT_RATE == 0;
    if !(leftMatches || rightMatches) then 0
    else if leftPassedDelay && !rightPassedDelay && leftMatches then -1
    else if !leftPassedDelay && rightPassedDelay && rightMatches then 1
    else if leftPassedDelay && rightPassedDelay then
      if right < left then (if rightMatches then 1 else 0)
      else (if leftMatches then -1 else 0)
    else 0
  }

  /** With both keys past the delay, the more recently pressed key (the
      smaller held time) decides, and moves on its own repeat frames. */
  lemma MoreRecentKeyWins(left: nat, right: nat)
    requires left > AUTO_START_DELAY && right > AUTO_START_DELAY
    ensures right < left ==> (DasShift(left, right) != -1 && (DasShift(left, right) == 1 <==> right % AUTO_REPEAT_RATE == 0))
    ensures left < right ==> (DasShift(left, right) != 1 && (DasShift(left, right) == -1 <==> left % AUTO_REPEAT_RATE == 0))
  {
  }

  /** On an exact tie, on a repeat frame, the piece moves left. */
  lemma TieMovesLeft(t: nat)
    requires t > AUTO_START_DELAY && t % AUTO_REPEAT_RATE == 0
    ensures DasShift(t, t) == -1
  {
  }

  /** Off the repeat frames of both keys nothing moves. */
  lemma NoRepeatFrameNoMove(left: nat, right: nat)
    requires left % AUTO_REPEAT_RATE != 0 && right % AUTO_REPEAT_RATE != 0
    ensures DasShift(left, right) == 0
  {
  }

  /** A key held alone auto-repeats every third frame once its held time is
      past the delay, starting at held time 12. */
  lemma HeldKeyRepeats(t: nat)
    ensures DasShift(t, 0) == -1 <==> t >= 12 && t % 3 == 0
    ensures DasShift(0, t) == 1 <==> t >= 12 && t % 3 == 0
  {
  }

  /** The soft-drop key moves the piece down on every third frame it is
      held. */
  predicate SoftDropFires(softTime: nat): (b: bool)
    ensures b ==> softTime >= SOFT_DROP_SPEED
  {
    softTime % SOFT_DROP_SPEED == 0 && softTime > 0
  }

  /** Of any three consecutive frames with the key down, exactly one drops. */
  lemma SoftDropCadence(t: nat)
    requires t > 0
    ensures SoftDropFires(t) || SoftDropFires(t + 1) || SoftDropFires(t + 2)
    ensures SoftDropFires(t) ==> !SoftDropFires(t + 1) && !SoftDropFires(t + 2)
    ensures SoftDropFires(t + 1) ==> !SoftDropFires(t + 2)
  {
  }

  /** The gravity entry (frames between drops, rows per drop) used at a
      level: the level's own entry, or the last entry for a level the table
      does not reach. */
  function GravityEntry(table: seq<(int, int)>, level: int): (e: (int, int))
    requires |table| > 0
    ensures e in table
    ensures 0 <= level < |table| ==> e == table[level]
    ensures !(0 <= level < |table|) ==> e == table[|table| - 1]
  {
    if 0 <= level < |table| then table[level] else table[|table| - 1]
  }

  /** Levels past the table all fall at the speed of its last entry. */
  lemma GravityClamps(table: seq<(int, int)>, l1: int, l2: int)
    requires |table| > 0 && l1 >= |table| - 1 && l2 >= |table| - 1
    ensures GravityEntry(table, l1) == GravityEntry(table, l2)
  {
  }

  /** Gravity acts on frames that are a multiple of the entry's interval;
      an interval of 0 never matches (the remainder is not a number). */
  predicate GravityFires(frameCount: nat, interval: int): (b: bool)
    ensures interval == 1 ==> b
    ensures interval == 0 ==> !b
  {
    interval != 0 && frameCount % interval == 0
  }
}
