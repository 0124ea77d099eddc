/** The lock-delay / move-reset state machine of the browser engine: once a
    piece lands it gets a countdown of LOCK_DELAY_TIME frames before it
    locks; moving or rotating it restarts the countdown, at most
    MOVE_RESET_LIMIT times. */
module LockDelay {

  const LOCK_DELAY_TIME: int := 30
  const MOVE_RESET_LIMIT: int := 15

  /** `armed`: the countdown is running; `timer`: frames left;
      `resets`: move resets used since the piece landed. */
  datatype LockDelayState = LockDelayState(armed: bool, timer: int, resets: int)

  const Disarmed: LockDelayState := LockDelayState(false, LOCK_DELAY_TIME, 0)
  const JustArmed: LockDelayState := LockDelayState(true, LOCK_DELAY_TIME, 0)

  /** The move-reset count stays within 0..MOVE_RESET_LIMIT. */
  predicate InRange(s: LockDelayState) {
    0 <= s.resets <= MOVE_RESET_LIMIT
  }

  /** A successful move or rotation while the countdown runs restarts it and
      uses up one reset, unless all resets are used up. */
  function MoveReset(s: LockDelayState): (r: LockDelayState)
    ensures InRange(s) ==> InRange(r)
    ensures r.armed == s.armed && s.resets <= r.resets <= s.resets + 1
    ensures r.resets == s.resets + 1 <==> s.armed && s.resets < MOVE_RESET_LIMIT
    ensures r.resets == s.resets + 1 ==> r.timer == LOCK_DELAY_TIME
    ensures r.resets == s.resets ==> r == s
  {
    if s.armed && s.resets < MOVE_RESET_LIMIT then s.(resets := s.resets + 1, timer := LOCK_DELAY_TIME)
    else s
  }

  /** Once per frame: a running countdown ticks down, a stopped one is held
      at its full length. */
  function CountDown(s: LockDelayState): (r: LockDelayState)
    ensures r.armed == s.armed && r.resets == s.resets
    ensures s.armed ==> r.timer == s.timer - 1
    ensures !s.armed ==> r.timer == LOCK_DELAY_TIME
  {
    if s.armed then s.(timer := s.timer - 1) else s.(timer := LOCK_DELAY_TIME)
  }

  /** A blocked downward move starts the countdown, unless it already runs. */
  function Landed(s: LockDelayState): (r: LockDelayState)
    ensures r.armed && (InRange(s) ==> InRange(r))
    ensures s.armed ==> r == s
    ensures !s.armed ==> r.timer == LOCK_DELAY_TIME && r.resets == 0
  {
    if s.armed then s else JustArmed
  }

  /** A successful downward move stops the countdown and forgets the resets,
      unless all resets are used up. */
  function Fell(s: LockDelayState): (r: LockDelayState)
    ensures InRange(s) ==> InRange(r)
    ensures s.resets < MOVE_RESET_LIMIT ==> !r.armed && r.resets == 0
    ensures s.resets >= MOVE_RESET_LIMIT ==> r == s
  {
    if s.resets < MOVE_RESET_LIMIT then Disarmed else s
  }

  /** A piece that reaches a blocked downward move locks at once when it is
      being hard-dropped, has used up its resets, or its countdown ran out. */
  predicate ShouldPlace(s: LockDelayState, droppingHard: bool) {
    droppingHard || s.resets >= MOVE_RESET_LIMIT || s.timer <= 0
  }

  /** A freshly landed piece does not lock until something happens to it. */
  lemma JustArmedDoesNotLock()
    ensures !ShouldPlace(JustArmed, false) && !ShouldPlace(Disarmed, false)
  {
  }

  function Repeat(f: LockDelayState -> LockDelayState, s: LockDelayState, n: nat): LockDelayState
    decreases n
  {
    if n == 0 then s else Repeat(f, f(s), n - 1)
  }

  /** However many moves and rotations are made, the move-reset count never
      exceeds its limit. */
  lemma {:induction false} ResetsStayInRange(s: LockDelayState, n: nat)
    requires InRange(s)
    ensures InRange(Repeat(MoveReset, s, n))
    decreases n
  {
    if n > 0 {
      ResetsStayInRange(MoveReset(s), n - 1);
    }
  }

  /** After landing, the n-th move reset is counted as long as n <= 15; the
      countdown stays at full length throughout. */
  lemma {:induction false} ResetsCountUp(n: nat)
    ensures Repeat(MoveReset, JustArmed, n) ==
      LockDelayState(true, LOCK_DELAY_TIME, if n <= MOVE_RESET_LIMIT then n else MOVE_RESET_LIMIT)
  {
    ResetsCountFrom(0, n);
  }

  lemma {:induction false} ResetsCountFrom(k: int, n: nat)
    requires 0 <= k <= MOVE_RESET_LIMIT
    ensures Repeat(MoveReset, LockDelayState(true, LOCK_DELAY_TIME, k), n) ==
      LockDelayState(true, LOCK_DELAY_TIME, if k + n <= MOVE_RESET_LIMIT then k + n else MOVE_RESET_LIMIT)
    decreases n
  {
    if n > 0 {
      var s := LockDelayState(true, LOCK_DELAY_TIME, k);
      if k < MOVE_RESET_LIMIT {
        assert MoveReset(s) == LockDelayState(true, LOCK_DELAY_TIME, k + 1);
        ResetsCountFrom(k + 1, n - 1);
      } else {
        assert MoveReset(s) == s;
        ResetsCountFrom(k, n - 1);
      }
    }
  }

  /** The fifteenth move reset forces the lock: a landed piece that has been
      moved fifteen times locks on its next blocked downward move even with
      a full countdown, and fourteen moves do not suffice. */
  lemma FifteenthResetForcesLock()
    ensures ShouldPlace(Repeat(MoveReset, JustArmed, 15), false)
    ensures !ShouldPlace(Repeat(MoveReset, JustArmed, 14), false)
  {
    ResetsCountUp(15);
    ResetsCountUp(14);
  }

  /** Left alone, a landed piece counts down one frame at a time and becomes
      due to lock after exactly LOCK_DELAY_TIME frames. */
  lemma {:induction false} CountDownFrom(s: LockDelayState, n: nat)
    requires s.armed
    ensures Repeat(CountDown, s, n) == s.(timer := s.timer - n)
    decreases n
  {
    if n > 0 {
      CountDownFrom(CountDown(s), n - 1);
    }
  }

  lemma LocksAfterDelay(n: nat)
    ensures ShouldPlace(Repeat(CountDown, JustArmed, n), false) <==> n >= LOCK_DELAY_TIME
  {
    CountDownFrom(JustArmed, n);
  }
}
