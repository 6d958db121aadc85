/** The one-shot second timers (WillsIO.cpp:614-640).

    A timer counts whole seconds down to zero and raises a flag on the tick
    that takes it from 1 to 0; `expired()` reports the flag once and lowers
    it.  Each timer uses only its own slot of the arrays in the object, so a
    timer is modelled as that one slot. */
module Timers {
  import opened Bytes

  datatype Timer = Timer(counter: U16, expiredFlag: bool)

  /** The timer is counting down. */
  predicate Running(t: Timer)
  {
    t.counter > 0
  }

  /** `Timer::init(seconds)`: start a countdown; 0 leaves the timer stopped. */
  function Init(seconds: U16): (t: Timer)
    ensures t.counter == seconds && !t.expiredFlag
    ensures Running(t) <==> seconds != 0
  {
    Timer(seconds, false)
  }

  /** `Timer::tick()`, once a second.  A running timer loses one second and
      raises its flag when it reaches zero; a stopped timer is untouched. */
  function Tick(t: Timer): (r: Timer)
    ensures Running(t) ==> r.counter == t.counter - 1
    ensures !Running(t) ==> r == t
    ensures r.expiredFlag <==> t.expiredFlag || t.counter == 1
  {
    if t.counter > 0 then
      var c := t.counter - 1;
      if c == 0 then Timer(c, true) else Timer(c, t.expiredFlag)
    else t
  }

  datatype Checked = Checked(timer: Timer, fired: bool)

  /** `Timer::expired()`: reports a raised flag and lowers it. */
  function Expired(t: Timer): (r: Checked)
    ensures r.fired <==> t.expiredFlag
    ensures r.timer == t.(expiredFlag := false)
  {
    if t.expiredFlag then Checked(t.(expiredFlag := false), true)
    else Checked(t, false)
  }

  // ---------------------------------------------------------------------
  // Properties across calls
  // ---------------------------------------------------------------------

  /** k ticks in a row. */
  function Ticks(t: Timer, k: nat): (r: Timer)
    decreases k
  {
    if k == 0 then t else Ticks(Tick(t), k - 1)
  }

  /** Ticks take the counter down one second each, never below zero, and
      raise the flag exactly when zero is reached from a running start. */
  lemma {:induction false} TicksCount(t: Timer, k: nat)
    ensures Ticks(t, k).counter == if k <= t.counter then t.counter - k else 0
    ensures Ticks(t, k).expiredFlag <==> t.expiredFlag || (Running(t) && t.counter <= k)
    decreases k
  {
    if k > 0 {
      TicksCount(Tick(t), k - 1);
    }
  }

  /** Started with n > 0 seconds, the timer fires after exactly n ticks:
      not before, and exactly once after. */
  lemma FiresAfterCountdown(n: U16, k: nat)
    requires n > 0
    ensures k < n ==> !Expired(Ticks(Init(n), k)).fired
    ensures k >= n ==> Expired(Ticks(Init(n), k)).fired
    ensures k >= n ==> !Expired(Expired(Ticks(Init(n), k)).timer).fired
  {
    TicksCount(Init(n), k);
  }

  /** A timer started with 0 never fires. */
  lemma StoppedNeverFires(k: nat)
    ensures !Expired(Ticks(Init(0), k)).fired
  {
    TicksCount(Init(0), k);
  }

  /** What the program may do to a timer between two starts. */
  datatype Op = TickOp | CheckOp

  /** Apply the operations in order; the number of times `expired()`
      answered true. */
  function Run(t: Timer, ops: seq<Op>): (r: (Timer, nat))
    decreases |ops|
  {
    if ops == [] then (t, 0)
    else if ops[0] == TickOp then Run(Tick(t), ops[1..])
    else
      var c := Expired(t);
      var rest := Run(c.timer, ops[1..]);
      (rest.0, rest.1 + if c.fired then 1 else 0)
  }

  /** The one pending expiry a timer can still report. */
  function Owed(t: Timer): (n: nat)
    ensures n <= 1
    ensures n == 0 <==> !Running(t) && !t.expiredFlag
  {
    if Running(t) || t.expiredFlag then 1 else 0
  }

  lemma {:induction false} RunFiresAtMostOwed(t: Timer, ops: seq<Op>)
    requires !(Running(t) && t.expiredFlag)
    ensures Run(t, ops).1 <= Owed(t)
    decreases |ops|
  {
    if ops != [] {
      if ops[0] == TickOp {
        RunFiresAtMostOwed(Tick(t), ops[1..]);
      } else {
        RunFiresAtMostOwed(Expired(t).timer, ops[1..]);
      }
    }
  }

  /** Whatever mix of ticks and checks follows a start, `expired()` answers
      true at most once. */
  lemma ExpiresOncePerStart(seconds: U16, ops: seq<Op>)
    ensures Run(Init(seconds), ops).1 <= 1
    ensures seconds == 0 ==> Run(Init(seconds), ops).1 == 0
  {
    RunFiresAtMostOwed(Init(seconds), ops);
  }
}
