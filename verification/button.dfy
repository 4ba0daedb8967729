/** The button task's time-based debounce.  The task remembers the tick of
    the last accepted press; a poll that sees the button pressed (input LOW)
    is accepted only when more than the debounce window has elapsed since
    then, computed in unsigned 32-bit tick arithmetic.  Nothing requires the
    button to be released between presses. */
module Button {

  /** Debounce window in milliseconds. */
  const DEBOUNCE_MS: nat := 50

  /** Milliseconds per scheduler tick (a tick rate of 1000 Hz). */
  const TICK_PERIOD_MS: nat := 1

  /** Tick counts are 32-bit unsigned and wrap at this modulus. */
  const TICK_MODULUS: nat := 0x1_0000_0000

  type Tick = t: int | 0 <= t < TICK_MODULUS

  /** `(now - last) * TICK_PERIOD_MS` evaluated in unsigned 32-bit arithmetic. */
  function ElapsedMs(now: Tick, last: Tick): Tick {
    (((now - last) % TICK_MODULUS) * TICK_PERIOD_MS) % TICK_MODULUS
  }

  /** Milliseconds between two instants, in unbounded arithmetic. */
  function MsBetween(earlier: int, later: int): int {
    (later - earlier) * TICK_PERIOD_MS
  }

  /** The wrapped difference is the real elapsed time whenever fewer than
      2^32 ticks separate the two instants, even across a wrap of the
      tick counter. */
  lemma ElapsedIsRealTime(earlier: int, later: int)
    requires 0 <= earlier <= later < earlier + TICK_MODULUS
    ensures ElapsedMs(later % TICK_MODULUS, earlier % TICK_MODULUS) == MsBetween(earlier, later)
  {
    var a, b := earlier % TICK_MODULUS, later % TICK_MODULUS;
    var qa, qb := earlier / TICK_MODULUS, later / TICK_MODULUS;
    assert earlier == qa * TICK_MODULUS + a;
    assert later == qb * TICK_MODULUS + b;
    if b >= a {
      assert qb == qa;
    } else {
      assert qb == qa + 1;
      assert b - a + TICK_MODULUS == later - earlier;
    }
  }

  /** Without a wrap in between, the elapsed time is the plain difference. */
  lemma ElapsedWithoutWrap(last: Tick, now: Tick)
    requires last <= now
    ensures ElapsedMs(now, last) == MsBetween(last, now)
  {
  }

  /** State of the button task after one poll, and whether it gave the toggle signal. */
  datatype Debounce = Debounce(last: Tick, give: bool)

  /** One poll: a pressed level outside the debounce window is accepted,
      recording its tick and giving the toggle signal; anything else, a
      bounce or a released button, leaves the recorded tick unchanged. */
  function Poll(last: Tick, pressed: bool, now: Tick): (r: Debounce)
    ensures r.give <==> pressed && ElapsedMs(now, last) > DEBOUNCE_MS
    ensures r.last == if r.give then now else last
  {
    if pressed && ElapsedMs(now, last) > DEBOUNCE_MS then Debounce(now, true)
    else Debounce(last, false)
  }

  /** A poll of the input: whether the button read as pressed, and the tick count then. */
  datatype PollInput = PollInput(pressed: bool, now: Tick)

  /** The ticks of the presses accepted over a sequence of polls. */
  function Accepted(last: Tick, polls: seq<PollInput>): seq<Tick>
    decreases |polls|
  {
    if |polls| == 0 then []
    else
      var r := Poll(last, polls[0].pressed, polls[0].now);
      (if r.give then [polls[0].now] else []) + Accepted(r.last, polls[1..])
  }

  /** The ticks of the polls never go backwards and do not precede `last`
      (no wrap of the tick counter within the trace). */
  predicate Monotone(last: Tick, polls: seq<PollInput>) {
    && (forall i :: 0 <= i < |polls| ==> last <= polls[i].now)
    && (forall i, j :: 0 <= i < j < |polls| ==> polls[i].now <= polls[j].now)
  }

  /** Each accepted press is more than the debounce window after the
      previous one, the first one more than the window after `last`. */
  predicate SpacedAfter(last: Tick, ticks: seq<Tick>) {
    forall i :: 0 <= i < |ticks| ==> GapMs(last, ticks, i) > DEBOUNCE_MS
  }

  /** Milliseconds from the press before the `i`-th one (or from `last`,
      for the first) to the `i`-th one. */
  function GapMs(last: Tick, ticks: seq<Tick>, i: int): int
    requires 0 <= i < |ticks|
  {
    MsBetween(if i == 0 then last else ticks[i - 1], ticks[i])
  }

  /** Prepending a press far enough after `last` keeps the spacing. */
  lemma SpacedCons(last: Tick, now: Tick, tail: seq<Tick>)
    requires MsBetween(last, now) > DEBOUNCE_MS
    requires SpacedAfter(now, tail)
    ensures SpacedAfter(last, [now] + tail)
  {
    var all := [now] + tail;
    forall i | 0 <= i < |all|
      ensures GapMs(last, all, i) > DEBOUNCE_MS
    {
      if i > 0 {
        assert all[i] == tail[i - 1];
        assert GapMs(last, all, i) == GapMs(now, tail, i - 1);
      }
    }
  }

  /** In a well-spaced sequence every press, not only the first, is more
      than the window after `last`. */
  lemma {:induction false} SpacedFromStart(last: Tick, ticks: seq<Tick>, i: int)
    requires SpacedAfter(last, ticks) && 0 <= i < |ticks|
    ensures MsBetween(last, ticks[i]) > DEBOUNCE_MS
    decreases i
  {
    assert GapMs(last, ticks, i) > DEBOUNCE_MS;
    if i > 0 {
      SpacedFromStart(last, ticks, i - 1);
    }
  }

  /** Any two consecutive accepted presses are more than 50 ms apart; since
      the task starts with `last` = 0, no press before tick 51 is accepted. */
  lemma {:induction false} AcceptedPressesSpaced(last: Tick, polls: seq<PollInput>)
    requires Monotone(last, polls)
    ensures SpacedAfter(last, Accepted(last, polls))
    ensures forall t :: t in Accepted(last, polls) ==> last < t
    decreases |polls|
  {
    if |polls| > 0 {
      var p := polls[0];
      var r := Poll(last, p.pressed, p.now);
      var rest := polls[1..];
      assert Monotone(r.last, rest) by {
        assert forall i :: 0 <= i < |rest| ==> rest[i] == polls[i + 1];
      }
      AcceptedPressesSpaced(r.last, rest);
      var tail := Accepted(r.last, rest);
      if r.give {
        ElapsedWithoutWrap(last, p.now);
        SpacedCons(last, p.now, tail);
        assert [p.now] + tail == Accepted(last, polls);
      } else {
        assert r.last == last;
        assert Accepted(last, polls) == [] + tail == tail;
      }
    }
  }

  /** A held button is accepted again each time the window expires: polled
      every 10 ticks from tick 100 to tick 170 it is accepted at 100 and 160. */
  lemma HeldButtonRepeats()
    ensures Accepted(0, [PollInput(true, 100), PollInput(true, 110), PollInput(true, 120),
                         PollInput(true, 130), PollInput(true, 140), PollInput(true, 150),
                         PollInput(true, 160), PollInput(true, 170)]) == [100, 160]
  {
  }
}
