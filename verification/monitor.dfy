/** The monitoring system as a whole: the shared state that the tasks of the
    firmware communicate through, and one transition per iteration of each
    task's loop.  Tasks are not interleaved within an iteration; a run is a
    sequence of whole iterations in any order. */
module Monitor {
  import opened Signals
  import opened SampleQueue
  import Sensor
  import Button
  import Console

  /** The state the tasks share or keep across iterations. */
  datatype System = System(
    lastAlert: bool,          // the sampling task's edge-detector flag
    queue: Queue,             // readings from the sampling task to the consumer
    alertSem: Counting,       // alert units from the sampling task to the response task
    toggleSem: Binary,        // toggle requests from the button task and the web console
    lastPress: Button.Tick,   // the button task's tick of the last accepted press
    mode: bool,               // operating mode: false is NORMAL, true is ALERT
    alertState: bool,         // true while the alert blink runs
    latest: int)              // latest reading taken off the queue

  /** The capacities set up at start-up, and counts within them. */
  predicate Valid(s: System) {
    && s.alertSem.max == MAX_EVENTS && s.alertSem.Valid()
    && s.queue.capacity == QUEUE_LENGTH && s.queue.Valid()
  }

  /** The state after start-up: both signals empty, the queue empty, the
      detector armed, no press recorded, NORMAL mode, no alert, reading 0. */
  function Init(): (s: System)
    ensures Valid(s)
    ensures s.alertSem.count == 0 && !s.toggleSem.pending && |s.queue.items| == 0
    ensures !s.lastAlert && s.lastPress == 0
    ensures !s.mode && !s.alertState && s.latest == 0
  {
    System(false, Create(QUEUE_LENGTH), CreateCounting(MAX_EVENTS, 0), CreateBinary(),
           0, false, false, 0)
  }

  // ----- Sampling task -----

  /** One iteration of the sampling task: the reading is offered to the
      queue without waiting, then the edge detector may give one alert unit. */
  function SensorIteration(s: System, reading: int): (t: System)
    requires Valid(s)
    ensures Valid(t)
    ensures t.queue == TrySend(s.queue, reading).queue
    ensures t.lastAlert <==> Sensor.High(reading)
    ensures t.alertSem.count
         == if Sensor.High(reading) && !s.lastAlert then Min(s.alertSem.count + 1, MAX_EVENTS)
            else s.alertSem.count
    ensures t.(queue := s.queue, lastAlert := s.lastAlert, alertSem := s.alertSem) == s
  {
    var sent := TrySend(s.queue, reading);
    var e := Sensor.Detect(s.lastAlert, reading);
    s.(queue := sent.queue, lastAlert := e.lastAlert,
       alertSem := if e.post then Give(s.alertSem) else s.alertSem)
  }

  // ----- Consuming task -----

  /** One iteration of the consuming task: the oldest queued reading becomes
      the latest reading; on an empty queue the task stays blocked. */
  function ConsumerIteration(s: System): (t: System)
    requires Valid(s)
    ensures Valid(t)
    ensures |s.queue.items| == 0 ==> t == s
    ensures |s.queue.items| > 0 ==>
      t.latest == s.queue.items[0] && [t.latest] + t.queue.items == s.queue.items
    ensures t.(queue := s.queue, latest := s.latest) == s
  {
    match Receive(s.queue)
    case Nothing => s
    case Item(v, rest) => s.(queue := rest, latest := v)
  }

  // ----- Button task -----

  /** One iteration of the button task: a press outside the debounce window
      records its tick and gives the toggle signal. */
  function ButtonIteration(s: System, pressed: bool, now: Button.Tick): (t: System)
    requires Valid(s)
    ensures Valid(t)
    ensures t.toggleSem.pending
        <==> s.toggleSem.pending || (pressed && Button.ElapsedMs(now, s.lastPress) > Button.DEBOUNCE_MS)
    ensures t.lastPress
         == if pressed && Button.ElapsedMs(now, s.lastPress) > Button.DEBOUNCE_MS then now else s.lastPress
    ensures t.(toggleSem := s.toggleSem, lastPress := s.lastPress) == s
  {
    var r := Button.Poll(s.lastPress, pressed, now);
    s.(lastPress := r.last, toggleSem := if r.give then GiveBinary(s.toggleSem) else s.toggleSem)
  }

  // ----- Web console -----

  /** The status the console page shows. */
  function Page(s: System): (v: Console.StatusView)
    ensures Console.Parse(v) == Console.Known(s.mode, s.alertState, s.latest)
  {
    Console.RenderRoundTrip(s.mode, s.alertState, s.latest);
    Console.Render(s.mode, s.alertState, s.latest)
  }

  /** State after a web request, and the status page sent back. */
  datatype Reply = Reply(sys: System, page: Console.StatusView)

  /** The toggle request: gives the toggle signal, then sends the page.  The
      page still shows the old mode: the flip is left to the response task. */
  function HandleToggle(s: System): (r: Reply)
    ensures r.sys.toggleSem.pending
    ensures r.sys.(toggleSem := s.toggleSem) == s
    ensures Console.Parse(r.page) == Console.Known(s.mode, s.alertState, s.latest)
  {
    var t := s.(toggleSem := GiveBinary(s.toggleSem));
    Reply(t, Page(t))
  }

  // ----- Response task -----

  /** Number of on/off cycles of the alert blink, and their durations. */
  const BLINK_CYCLES: nat := 3
  const BLINK_ON_MS: nat := 200
  const BLINK_OFF_MS: nat := 200

  /** What the response task does, in order: writes to the alert state, the
      alert LED and the mode, and the waits between them. */
  datatype Effect = SetAlertState(active: bool) | AlertLed(on: bool) | Wait(ms: nat) | SetMode(alertMode: bool)

  /** Milliseconds spent waiting while the alert state reads true. */
  function ActiveWait(active: bool, effects: seq<Effect>): nat
    decreases |effects|
  {
    if |effects| == 0 then 0
    else match effects[0]
      case SetAlertState(a) => ActiveWait(a, effects[1..])
      case Wait(ms) => (if active then ms else 0) + ActiveWait(active, effects[1..])
      case _ => ActiveWait(active, effects[1..])
  }

  /** The alert state after the effects. */
  function AlertStateAfter(active: bool, effects: seq<Effect>): bool
    decreases |effects|
  {
    if |effects| == 0 then active
    else match effects[0]
      case SetAlertState(a) => AlertStateAfter(a, effects[1..])
      case _ => AlertStateAfter(active, effects[1..])
  }

  /** How many times the alert LED is switched on. */
  function Flashes(effects: seq<Effect>): nat
    decreases |effects|
  {
    if |effects| == 0 then 0
    else (if effects[0] == AlertLed(true) then 1 else 0) + Flashes(effects[1..])
  }

  /** The mode after the effects. */
  function ModeAfter(mode: bool, effects: seq<Effect>): bool
    decreases |effects|
  {
    if |effects| == 0 then mode
    else match effects[0]
      case SetMode(m) => ModeAfter(m, effects[1..])
      case _ => ModeAfter(mode, effects[1..])
  }

  /** Whether the alert LED is lit after the effects. */
  function LedAfter(lit: bool, effects: seq<Effect>): bool
    decreases |effects|
  {
    if |effects| == 0 then lit
    else match effects[0]
      case AlertLed(on) => LedAfter(on, effects[1..])
      case _ => LedAfter(lit, effects[1..])
  }

  /** Milliseconds spent waiting while the alert LED is lit. */
  function LitWait(lit: bool, effects: seq<Effect>): nat
    decreases |effects|
  {
    if |effects| == 0 then 0
    else match effects[0]
      case AlertLed(on) => LitWait(on, effects[1..])
      case Wait(ms) => (if lit then ms else 0) + LitWait(lit, effects[1..])
      case _ => LitWait(lit, effects[1..])
  }

  /** Milliseconds spent waiting while the alert LED is dark. */
  function DarkWait(lit: bool, effects: seq<Effect>): nat
    decreases |effects|
  {
    if |effects| == 0 then 0
    else match effects[0]
      case AlertLed(on) => DarkWait(on, effects[1..])
      case Wait(ms) => (if lit then 0 else ms) + DarkWait(lit, effects[1..])
      case _ => DarkWait(lit, effects[1..])
  }

  /** The alert-state, flash and mode readings of the effects compose over
      concatenation. */
  lemma {:induction false} EffectsAppend(active: bool, mode: bool, a: seq<Effect>, b: seq<Effect>)
    ensures ActiveWait(active, a + b) == ActiveWait(active, a) + ActiveWait(AlertStateAfter(active, a), b)
    ensures AlertStateAfter(active, a + b) == AlertStateAfter(AlertStateAfter(active, a), b)
    ensures Flashes(a + b) == Flashes(a) + Flashes(b)
    ensures ModeAfter(mode, a + b) == ModeAfter(ModeAfter(mode, a), b)
    decreases |a|
  {
    if |a| == 0 {
      assert a + b == b;
    } else {
      assert (a + b)[0] == a[0];
      assert (a + b)[1..] == a[1..] + b;
      match a[0]
      case SetAlertState(x) => EffectsAppend(x, mode, a[1..], b);
      case SetMode(m) => EffectsAppend(active, m, a[1..], b);
      case _ => EffectsAppend(active, mode, a[1..], b);
    }
  }

  /** The LED readings of the effects compose over concatenation. */
  lemma {:induction false} LedEffectsAppend(lit: bool, a: seq<Effect>, b: seq<Effect>)
    ensures LedAfter(lit, a + b) == LedAfter(LedAfter(lit, a), b)
    ensures LitWait(lit, a + b) == LitWait(lit, a) + LitWait(LedAfter(lit, a), b)
    ensures DarkWait(lit, a + b) == DarkWait(lit, a) + DarkWait(LedAfter(lit, a), b)
    decreases |a|
  {
    if |a| == 0 {
      assert a + b == b;
    } else {
      assert (a + b)[0] == a[0];
      assert (a + b)[1..] == a[1..] + b;
      match a[0]
      case AlertLed(on) => LedEffectsAppend(on, a[1..], b);
      case _ => LedEffectsAppend(lit, a[1..], b);
    }
  }

  /** No effect writes the mode. */
  predicate NoModeWrite(effects: seq<Effect>) {
    forall i :: 0 <= i < |effects| ==> !effects[i].SetMode?
  }

  /** Only the alert LED is driven, and waits taken. */
  predicate LedAndWaitsOnly(effects: seq<Effect>) {
    forall i :: 0 <= i < |effects| ==> effects[i].AlertLed? || effects[i].Wait?
  }

  /** Effects that write neither the alert state nor the mode leave both alone. */
  lemma {:induction false} LedAndWaitsKeepState(active: bool, mode: bool, effects: seq<Effect>)
    requires LedAndWaitsOnly(effects)
    ensures AlertStateAfter(active, effects) == active
    ensures ModeAfter(mode, effects) == mode
    decreases |effects|
  {
    if |effects| > 0 {
      assert LedAndWaitsOnly(effects[1..]) by {
        forall i | 0 <= i < |effects| - 1 ensures effects[1..][i] == effects[i + 1] { }
      }
      LedAndWaitsKeepState(active, mode, effects[1..]);
    }
  }

  /** Effects that do not write the mode leave it alone. */
  lemma {:induction false} ModeUnchanged(mode: bool, effects: seq<Effect>)
    requires NoModeWrite(effects)
    ensures ModeAfter(mode, effects) == mode
    decreases |effects|
  {
    if |effects| > 0 {
      assert NoModeWrite(effects[1..]) by {
        forall i | 0 <= i < |effects| - 1 ensures effects[1..][i] == effects[i + 1] { }
      }
      ModeUnchanged(mode, effects[1..]);
    }
  }

  /** Half of a blink cycle: the alert LED switched, then a wait with it
      in that state. */
  function Phase(on: bool, ms: nat): (e: seq<Effect>)
    ensures LedAndWaitsOnly(e)
    ensures Flashes(e) == if on then 1 else 0
    ensures forall lit :: LedAfter(lit, e) == on
    ensures forall lit :: LitWait(lit, e) == (if on then ms else 0)
    ensures forall lit :: DarkWait(lit, e) == (if on then 0 else ms)
    ensures forall active :: ActiveWait(active, e) == (if active then ms else 0)
    ensures forall active :: AlertStateAfter(active, e) == active
  {
    var w := [Wait(ms)];
    var e := [AlertLed(on)] + w;
    assert e[0] == AlertLed(on) && e[1..] == w && w[0] == Wait(ms) && w[1..] == [];
    forall x: bool
      ensures LedAfter(x, e) == on
      ensures LitWait(x, e) == (if on then ms else 0) && DarkWait(x, e) == (if on then 0 else ms)
      ensures ActiveWait(x, e) == (if x then ms else 0) && AlertStateAfter(x, e) == x
    {
      // each reading of `e` steps over the switch to `w`, then over the wait to []
      assert LitWait(x, e) == LitWait(on, w) == (if on then ms else 0) + LitWait(on, []);
      assert DarkWait(x, e) == DarkWait(on, w) == (if on then 0 else ms) + DarkWait(on, []);
      assert ActiveWait(x, e) == ActiveWait(x, w) == (if x then ms else 0) + ActiveWait(x, []);
      assert LedAfter(x, e) == LedAfter(on, w) == LedAfter(on, []);
      assert AlertStateAfter(x, e) == AlertStateAfter(x, w) == AlertStateAfter(x, []);
    }
    assert Flashes(e) == (if on then 1 else 0) + Flashes(w) && Flashes(w) == Flashes([]);
    e
  }

  /** One on/off cycle of the alert LED: lit for 200 ms, then dark for
      200 ms, whatever its state before. */
  function BlinkCycle(): (e: seq<Effect>)
    ensures LedAndWaitsOnly(e)
    ensures |e| == 4 && e[0] == AlertLed(true)
    ensures Flashes(e) == 1
    ensures forall lit :: !LedAfter(lit, e) && LitWait(lit, e) == BLINK_ON_MS && DarkWait(lit, e) == BLINK_OFF_MS
    ensures ActiveWait(true, e) == BLINK_ON_MS + BLINK_OFF_MS
    ensures ActiveWait(false, e) == 0
  {
    var on, off := Phase(true, BLINK_ON_MS), Phase(false, BLINK_OFF_MS);
    EffectsAppend(true, false, on, off);
    EffectsAppend(false, false, on, off);
    forall lit: bool
      ensures !LedAfter(lit, on + off) && LitWait(lit, on + off) == BLINK_ON_MS
           && DarkWait(lit, on + off) == BLINK_OFF_MS
    {
      LedEffectsAppend(lit, on, off);
    }
    assert LedAndWaitsOnly(on + off) by {
      forall i | 0 <= i < |on + off| ensures (on + off)[i].AlertLed? || (on + off)[i].Wait? {
        if i >= |on| {
          assert (on + off)[i] == off[i - |on|];
        }
      }
    }
    on + off
  }

  /** The blink loop run `n` times from a dark LED: `n` flashes, `n`
      periods of 200 ms lit and 200 ms dark, and the LED dark at the end,
      driving only the alert LED. */
  function Blink(n: nat): (e: seq<Effect>)
    ensures |e| == 4 * n
    ensures LedAndWaitsOnly(e)
    ensures ActiveWait(true, e) == n * (BLINK_ON_MS + BLINK_OFF_MS)
    ensures ActiveWait(false, e) == 0
    ensures Flashes(e) == n
    ensures !LedAfter(false, e)
    ensures LitWait(false, e) == n * BLINK_ON_MS && DarkWait(false, e) == n * BLINK_OFF_MS
    decreases n
  {
    if n == 0 then []
    else
      var cycle, rest := BlinkCycle(), Blink(n - 1);
      LedAndWaitsKeepState(true, false, cycle);
      LedAndWaitsKeepState(false, false, cycle);
      EffectsAppend(true, false, cycle, rest);
      EffectsAppend(false, false, cycle, rest);
      LedEffectsAppend(false, cycle, rest);
      assert LedAndWaitsOnly(cycle + rest) by {
        forall i | 0 <= i < |cycle + rest|
          ensures (cycle + rest)[i].AlertLed? || (cycle + rest)[i].Wait?
        {
          if i >= |cycle| {
            assert (cycle + rest)[i] == rest[i - |cycle|];
          }
        }
      }
      cycle + rest
  }

  /** Effects of the LED and waits only, between setting and clearing the
      alert state: the waits all fall while the alert state reads true,
      whatever it read before, and it reads false afterwards; the LED is
      driven by the blink effects alone. */
  lemma FramedBlink(active: bool, lit: bool, blink: seq<Effect>)
    requires LedAndWaitsOnly(blink)
    ensures var e := [SetAlertState(true)] + blink + [SetAlertState(false)];
      && ActiveWait(active, e) == ActiveWait(true, blink)
      && !AlertStateAfter(active, e)
      && Flashes(e) == Flashes(blink)
      && NoModeWrite(e)
      && LedAfter(lit, e) == LedAfter(lit, blink)
      && LitWait(lit, e) == LitWait(lit, blink)
      && DarkWait(lit, e) == DarkWait(lit, blink)
  {
    var on, off := [SetAlertState(true)], [SetAlertState(false)];
    var rest := blink + off;
    var e := on + blink + off;
    assert e == on + rest && e[0] == SetAlertState(true) && e[1..] == rest;
    LedAndWaitsKeepState(true, false, blink);
    EffectsAppend(true, false, blink, off);
    LedEffectsAppend(lit, blink, off);
    assert off[1..] == [];
    assert NoModeWrite(e) by {
      forall i | 0 <= i < |e| ensures !e[i].SetMode? {
        if 0 < i < |e| - 1 {
          assert e[i] == blink[i - 1];
        }
      }
    }
  }

  /** The alert reaction: the alert state set, the blink loop run
      BLINK_CYCLES times, the alert state cleared; the alert state reads
      true for exactly the blink loop's waits, and the alert LED, dark
      before, is dark again at the end. */
  function AlertReaction(): (e: seq<Effect>)
    ensures |e| > 0 && e[0] == SetAlertState(true) && e[|e| - 1] == SetAlertState(false)
    ensures ActiveWait(false, e) == BLINK_CYCLES * (BLINK_ON_MS + BLINK_OFF_MS)
    ensures !AlertStateAfter(false, e) && !AlertStateAfter(true, e)
    ensures NoModeWrite(e)
    ensures Flashes(e) == BLINK_CYCLES
    ensures !LedAfter(false, e)
    ensures LitWait(false, e) == BLINK_CYCLES * BLINK_ON_MS && DarkWait(false, e) == BLINK_CYCLES * BLINK_OFF_MS
  {
    var blink := Blink(BLINK_CYCLES);
    FramedBlink(false, false, blink);
    FramedBlink(true, false, blink);
    [SetAlertState(true)] + blink + [SetAlertState(false)]
  }

  /** The alert semaphore and alert state after the alert half of a
      response iteration, and what it did. */
  datatype AlertOutcome = AlertOutcome(sem: Counting, active: bool, effects: seq<Effect>)

  /** The alert half of a response iteration: if an alert unit is pending,
      take exactly one and run the alert reaction. */
  function AlertHalf(sem: Counting, active: bool): (r: AlertOutcome)
    requires sem.Valid()
    ensures r.sem.Valid() && r.sem.max == sem.max
    ensures r.sem.count + (if sem.count > 0 then 1 else 0) == sem.count
    ensures sem.count > 0 ==>
      && ActiveWait(false, r.effects) == BLINK_CYCLES * (BLINK_ON_MS + BLINK_OFF_MS)
      && Flashes(r.effects) == BLINK_CYCLES
      && !r.active
      && !LedAfter(false, r.effects)
    ensures sem.count == 0 ==> r.effects == [] && r.active == active
    ensures r.active == AlertStateAfter(active, r.effects)
    ensures NoModeWrite(r.effects)
  {
    var alert := Take(sem);
    if alert.ok then
      var e := AlertReaction();
      AlertOutcome(alert.rest, false, e)
    else
      AlertOutcome(sem, active, [])
  }

  /** The toggle semaphore and mode after the toggle half of a response
      iteration, and what it did. */
  datatype ToggleOutcome = ToggleOutcome(sem: Binary, mode: bool, effects: seq<Effect>)

  /** The toggle half of a response iteration: if a toggle is pending, take
      it and flip the mode once. */
  function ToggleHalf(sem: Binary, mode: bool): (r: ToggleOutcome)
    ensures r.mode <==> (mode != sem.pending)
    ensures !r.sem.pending
    ensures r.effects == if sem.pending then [SetMode(r.mode)] else []
    ensures ModeAfter(mode, r.effects) == r.mode
    ensures Flashes(r.effects) == 0
    ensures ActiveWait(true, r.effects) == 0 && ActiveWait(false, r.effects) == 0
  {
    var toggle := TakeBinary(sem);
    if toggle.ok then ToggleOutcome(toggle.rest, !mode, [SetMode(!mode)])
    else ToggleOutcome(toggle.rest, mode, [])
  }

  /** Running the alert half and then the toggle half: the mode is decided
      by the toggle half alone, the waits and flashes by the alert half
      alone, and a mode change is the last thing the iteration does. */
  lemma HalvesCompose(alertSem: Counting, active: bool, toggleSem: Binary, mode: bool)
    requires alertSem.Valid()
    ensures var a, b := AlertHalf(alertSem, active), ToggleHalf(toggleSem, mode);
      var e := a.effects + b.effects;
      && ModeAfter(mode, e) == b.mode
      && ActiveWait(false, e) == ActiveWait(false, a.effects)
      && Flashes(e) == Flashes(a.effects)
      && (toggleSem.pending ==> |e| > 0 && e[|e| - 1] == SetMode(b.mode))
  {
    var a, b := AlertHalf(alertSem, active), ToggleHalf(toggleSem, mode);
    EffectsAppend(false, mode, a.effects, b.effects);
    ModeUnchanged(mode, a.effects);
    if toggleSem.pending {
      var e := a.effects + b.effects;
      assert b.effects == [SetMode(b.mode)];
      assert e[|e| - 1] == b.effects[0];
    }
  }

  /** State after one response iteration, and what the iteration did. */
  datatype Response = Response(sys: System, effects: seq<Effect>)

  /** One iteration of the response task: the alert half, then the toggle
      half.  Each takes at most one unit, both may act in one iteration
      with the alert first, the mode flips at most once, and the latest
      reading, the queue and the other tasks' state are untouched. */
  function ResponseIteration(s: System): (r: Response)
    requires Valid(s)
    ensures Valid(r.sys)
    ensures r.sys.alertSem.count + (if s.alertSem.count > 0 then 1 else 0) == s.alertSem.count
    ensures s.alertSem.count > 0 ==>
      && ActiveWait(false, r.effects) == BLINK_CYCLES * (BLINK_ON_MS + BLINK_OFF_MS)
      && Flashes(r.effects) == BLINK_CYCLES
      && !r.sys.alertState
    ensures s.alertSem.count == 0 ==> Flashes(r.effects) == 0 && r.sys.alertState == s.alertState
    ensures r.sys.mode == ModeAfter(s.mode, r.effects)
    ensures r.sys.mode <==> (s.mode != s.toggleSem.pending)
    ensures !r.sys.toggleSem.pending
    ensures s.toggleSem.pending ==> |r.effects| > 0 && r.effects[|r.effects| - 1] == SetMode(r.sys.mode)
    ensures r.sys.latest == s.latest && r.sys.queue == s.queue
    ensures r.sys.lastAlert == s.lastAlert && r.sys.lastPress == s.lastPress
  {
    var a := AlertHalf(s.alertSem, s.alertState);
    var b := ToggleHalf(s.toggleSem, s.mode);
    HalvesCompose(s.alertSem, s.alertState, s.toggleSem, s.mode);
    Response(s.(alertSem := a.sem, alertState := a.active, toggleSem := b.sem, mode := b.mode),
             a.effects + b.effects)
  }

  // ----- Runs -----

  /** One task iteration or web request. */
  datatype Event =
    | Sample(reading: int)
    | Consume
    | ButtonPoll(pressed: bool, now: Button.Tick)
    | Respond
    | WebToggle

  function Step(s: System, e: Event): (t: System)
    requires Valid(s)
    ensures Valid(t)
    ensures !s.alertState ==> !t.alertState
  {
    match e
    case Sample(reading) => SensorIteration(s, reading)
    case Consume => ConsumerIteration(s)
    case ButtonPoll(pressed, now) => ButtonIteration(s, pressed, now)
    case Respond => ResponseIteration(s).sys
    case WebToggle => HandleToggle(s).sys
  }

  /** A run of iterations in order.  The capacities and the bounds on the
      signal counts and the queue hold throughout, and a false alert state
      stays false (from start-up it is false between all iterations, see
      `RunFromInitBounded`). */
  function Run(s: System, es: seq<Event>): (t: System)
    requires Valid(s)
    ensures Valid(t)
    // the bounds that Valid implies, spelled out
    ensures t.alertSem.count <= MAX_EVENTS && |t.queue.items| <= QUEUE_LENGTH
    ensures !s.alertState ==> !t.alertState
    decreases |es|
  {
    if |es| == 0 then s else Run(Step(s, es[0]), es[1..])
  }

  /** A run is its first iteration followed by the rest. */
  lemma RunCons(s: System, e: Event, es: seq<Event>)
    requires Valid(s)
    ensures Run(s, [e] + es) == Run(Step(s, e), es)
  {
    assert ([e] + es)[0] == e && ([e] + es)[1..] == es;
  }

  lemma {:induction false} RunAppend(s: System, a: seq<Event>, b: seq<Event>)
    requires Valid(s)
    ensures Run(s, a + b) == Run(Run(s, a), b)
    decreases |a|
  {
    if |a| == 0 {
      assert a + b == b;
    } else {
      assert (a + b)[0] == a[0];
      assert (a + b)[1..] == a[1..] + b;
      RunAppend(Step(s, a[0]), a[1..], b);
    }
  }

  /** From start-up, any run keeps the alert count in [0, 10], the queue
      within 20 readings, and the alert state false between iterations. */
  lemma RunFromInitBounded(es: seq<Event>)
    ensures Valid(Run(Init(), es))
    ensures Run(Init(), es).alertSem.count <= 10
    ensures |Run(Init(), es).queue.items| <= 20
    ensures !Run(Init(), es).alertState
  {
  }

  /** A sampling-only run over a trace of readings. */
  function Samples(readings: seq<int>): (es: seq<Event>)
    ensures |es| == |readings|
    decreases |readings|
  {
    if |readings| == 0 then [] else [Sample(readings[0])] + Samples(readings[1..])
  }

  /** Reading `i` is sampled at position `i` of the run. */
  lemma {:induction false} SamplesInOrder(readings: seq<int>)
    ensures forall i :: 0 <= i < |readings| ==> Samples(readings)[i] == Sample(readings[i])
    decreases |readings|
  {
    if |readings| > 0 {
      var es, rest := Samples(readings), Samples(readings[1..]);
      SamplesInOrder(readings[1..]);
      forall i | 0 < i < |readings|
        ensures es[i] == Sample(readings[i])
      {
        assert es[i] == rest[i - 1] && readings[1..][i - 1] == readings[i];
      }
    }
  }

  /** Sampling a trace sends every reading to the queue and gives the alert
      signal once per alert post of the edge detector. */
  lemma {:induction false} SamplingEffect(s: System, readings: seq<int>)
    requires Valid(s)
    ensures Run(s, Samples(readings)).queue == SendAll(s.queue, readings)
    ensures Run(s, Samples(readings)).alertSem
         == GiveMany(s.alertSem, Sensor.CountTrue(Sensor.AlertTrace(s.lastAlert, readings)))
    ensures Run(s, Samples(readings)).(queue := s.queue, alertSem := s.alertSem, lastAlert := s.lastAlert) == s
    decreases |readings|
  {
    if |readings| > 0 {
      var t := SensorIteration(s, readings[0]);
      RunCons(s, Sample(readings[0]), Samples(readings[1..]));
      SamplingEffect(t, readings[1..]);
    }
  }

  /** From start-up, with no response in between, the alert count after a
      trace of readings is the number of maximal runs above the threshold,
      capped at 10, and the queue holds the first 20 readings. */
  lemma SamplingFromInit(readings: seq<int>)
    ensures Run(Init(), Samples(readings)).alertSem.count == Min(Sensor.Runs(readings), MAX_EVENTS)
    ensures Run(Init(), Samples(readings)).queue.items == readings[..Min(|readings|, QUEUE_LENGTH)]
  {
    var s := Init();
    var t := Run(s, Samples(readings));
    var posts := Sensor.CountTrue(Sensor.AlertTrace(false, readings));
    SamplingEffect(s, readings);
    Sensor.AlertCountIsRuns(readings);
    GiveManySaturates(s.alertSem, posts);
    assert t.alertSem.count == Min(posts, MAX_EVENTS);
    SendAllKeepsOldest(s.queue, readings);
    assert s.queue.items == [] && s.queue.Room() == QUEUE_LENGTH;
  }

  /** The queue operations of a run: each sample sends, each consumer iteration receives. */
  function ChannelOps(es: seq<Event>): seq<Op>
    decreases |es|
  {
    if |es| == 0 then []
    else
      (match es[0]
       case Sample(v) => [Push(v)]
       case Consume => [Pop]
       case _ => []) + ChannelOps(es[1..])
  }

  /** The latest reading after some received readings. */
  function LastOr(latest: int, observed: seq<int>): int {
    if |observed| == 0 then latest else observed[|observed| - 1]
  }

  /** The queue and the latest reading of a run are those of its queue
      operations alone: the latest reading is always the most recently
      received one. */
  lemma {:induction false} RunFollowsChannel(s: System, es: seq<Event>)
    requires Valid(s)
    ensures Run(s, es).queue == Exec(s.queue, ChannelOps(es)).queue
    ensures Run(s, es).latest == LastOr(s.latest, Exec(s.queue, ChannelOps(es)).observed)
    decreases |es|
  {
    if |es| > 0 {
      var t := Step(s, es[0]);
      RunFollowsChannel(t, es[1..]);
      var rest := ChannelOps(es[1..]);
      match es[0]
      case Sample(v) =>
        assert ChannelOps(es) == [Push(v)] + rest;
        assert ([Push(v)] + rest)[1..] == rest;
      case Consume =>
        assert ChannelOps(es) == [Pop] + rest;
        assert ([Pop] + rest)[1..] == rest;
        match Receive(s.queue) {
          case Nothing =>
          case Item(v, q) =>
            var tr := Exec(q, rest);
            assert LastOr(t.latest, tr.observed) == LastOr(s.latest, [v] + tr.observed);
        }
      case ButtonPoll(_, _) =>
        assert ChannelOps(es) == rest;
      case Respond =>
        assert ChannelOps(es) == rest;
      case WebToggle =>
        assert ChannelOps(es) == rest;
    }
  }

  /** Over any run, the consumer receives readings in the order the queue
      accepted them, and the latest reading is the last one received. */
  lemma ConsumerSeesSendOrder(s: System, es: seq<Event>)
    requires Valid(s)
    ensures var tr := Exec(s.queue, ChannelOps(es));
      && s.queue.items + tr.accepted == tr.observed + Run(s, es).queue.items
      && Run(s, es).latest == LastOr(s.latest, tr.observed)
  {
    RunFollowsChannel(s, es);
    ExecIsFifo(s.queue, ChannelOps(es));
  }

  /** Each reading sampled and then taken off the queue by the consumer. */
  function SampledAndConsumed(readings: seq<int>): (es: seq<Event>)
    ensures |es| == 2 * |readings|
    decreases |readings|
  {
    if |readings| == 0 then [] else [Sample(readings[0]), Consume] + SampledAndConsumed(readings[1..])
  }

  /** When the consumer keeps up with the sampling task, no reading is
      dropped: the consumer receives every reading, in order. */
  lemma {:induction false} KeepingUpSeesEverything(q: Queue, readings: seq<int>)
    requires q.Valid() && |q.items| == 0 && q.capacity > 0
    ensures Exec(q, ChannelOps(SampledAndConsumed(readings))).observed == readings
    ensures |Exec(q, ChannelOps(SampledAndConsumed(readings))).queue.items| == 0
    decreases |readings|
  {
    if |readings| > 0 {
      var es := SampledAndConsumed(readings);
      var rest := SampledAndConsumed(readings[1..]);
      assert es[1..] == [Consume] + rest;
      assert ([Consume] + rest)[1..] == rest;
      var ops := ChannelOps(rest);
      assert ChannelOps(es) == [Push(readings[0])] + ([Pop] + ops);
      assert ([Push(readings[0])] + ([Pop] + ops))[1..] == [Pop] + ops;
      assert ([Pop] + ops)[1..] == ops;
      var q1 := TrySend(q, readings[0]).queue;
      assert q1.items == [readings[0]];
      assert q1.(items := q1.items[1..]) == q;
      KeepingUpSeesEverything(q, readings[1..]);
      assert [readings[0]] + readings[1..] == readings;
    }
  }

  /** A reading sampled into an empty queue and taken off again at once:
      it becomes the latest reading, the queue is empty again, and the
      detector acts on it as on its own. */
  lemma SampleThenConsume(s: System, reading: int, rest: seq<Event>)
    requires Valid(s) && |s.queue.items| == 0
    ensures var e := Sensor.Detect(s.lastAlert, reading);
      var t := ConsumerIteration(SensorIteration(s, reading));
      && Run(s, [Sample(reading), Consume] + rest) == Run(t, rest)
      && t.latest == reading && |t.queue.items| == 0
      && t.lastAlert == e.lastAlert
      && t.alertSem == (if e.post then Give(s.alertSem) else s.alertSem)
  {
    var es := [Sample(reading), Consume] + rest;
    assert es[0] == Sample(reading) && es[1..] == [Consume] + rest;
    assert ([Consume] + rest)[1..] == rest;
  }

  /** The schedule alternates: reading `i` is sampled at position `2i` and
      consumed right after, at `2i + 1`. */
  lemma {:induction false} ScheduleAlternates(readings: seq<int>)
    ensures forall i :: 0 <= i < |readings| ==>
      SampledAndConsumed(readings)[2 * i] == Sample(readings[i])
      && SampledAndConsumed(readings)[2 * i + 1] == Consume
    decreases |readings|
  {
    if |readings| > 0 {
      var es, rest := SampledAndConsumed(readings), SampledAndConsumed(readings[1..]);
      ScheduleAlternates(readings[1..]);
      assert es == [Sample(readings[0]), Consume] + rest;
      forall i | 0 < i < |readings|
        ensures es[2 * i] == Sample(readings[i]) && es[2 * i + 1] == Consume
      {
        assert es[2 * i] == rest[2 * (i - 1)] && es[2 * i + 1] == rest[2 * (i - 1) + 1];
        assert readings[1..][i - 1] == readings[i];
      }
    }
  }

  /** The schedule for a non-empty trace: its first reading sampled and
      consumed, then the schedule for the rest. */
  lemma ScheduleCons(readings: seq<int>)
    requires |readings| > 0
    ensures SampledAndConsumed(readings)
         == [Sample(readings[0]), Consume] + SampledAndConsumed(readings[1..])
  {
  }

  /** When the consumer keeps up, the latest reading follows the sensor
      and the queue stays empty. */
  lemma {:induction false} KeepingUp(s: System, readings: seq<int>)
    requires Valid(s) && |s.queue.items| == 0
    ensures Run(s, SampledAndConsumed(readings)).latest == LastOr(s.latest, readings)
    ensures |Run(s, SampledAndConsumed(readings)).queue.items| == 0
    decreases |readings|
  {
    if |readings| > 0 {
      var rest := SampledAndConsumed(readings[1..]);
      ScheduleCons(readings);
      SampleThenConsume(s, readings[0], rest);
      var t := ConsumerIteration(SensorIteration(s, readings[0]));
      KeepingUp(t, readings[1..]);
    }
  }

  /** When the consumer keeps up, the alert signal is given once per alert
      post of the edge detector. */
  lemma {:induction false} KeepingUpAlerts(s: System, readings: seq<int>)
    requires Valid(s) && |s.queue.items| == 0
    ensures Run(s, SampledAndConsumed(readings)).alertSem
         == GiveMany(s.alertSem, Sensor.CountTrue(Sensor.AlertTrace(s.lastAlert, readings)))
    decreases |readings|
  {
    if |readings| > 0 {
      var rest := SampledAndConsumed(readings[1..]);
      ScheduleCons(readings);
      SampleThenConsume(s, readings[0], rest);
      var t := ConsumerIteration(SensorIteration(s, readings[0]));
      KeepingUpAlerts(t, readings[1..]);
      var e := Sensor.Detect(s.lastAlert, readings[0]);
      var trace := Sensor.AlertTrace(e.lastAlert, readings[1..]);
      assert Sensor.AlertTrace(s.lastAlert, readings) == [e.post] + trace;
      assert ([e.post] + trace)[1..] == trace;
    }
  }

  /** Any number of toggle requests in a row leave the toggle signal set
      and change nothing else. */
  lemma {:induction false} TogglesSetSignal(s: System, n: nat)
    requires Valid(s) && n > 0
    ensures Run(s, seq(n, _ => WebToggle)) == s.(toggleSem := Binary(true))
    decreases n
  {
    var es := seq(n, _ => WebToggle);
    var t := HandleToggle(s).sys;
    assert t == s.(toggleSem := Binary(true));
    var rest := seq(n - 1, _ => WebToggle);
    assert es == [WebToggle] + rest;
    RunCons(s, WebToggle, rest);
    if n > 1 {
      TogglesSetSignal(t, n - 1);
    } else {
      assert rest == [];
    }
  }

  /** Repeated toggle requests before the response task runs coalesce: a
      response iteration then flips the mode exactly once. */
  lemma TogglesCoalesce(s: System, n: nat)
    requires Valid(s) && n > 0
    ensures Run(s, seq(n, _ => WebToggle)) == s.(toggleSem := Binary(true))
    ensures ResponseIteration(Run(s, seq(n, _ => WebToggle))).sys.mode == !s.mode
  {
    TogglesSetSignal(s, n);
  }

  /** A button-only run over a trace of polls. */
  function ButtonPolls(polls: seq<Button.PollInput>): (es: seq<Event>)
    ensures |es| == |polls|
    decreases |polls|
  {
    if |polls| == 0 then []
    else [ButtonPoll(polls[0].pressed, polls[0].now)] + ButtonPolls(polls[1..])
  }

  /** Poll `i` is the button iteration at position `i` of the run. */
  lemma {:induction false} ButtonPollsInOrder(polls: seq<Button.PollInput>)
    ensures forall i :: 0 <= i < |polls| ==>
      ButtonPolls(polls)[i] == ButtonPoll(polls[i].pressed, polls[i].now)
    decreases |polls|
  {
    if |polls| > 0 {
      var es, rest := ButtonPolls(polls), ButtonPolls(polls[1..]);
      ButtonPollsInOrder(polls[1..]);
      forall i | 0 < i < |polls|
        ensures es[i] == ButtonPoll(polls[i].pressed, polls[i].now)
      {
        assert es[i] == rest[i - 1] && polls[1..][i - 1] == polls[i];
      }
    }
  }

  /** A run of button iterations follows the debounce: the toggle signal is
      set afterwards exactly when it was set before or some press was
      accepted, the recorded tick is that of the last accepted press, and
      nothing else changes. */
  lemma {:induction false} ButtonRunFollowsDebounce(s: System, polls: seq<Button.PollInput>)
    requires Valid(s)
    ensures var acc := Button.Accepted(s.lastPress, polls);
      && (Run(s, ButtonPolls(polls)).toggleSem.pending <==> s.toggleSem.pending || |acc| > 0)
      && Run(s, ButtonPolls(polls)).lastPress == (if |acc| == 0 then s.lastPress else acc[|acc| - 1])
      && Run(s, ButtonPolls(polls)).(toggleSem := s.toggleSem, lastPress := s.lastPress) == s
    decreases |polls|
  {
    if |polls| > 0 {
      var p := polls[0];
      var t := ButtonIteration(s, p.pressed, p.now);
      var r := Button.Poll(s.lastPress, p.pressed, p.now);
      RunCons(s, ButtonPoll(p.pressed, p.now), ButtonPolls(polls[1..]));
      ButtonRunFollowsDebounce(t, polls[1..]);
      var tail := Button.Accepted(r.last, polls[1..]);
      var head := if r.give then [p.now] else [];
      assert Button.Accepted(s.lastPress, polls) == head + tail;
      if |tail| > 0 {
        assert (head + tail)[|head + tail| - 1] == tail[|tail| - 1];
      }
    }
  }

  /** Over a button-only run whose ticks do not wrap, the presses that set
      the toggle signal are more than 50 ms apart. */
  lemma ButtonRunSpaced(s: System, polls: seq<Button.PollInput>)
    requires Valid(s) && Button.Monotone(s.lastPress, polls)
    ensures Button.SpacedAfter(s.lastPress, Button.Accepted(s.lastPress, polls))
    ensures Run(s, ButtonPolls(polls)).lastPress != s.lastPress ==>
      Button.MsBetween(s.lastPress, Run(s, ButtonPolls(polls)).lastPress) > Button.DEBOUNCE_MS
  {
    ButtonRunFollowsDebounce(s, polls);
    Button.AcceptedPressesSpaced(s.lastPress, polls);
    var acc := Button.Accepted(s.lastPress, polls);
    if |acc| > 0 {
      Button.SpacedFromStart(s.lastPress, acc, |acc| - 1);
    }
  }

  // ----- Scenarios -----

  /** Readings 100, 100, 3500, 3500, 100, each taken off the queue before
      the next sample: one alert unit is posted, the consumer sees every
      reading in order, and the next response iteration runs one blink
      sequence and consumes the unit. */
  lemma SensorScenario()
    ensures var es := [Sample(100), Consume, Sample(100), Consume, Sample(3500), Consume,
                       Sample(3500), Consume, Sample(100), Consume];
      && Run(Init(), es).alertSem.count == 1
      && Exec(Init().queue, ChannelOps(es)).observed == [100, 100, 3500, 3500, 100]
      && Run(Init(), es).latest == 100
      && ResponseIteration(Run(Init(), es)).sys.alertSem.count == 0
      && ActiveWait(false, ResponseIteration(Run(Init(), es)).effects) == 1200
  {
    var readings := [100, 100, 3500, 3500, 100];
    var es := SampledAndConsumed(readings);
    assert es == [Sample(100), Consume, Sample(100), Consume, Sample(3500), Consume,
                  Sample(3500), Consume, Sample(100), Consume];
    KeepingUpSeesEverything(Init().queue, readings);
    KeepingUp(Init(), readings);
    KeepingUpAlerts(Init(), readings);
    Sensor.AlertCountIsRuns(readings);
    GiveManySaturates(Init().alertSem, Sensor.CountTrue(Sensor.AlertTrace(false, readings)));
    assert Sensor.Runs(readings) == 1;
  }

  /** A press followed by a response iteration: the press is accepted when
      more than 50 ms have passed since the last accepted press, the mode
      flips exactly when the press was accepted or a toggle was already
      pending, the signal is then clear, and an accepted press's tick is
      recorded. */
  lemma PressThenRespond(s: System, now: Button.Tick)
    requires Valid(s)
    ensures var accepted := Button.ElapsedMs(now, s.lastPress) > Button.DEBOUNCE_MS;
      var t := Run(s, [ButtonPoll(true, now), Respond]);
      && (t.mode <==> (s.mode != (s.toggleSem.pending || accepted)))
      && !t.toggleSem.pending
      && t.lastPress == (if accepted then now else s.lastPress)
  {
    PressThenRespondRun(s, now);
  }

  /** The run of a press and a response is the response iteration after the button iteration. */
  lemma PressThenRespondRun(s: System, now: Button.Tick)
    requires Valid(s)
    ensures Run(s, [ButtonPoll(true, now), Respond]) == ResponseIteration(ButtonIteration(s, true, now)).sys
  {
    RunCons(s, ButtonPoll(true, now), [Respond]);
    RunCons(ButtonIteration(s, true, now), Respond, []);
    assert [ButtonPoll(true, now)] + [Respond] == [ButtonPoll(true, now), Respond];
    assert [Respond] + [] == [Respond];
  }

  /** Presses in the first 50 ms after start-up are rejected, since the last
      accepted tick starts at 0: presses at ticks 0 and 30 give no toggle. */
  lemma EarlyPressesIgnored()
    ensures !Run(Init(), [ButtonPoll(true, 0), ButtonPoll(true, 30), Respond]).mode
  {
    var s := Init();
    RunAppend(s, [ButtonPoll(true, 0)], [ButtonPoll(true, 30), Respond]);
    assert [ButtonPoll(true, 0)] + [ButtonPoll(true, 30), Respond]
        == [ButtonPoll(true, 0), ButtonPoll(true, 30), Respond];
    var t := Run(s, [ButtonPoll(true, 0)]);
    assert t == ButtonIteration(s, true, 0);
    PressThenRespond(t, 30);
  }

  /** Presses at ticks 1000 and 1030 are one press and a bounce: the mode
      flips once. */
  lemma BounceFlipsOnce()
    ensures Run(Init(), [ButtonPoll(true, 1000), Respond, ButtonPoll(true, 1030), Respond]).mode
  {
    var s := Init();
    RunAppend(s, [ButtonPoll(true, 1000), Respond], [ButtonPoll(true, 1030), Respond]);
    assert [ButtonPoll(true, 1000), Respond] + [ButtonPoll(true, 1030), Respond]
        == [ButtonPoll(true, 1000), Respond, ButtonPoll(true, 1030), Respond];
    PressThenRespond(s, 1000);
    PressThenRespond(Run(s, [ButtonPoll(true, 1000), Respond]), 1030);
  }

  /** Presses at ticks 1000 and 1080 are two presses: with a response
      iteration after each, the mode flips twice, back to NORMAL. */
  lemma TwoPressesFlipTwice()
    ensures !Run(Init(), [ButtonPoll(true, 1000), Respond, ButtonPoll(true, 1080), Respond]).mode
    ensures Run(Init(), [ButtonPoll(true, 1000), Respond, ButtonPoll(true, 1080)]).mode
  {
    var s := Init();
    RunAppend(s, [ButtonPoll(true, 1000), Respond], [ButtonPoll(true, 1080), Respond]);
    RunAppend(s, [ButtonPoll(true, 1000), Respond], [ButtonPoll(true, 1080)]);
    assert [ButtonPoll(true, 1000), Respond] + [ButtonPoll(true, 1080), Respond]
        == [ButtonPoll(true, 1000), Respond, ButtonPoll(true, 1080), Respond];
    assert [ButtonPoll(true, 1000), Respond] + [ButtonPoll(true, 1080)]
        == [ButtonPoll(true, 1000), Respond, ButtonPoll(true, 1080)];
    PressThenRespond(s, 1000);
    var t := Run(s, [ButtonPoll(true, 1000), Respond]);
    PressThenRespond(t, 1080);
    assert Run(t, [ButtonPoll(true, 1080)]) == ButtonIteration(t, true, 1080);
  }

  /** Two accepted presses with no response iteration in between coalesce
      in the binary signal: the mode flips only once. */
  lemma TwoPressesOneResponseFlipOnce()
    ensures Run(Init(), [ButtonPoll(true, 1000), ButtonPoll(true, 1080), Respond]).mode
  {
    var s := Init();
    RunAppend(s, [ButtonPoll(true, 1000)], [ButtonPoll(true, 1080), Respond]);
    assert [ButtonPoll(true, 1000)] + [ButtonPoll(true, 1080), Respond]
        == [ButtonPoll(true, 1000), ButtonPoll(true, 1080), Respond];
    var t := Run(s, [ButtonPoll(true, 1000)]);
    assert t == ButtonIteration(s, true, 1000);
    PressThenRespond(t, 1080);
  }
}
