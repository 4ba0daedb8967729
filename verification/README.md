# Radiation monitor firmware: a Dafny model of its task logic

The firmware (`main.c`) runs several FreeRTOS tasks on an ESP32. They communicate through:

- a counting alert semaphore (capacity 10);
- a binary toggle semaphore;
- a 20-slot queue of sensor readings;
- three shared variables: the operating mode, the alert state and the latest reading.

This project models the decision logic of those tasks. The state the tasks share is an immutable record, and each task loop iteration is a pure transition over it.

- `signals.dfy` (`Signals`): the two semaphores as abstract datatypes. Gives to the counting semaphore saturate at the capacity; gives to the binary semaphore coalesce.
- `sample_queue.dfy` (`SampleQueue`): the bounded FIFO, with a zero-timeout send that leaves a full queue unchanged and a receive that hands back the oldest reading.
- `sensor.dfy` (`Sensor`): the sampling task's edge detector. It is checked against an independent definition of maximal runs of readings above the threshold.
- `button.dfy` (`Button`): the button task's time-based debounce. Tick differences use 32-bit unsigned arithmetic.
- `console.dfy` (`Console`): the words the status page shows for the mode and the alert state.
- `monitor.dfy` (`Monitor`): the shared system record and one transition per task iteration:
  - the sampling task;
  - the consumer;
  - the button task;
  - the response task;
  - the `/toggle` request.

  Runs are sequences of such transitions in any order. The response task's iteration also returns the trace of what it did: alert-state writes, LED switches, waits and the mode write. That trace makes the 1200 ms during which the alert state reads `true` visible, even though it reads `false` at every iteration boundary.

Hardware inputs are parameters of the transitions: the analog reading, whether the button reads LOW, and the tick count at the poll.

Two behaviours of the code are worth stating because an informal reading suggests otherwise:

- The last accepted press tick starts at 0. A press before tick 51 is therefore rejected, so presses at ticks 0 and 30 give no toggle at all (`Monitor.EarlyPressesIgnored`).
- Two accepted presses with no response iteration between them set the binary toggle signal once, so the mode flips only once (`Monitor.TwoPressesOneResponseFlipOnce`). Each press flips the mode only if the response task takes the signal in between (`Monitor.TwoPressesFlipTwice`).

## Model

| member | source | states |
|---|---|---|
| Signals.CreateCounting | main.c:71 | The alert semaphore is created with capacity 10 and count 0, within its bound |
| Signals.Give | main.c:140 | A give adds one pending unit up to the capacity; a give at the capacity leaves the semaphore exactly as it was |
| Signals.Take | main.c:176 | A take succeeds exactly when a unit is pending and then lowers the count by exactly one |
| Signals.TakeUndoesGive | main.c:140 | Below the capacity, taking after a give returns the semaphore it started from |
| Signals.GiveManySaturates | main.c:71 | After any number of gives, the count is the number of gives capped at the capacity |
| Signals.CreateBinary | main.c:72 | The toggle semaphore starts empty |
| Signals.GiveBinary | main.c:62 | A give of the toggle semaphore leaves it set, whether it was set before or not |
| Signals.TakeBinary | main.c:191 | A take of the toggle semaphore succeeds exactly when it is set, and always clears it |
| Signals.GivesCoalesce | main.c:166 | Any number (at least one) of gives leaves one unit: exactly one take then succeeds and the next one fails |
| SampleQueue.Create | main.c:74 | The sample queue starts empty with the given capacity |
| SampleQueue.TrySend | main.c:136 | A zero-timeout send appends the reading when there is room and otherwise fails, leaving the queue unchanged |
| SampleQueue.Receive | main.c:152-153 | A receive yields the oldest reading and the rest of the queue, and yields nothing exactly when the queue is empty |
| SampleQueue.SendAllKeepsOldest | main.c:136 | Without a consumer, the queue keeps its contents followed by the oldest readings that fit, and newer readings are dropped |
| SampleQueue.ExecIsFifo | main.c:136 | For any mix of sends and receives, queued plus accepted readings equal received readings followed by those still queued (FIFO order) |
| SampleQueue.ObservedInSendOrder | main.c:152-153 | The consumer receives a prefix of what was queued and accepted, in order |
| Sensor.Detect | main.c:138-143 | An alert is posted exactly on a reading above 3000 while the detector is armed; afterwards the flag says whether the reading was above 3000, so a reading of exactly 3000 never posts and always re-arms |
| Sensor.AlertTraceMarksRunStarts | main.c:133-143 | Over any trace from the armed start, the detector posts on reading i exactly when reading i starts a maximal run of readings above the threshold |
| Sensor.AlertTraceMarksRunStartsAfter | main.c:133-143 | The same characterisation of each post, from either initial detector state |
| Sensor.AlertCountMatchesRunsFrom | main.c:133-143 | From either detector state, the number of posts is the number of maximal runs, not counting a run already in progress when the detector is disarmed |
| Sensor.AlertCountIsRuns | main.c:17 | The number of alert posts over any trace equals the number of maximal contiguous runs of readings strictly above 3000 |
| Sensor.CountAlertPosts | main.c:132-147 | The sampling loop over a finite trace posts as many alerts as there are maximal runs, and ends with the flag set exactly when the last reading was high |
| Button.ElapsedIsRealTime | main.c:164 | The unsigned 32-bit tick difference times the tick period equals the real elapsed time whenever fewer than 2^32 ticks separate the two polls, even across a wrap of the counter |
| Button.ElapsedWithoutWrap | main.c:164 | Without a wrap, the elapsed time is the plain tick difference |
| Button.Poll | main.c:162-167 | A poll accepts a press, records its tick and gives the toggle signal exactly when the button reads pressed and more than 50 ms have elapsed; otherwise the recorded tick is unchanged |
| Button.SpacedCons | main.c:164-165 | A press accepted more than 50 ms after the last one extends a well-spaced sequence of accepted presses |
| Button.SpacedFromStart | main.c:164-165 | In a well-spaced sequence of accepted presses, every press, not only the first, is more than 50 ms after the initial tick |
| Button.AcceptedPressesSpaced | main.c:160-166 | Over any monotone trace of polls, consecutive accepted presses are more than 50 ms apart, and all of them come after the initial tick |
| Button.HeldButtonRepeats | main.c:160-166 | A button held from tick 100 and polled every 10 ticks is accepted again each time the window expires, at ticks 100 and 160 |
| Console.Render | main.c:50-52 | The page shows "ALERT" exactly in alert mode and "NORMAL" otherwise, "ACTIVE" exactly while the alert state is set and "CLEAR" otherwise, and the latest reading as it is |
| Console.RenderRoundTrip | main.c:50-52 | Reading the shown words back recovers the mode, alert state and latest reading, so distinct states are shown differently |
| Monitor.Init | main.c:71-74 | After start-up both signals and the queue are empty, the detector is armed, no press is recorded, the mode is NORMAL, no alert is active and the latest reading is 0 |
| Monitor.SensorIteration | main.c:134-146 | A sampling iteration offers the reading to the queue, posts an alert unit (capped at 10) only on an upward crossing, and changes nothing else |
| Monitor.ConsumerIteration | main.c:151-155 | A consumer iteration makes the oldest queued reading the latest reading and removes it; on an empty queue nothing changes |
| Monitor.ButtonIteration | main.c:161-170 | A button iteration sets the toggle signal exactly when it was set or the press is accepted. The recorded tick becomes the poll's tick exactly when the press is accepted and is unchanged otherwise, and nothing else changes |
| Monitor.Page | main.c:50-52 | The page shown for a state reads back to exactly that state's mode, alert state and latest reading |
| Monitor.HandleToggle | main.c:61-64 | A toggle request sets the toggle signal, changes nothing else, and returns a page that still shows the old mode |
| Monitor.FramedBlink | main.c:181-188 | Between setting and clearing the alert state, all LED waits fall while the alert state reads true, and it reads false afterwards |
| Monitor.Phase | main.c:183-186 | Switching the LED and then waiting leaves the LED in the switched state, with the whole wait counted as lit or dark time accordingly |
| Monitor.LedEffectsAppend | main.c:182-187 | The LED state and the lit and dark waiting times compose over consecutive stretches of effects |
| Monitor.BlinkCycle | main.c:183-186 | One blink cycle, from any LED state, switches the LED on once and leaves it off, with 200 ms lit and then 200 ms dark |
| Monitor.Blink | main.c:182-187 | The blink loop run n times from a dark LED gives n flashes, n times 200 ms lit and 200 ms dark, and leaves the LED dark; it touches only the LED |
| Monitor.AlertReaction | main.c:181-188 | The alert reaction sets the alert state and flashes 3 times, waiting 1200 ms while the state reads true (600 ms lit, 600 ms dark). It leaves the LED dark, clears the state, and never writes the mode |
| Monitor.AlertHalf | main.c:176-189 | If an alert unit is pending, exactly one is taken and the alert reaction runs, ending with the alert state false and the LED dark; otherwise nothing happens |
| Monitor.ToggleHalf | main.c:191-192 | If the toggle signal is set, it is cleared and the mode is negated once; otherwise the mode is unchanged and the signal stays clear |
| Monitor.HalvesCompose | main.c:176-197 | With the alert half before the toggle half, the mode comes from the toggle half alone, the waits and flashes from the alert half alone, and a mode write is the last effect |
| Monitor.ResponseIteration | main.c:173-199 | A response iteration takes at most one alert unit and flips the mode at most once, and both may act in one iteration with the alert first. It leaves the alert state false after a taken alert, leaves the toggle signal clear, and never changes the latest reading, the queue or the other tasks' state |
| Monitor.Step | main.c:132-199 | Each iteration keeps the capacities and bounds, and keeps a false alert state false |
| Monitor.Run | main.c:71-74 | Over any run, the alert count stays within [0, 10], the queue holds at most 20 readings, and a false alert state stays false (from start-up see `Monitor.RunFromInitBounded`) |
| Monitor.RunCons | main.c:132-199 | A run is its first iteration followed by the run of the rest |
| Monitor.RunAppend | main.c:132-199 | Running two event sequences one after the other is running their concatenation |
| Monitor.RunFromInitBounded | main.c:71-74 | From start-up, every run keeps the alert count at most 10 and the queue at most 20, with the alert state false |
| Monitor.Samples | main.c:135-136 | A sampling-only run takes one sampling iteration per reading |
| Monitor.SamplesInOrder | main.c:135-136 | In a sampling-only run, reading i is sampled at position i |
| Monitor.SamplingEffect | main.c:134-146 | Sampling a trace sends every reading to the queue and gives the alert signal once per post of the edge detector, changing nothing else |
| Monitor.SamplingFromInit | main.c:136-140 | From start-up without responses, the alert count is the number of maximal high runs capped at 10, and the queue holds the first 20 readings |
| Monitor.RunFollowsChannel | main.c:136 | The queue and the latest reading of any run are determined by its sends and receives alone, and the latest reading is the last one received |
| Monitor.ConsumerSeesSendOrder | main.c:152-153 | Over any run, the consumer receives readings in the order the queue accepted them, and the latest reading is the last one received |
| Monitor.SampledAndConsumed | main.c:149-156 | A run in which each sample is followed by a consumer iteration has two iterations per reading |
| Monitor.ScheduleAlternates | main.c:149-156 | In that run, reading i is sampled at position 2i and consumed right after it, at position 2i+1 |
| Monitor.KeepingUpSeesEverything | main.c:152-153 | When the consumer keeps up, it receives every reading in order and the queue stays empty |
| Monitor.SampleThenConsume | main.c:134-153 | A reading sampled into an empty queue and consumed at once becomes the latest reading, leaves the queue empty, and drives the detector as on its own |
| Monitor.KeepingUp | main.c:132-156 | When the consumer keeps up, the latest reading follows the sensor and the queue stays empty |
| Monitor.KeepingUpAlerts | main.c:132-156 | When the consumer keeps up, the alert signal is given once per detector post |
| Monitor.TogglesSetSignal | main.c:62 | Any number of toggle requests in a row leave the toggle signal set and change nothing else |
| Monitor.TogglesCoalesce | main.c:62 | Any number of toggle requests before a response iteration set the signal once, and the response flips the mode exactly once |
| Monitor.ButtonPolls | main.c:161-170 | A button-only run takes one button iteration per poll |
| Monitor.ButtonPollsInOrder | main.c:161-170 | In a button-only run, poll i is the button iteration at position i |
| Monitor.ButtonRunFollowsDebounce | main.c:158-171 | Over any run of button iterations, the toggle signal is set exactly when it was set before or some press was accepted. The recorded tick is that of the last accepted press, and nothing else changes |
| Monitor.ButtonRunSpaced | main.c:160-166 | Over a button-only run whose ticks do not wrap, the presses that set the toggle signal are more than 50 ms apart, and a changed recorded tick is more than 50 ms after the old one |
| Monitor.SensorScenario | main.c:132-189 | Readings 100, 100, 3500, 3500, 100 post one alert unit, the consumer sees each reading in order, and the next response runs one blink sequence of 1200 ms and consumes the unit |
| Monitor.PressThenRespond | main.c:160-192 | A press followed by a response iteration: the mode flips exactly when the press is accepted (more than 50 ms since the last accepted press) or a toggle was already pending, the signal is then clear, and an accepted press's tick is recorded |
| Monitor.EarlyPressesIgnored | main.c:160-164 | Presses at ticks 0 and 30 after start-up are rejected, so the mode stays NORMAL |
| Monitor.BounceFlipsOnce | main.c:164-166 | Presses 30 ticks apart are one press and a bounce, so the mode flips once |
| Monitor.TwoPressesFlipTwice | main.c:164-192 | Presses 80 ticks apart, each followed by a response iteration, flip the mode twice |
| Monitor.TwoPressesOneResponseFlipOnce | main.c:166-192 | Two accepted presses with no response between them coalesce, so the mode flips once |

## Left out

- Wi-Fi bring-up, the web server's routing and the HTML around the status words (main.c:25, 48-60, 96-111): these are network and UI I/O over libraries that are not part of this model. Only the mapping from the shared fields to the shown words is modelled, together with the toggle handler's give.
- Serial logging and `serial_mutex` (main.c:177-179, 193-196): they only order diagnostic output.
- `analogRead`, `digitalRead` and `pinMode`: they become parameters of the transitions (the reading, whether the button reads LOW, the tick count). `digitalWrite` on the alert LED is kept only as `AlertLed` effects.
- The heartbeat and mode LED tasks (main.c:113-130): hardware output only. The mode LED task drives the beacon pin rather than a pin of its own, which is not modelled.
- Scheduling: task priorities, preemption, the `vTaskDelay` periods and the response task's 100 ms bounded wait for an alert unit (main.c:81-87, 145, 176). Each transition is one whole loop iteration, and iterations do not interleave. An alert unit given during the response task's bounded wait is taken by a later iteration in the model. The blink timing appears only as `Wait` effects in the response trace.
- Interleaving within an iteration: between iterations the alert state always reads `false`. The window in which the page could show "ACTIVE" is exposed only through the response trace (`ActiveWait`).
- FreeRTOS internals of queues and semaphores: only their counts, saturation and FIFO order are modelled. A receive on an empty queue leaves the state unchanged, which stands for the consumer staying blocked.
- `portTICK_PERIOD_MS` is defined by the FreeRTOS configuration, which is not part of this model. It is taken as 1 ms, a 1000 Hz tick, and the tick counter as 32-bit unsigned.
- Button.AcceptedPressesSpaced, Monitor.ButtonRunSpaced: assume the polls of the trace do not wrap the tick counter (ticks never go backwards). `Button.ElapsedIsRealTime` covers a single wrap between two polls.
- The decimal formatting of the latest reading on the page: the model shows the integer itself.
