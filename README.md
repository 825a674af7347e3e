# Traffic light with a phase message queue

A Dafny model of the sequential rules of `TrafficLight.cpp` from a concurrent
traffic simulation. A traffic light is red or green. Its cycling loop draws a
phase duration of 4, 5 or 6 seconds once. On every iteration it checks whether
the current phase has lasted that long. If so, it flips the phase, sends the new
phase into the light's message queue and restarts its stopwatch. A waiter calls
`waitForGreen`, which keeps receiving from the queue until it gets a green.

The model takes out threads, locks, condition variables, sleeps, the clock and
the random generator:

- The blocking wait inside `receive` becomes the precondition that the queue is
  not empty.
- The clock becomes integer milliseconds passed in by the caller.
- The random draw becomes a parameter restricted to 4, 5 or 6.
- One iteration of the endless cycling loop is `Step`.
- `CycleThroughPhases` runs the loop over a finite list of clock readings.

Files and modules:

- `phase.dfy`, module `Phases`: the two phases, the flip, and the phase after a
  given number of flips.
- `message_queue.dfy`, module `MessageQueues`: the `MessageQueue` class. It
  holds a `seq<Phase>` (oldest first) with `Send` and `Receive`.
- `traffic_light.dfy`, module `TrafficLights`: the `TrafficLight` class, the
  drawn phase duration, the flip instants of the cycling loop, and what
  `waitForGreen` leaves behind.

`TrafficLight` keeps three ghost fields:

- `published`: every phase the cycling loop sent, in order.
- `sentAt`: the clock reading at which each of those phases was sent.
- `origin`: for each buffered entry, its position in `published`.

The invariant `Valid()` says four things. The current phase is fixed by the
number of flips. The published phases alternate, starting with green. Every
published phase has a send time (`|sentAt| == |published|`). The buffer holds
published phases in the order they were published.

Where the code and its comments disagree, the model follows the code:

- `receive` takes the BACK of the queue (`back()` / `pop_back()`), so the queue
  is last-in first-out, although the comment at src/TrafficLight.cpp:18 says it
  removes the first element "(FIFO)".
  `DrainIsLastInFirstOut` and `SecondSentIsReceivedFirst` state the behaviour
  the code actually has.
- The comment at src/TrafficLight.cpp:83 asks for "a random value between 4
  and 6 seconds", but the code draws a whole number of seconds (4, 5 or 6) and
  multiplies it by 1000. It is not any millisecond value between 4000 and 6000.
  It is drawn once per run of the loop.
- The published history alternates, but the buffer does not have to. A waiter
  can take a green between two flips, which leaves two reds next to each other
  (`RepeatedPhaseInBuffer`).
- Because the buffer is unbounded and read from the back, a waiter can be
  released by an old green. From that green, red, red buffer, a second
  `waitForGreen` on a red light discards both reds and takes the first flip's
  green. It returns with no new flip, and the light is still red
  (`StaleGreenEndsWait`).

## Model

| member | source | states |
|---|---|---|
| `Phases.Toggle` | src/TrafficLight.cpp:103 | the flip always changes the phase, and it yields green exactly when the phase was red |
| `Phases.ToggleTwice` | src/TrafficLight.cpp:103 | flipping twice gives back the original phase |
| `Phases.PhaseAfter` | src/TrafficLight.cpp:46-105 | a light that starts red and has flipped n times is red exactly when n is even |
| `Phases.FlipHistoryAlternates` | src/TrafficLight.cpp:101-105 | the published phases start with green, and each one is the flip of the previous one, so no phase repeats and none is skipped |
| `Phases.AlternatingIsFlipHistory` | src/TrafficLight.cpp:101-105 | conversely, a history that starts green and alternates is exactly the phases after 1, 2, 3, … flips |
| `MessageQueues.Drain` | src/TrafficLight.cpp:21-22 | receiving until the buffer is empty yields exactly as many phases as were buffered |
| `MessageQueues.DrainIsLastInFirstOut` | src/TrafficLight.cpp:18-23 | successive receives empty a buffer of n entries in n steps, and the k-th receive yields the k-th entry from the back |
| `MessageQueues.SecondSentIsReceivedFirst` | src/TrafficLight.cpp:18-23 | of two buffered phases, the one sent second comes out first, so the queue is not first-in first-out |
| `MessageQueues.MessageQueue.constructor` | src/TrafficLight.cpp:10-40 | a new queue is empty, so a receive on it waits until the first send. It stands for the default construction of the member, which is declared in the header |
| `MessageQueues.MessageQueue.Send` | src/TrafficLight.cpp:29-40 | the queue becomes the old queue with the sent phase appended; earlier entries are unchanged |
| `MessageQueues.MessageQueue.Receive` | src/TrafficLight.cpp:10-24 | it needs a non-empty queue; the old queue is exactly the new queue followed by the returned phase, so the back entry alone is removed and returned |
| `MessageQueues.SendThenReceive` | src/TrafficLight.cpp:10-40 | a send followed at once by a receive returns the sent phase and restores the queue |
| `TrafficLights.PhaseDuration` | src/TrafficLight.cpp:88-93 | a draw of 4, 5 or 6 gives a duration of 4000, 5000 or 6000 ms, a whole number of seconds equal to the draw |
| `TrafficLights.FlipTimes` | src/TrafficLight.cpp:98-108 | the instants at which the cycling loop flips, given the clock readings: there are at most as many as there are readings |
| `TrafficLights.FirstExpired` | src/TrafficLight.cpp:100-101 | the position of the first reading at which the phase has expired. Every reading before it has not expired, and it is `|clock|` only when no reading has expired |
| `TrafficLights.FlipTimesSpaced` | src/TrafficLight.cpp:96-108 | the cycling loop flips at most once per clock reading, and only at a reading. The first flip comes at least one phase duration after the stopwatch started. Each later flip comes at least one phase duration after the previous one |
| `TrafficLights.FlipTimesFirstFlip` | src/TrafficLight.cpp:98-108 | no expired reading is skipped. The loop flips at all exactly when some reading finds the phase expired (`FirstExpired` is not `|clock|`). Its first flip is then at that first expired reading, and the loop goes on from it with the stopwatch reset to it |
| `TrafficLights.FirstFlipWithin` | src/TrafficLight.cpp:98-108 | with readings that strictly increase by at most `gap`, if the first reading comes less than a phase duration plus one gap after the reset, so does the first flip |
| `TrafficLights.FlipTimesBoundedGapAt` | src/TrafficLight.cpp:98-110 | with readings that strictly increase by at most `gap`, flip k comes less than one phase duration plus one gap after flip k - 1 |
| `TrafficLights.FlipTimesBoundedGap` | src/TrafficLight.cpp:98-110 | with readings that strictly increase by at most `gap`, two consecutive flips are less than one phase duration plus one gap apart |
| `TrafficLights.QueueAfterWaitForGreen` | src/TrafficLight.cpp:56-62 | waiting for green always removes at least one entry |
| `TrafficLights.WaitForGreenTakesLastGreen` | src/TrafficLight.cpp:56-62 | waiting for green leaves a prefix of the buffer. The entry just after that prefix is the green that ended the wait. Every entry behind that green was red and was discarded |
| `TrafficLights.ReceiveKeepsSelection` | src/TrafficLight.cpp:21-22 | taking the back entry off the buffer keeps the buffer an in-order selection of published phases, and the entry taken was published |
| `TrafficLights.QueueAfterWaitForGreenStep` | src/TrafficLight.cpp:58-59 | a received green ends the wait; a received red is dropped and the wait continues over the rest of the buffer, which still holds a green |
| `TrafficLights.TrafficLight.constructor` | src/TrafficLight.cpp:46-49 | a new light is red, its queue is empty, nothing has been published, and the invariant holds |
| `TrafficLights.TrafficLight.GetCurrentPhase` | src/TrafficLight.cpp:65-68 | returns the current phase and changes nothing |
| `TrafficLights.TrafficLight.ReceivePhase` | src/TrafficLight.cpp:58 | the light's receive takes the back entry, keeps the invariant, and returns a phase the light published |
| `TrafficLights.TrafficLight.WaitForGreen` | src/TrafficLight.cpp:51-63 | it returns only after receiving a green, and it discards every red it receives. It leaves the buffer that `WaitForGreenTakesLastGreen` describes. Phase and history are unchanged, and the invariant holds |
| `TrafficLights.TrafficLight.Step` | src/TrafficLight.cpp:100-108 | If `now - lastUpdate >= phaseDuration`, the phase flips and the new phase is appended to the queue and to the history, with `now` recorded as its send time, so the last queued entry equals the current phase; the stopwatch is reset to `now`. Otherwise phase, queue, history, send times and stopwatch are unchanged. The invariant is kept either way |
| `TrafficLights.TrafficLight.CycleThroughPhases` | src/TrafficLight.cpp:79-112 | one drawn duration, many iterations. The send times grow by exactly `FlipTimes` of the readings, so a phase is sent at each flip instant and at no other reading. Earlier history is untouched. The queue grows by exactly the newly published phases, in order |
| `TrafficLights.FlipThreeTimes` | src/TrafficLight.cpp:100-108 | a new light whose phase has expired three times has published and buffered green, red, green |
| `TrafficLights.RepeatedPhaseInBuffer` | src/TrafficLight.cpp:10-24 | a light can reach a valid state whose published history is green, red, green, red while its buffer holds green, red, red |
| `TrafficLights.StaleGreenEndsWait` | src/TrafficLight.cpp:51-63 | from the green, red, red buffer, a second wait on a red light returns without any new flip: it empties the buffer, and the light stays red |

## Left out

- Locks and condition variables (`std::mutex`, `std::unique_lock`, `std::lock_guard`, `wait`/`notify_one`): they exist only for concurrency. The blocking wait is modelled as the precondition of `Receive`.
- `simulate` and the thread launch into the inherited `threads` vector: thread start and lifetime belong to the base class, which is not part of this model.
- `TrafficLight.h` and the base class are not part of this model. `MessageQueues.MessageQueue.constructor` stands for the default construction of the queue member declared there: it starts empty.
- `std::this_thread::sleep_for` in both loops: it only spaces out iterations in wall-clock time.
- `std::chrono::system_clock::now()`: the clock readings are parameters.
- `std::random_device`, `mt19937` and `uniform_int_distribution`: the drawn value is a parameter limited to 4, 5 or 6.
- Atomicity and staleness of unsynchronised reads of the current phase: these are memory-model questions with no sequential meaning.
- TrafficLights.TrafficLight.Step: the source reads the clock a second time to reset the stopwatch (line 107). The model resets it to the same `now` that the iteration compared against.
- TrafficLights.TrafficLight.CycleThroughPhases: the endless `while(true)` runs here over a finite list of clock readings, one reading per iteration.
- TrafficLights.TrafficLight.WaitForGreen: the source can block forever when no green ever arrives. The model requires a green to be buffered already, and the loop ends because each receive shrinks the buffer.
- TrafficLights.FlipTimesBoundedGap: bounds the time between flips only in terms of the largest gap between clock readings. How large that gap is in wall-clock time depends on the 1 ms sleep and on thread scheduling, and the model does not capture either.
- The clock is modelled at millisecond resolution. The source subtracts two finer-grained clock readings and truncates the difference to whole milliseconds (line 100). The model takes readings that are already whole milliseconds, so it can flip up to 1 ms earlier than the program.
- Several waiters competing for one queue: the model runs one call at a time.
