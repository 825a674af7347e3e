/** A traffic light that cycles between red and green and publishes every flip
    into its own message queue. Threads, locks and the wall clock are taken out:
    one iteration of the cycling loop is a call of `Step` with the current time
    in milliseconds. */
module TrafficLights {
  import opened Phases
  import opened MessageQueues

  /** The phase durations the cycling loop can draw, in milliseconds. */
  predicate IsPhaseDuration(ms: int)
  {
    ms == 4000 || ms == 5000 || ms == 6000
  }

  /** The duration for a draw of 4, 5 or 6 seconds from the uniform distribution. */
  function PhaseDuration(draw: int): (ms: int)
    requires 4 <= draw <= 6
    ensures IsPhaseDuration(ms)
    ensures ms / 1000 == draw && ms % 1000 == 0
  {
    draw * 1000
  }

  /** The instants, among the clock readings `clock`, at which the cycling loop
      flips the phase, when its stopwatch was last reset at `lastUpdate`. */
  function FlipTimes(clock: seq<int>, phaseDuration: int, lastUpdate: int): (f: seq<int>)
    ensures |f| <= |clock|
  {
    if clock == [] then []
    else if clock[0] - lastUpdate >= phaseDuration then [clock[0]] + FlipTimes(clock[1..], phaseDuration, clock[0])
    else FlipTimes(clock[1..], phaseDuration, lastUpdate)
  }

  /** Every flip comes at least one phase duration after the previous one (or after
      the stopwatch was started), and happens at one of the clock readings. */
  lemma {:induction false} FlipTimesSpaced(clock: seq<int>, phaseDuration: int, lastUpdate: int)
    ensures var f := FlipTimes(clock, phaseDuration, lastUpdate);
      |f| <= |clock| &&
      (|f| > 0 ==> f[0] - lastUpdate >= phaseDuration) &&
      (forall k :: 0 < k < |f| ==> f[k] - f[k - 1] >= phaseDuration) &&
      (forall k :: 0 <= k < |f| ==> f[k] in clock)
  {
    if clock != [] {
      var next := if clock[0] - lastUpdate >= phaseDuration then clock[0] else lastUpdate;
      FlipTimesSpaced(clock[1..], phaseDuration, next);
      var rest := FlipTimes(clock[1..], phaseDuration, next);
      assert forall k :: 0 <= k < |rest| ==> rest[k] in clock[1..] && rest[k] in clock;
    }
  }

  /** The position of the first reading at which the phase has expired, or
      `|clock|` when there is none. */
  function FirstExpired(clock: seq<int>, phaseDuration: int, lastUpdate: int): (j: nat)
    ensures j <= |clock|
    ensures j < |clock| ==> clock[j] - lastUpdate >= phaseDuration
    ensures forall i :: 0 <= i < j ==> clock[i] - lastUpdate < phaseDuration
  {
    if clock == [] then 0
    else if clock[0] - lastUpdate >= phaseDuration then 0
    else 1 + FirstExpired(clock[1..], phaseDuration, lastUpdate)
  }

  /** No reading is skipped: the loop flips at all exactly when some reading finds
      the phase expired, and then its first flip is at the first such reading,
      after which it goes on from that reading with the stopwatch reset. */
  lemma {:induction false} FlipTimesFirstFlip(clock: seq<int>, phaseDuration: int, lastUpdate: int)
    ensures var j := FirstExpired(clock, phaseDuration, lastUpdate);
      (FlipTimes(clock, phaseDuration, lastUpdate) == [] <==> j == |clock|) &&
      (j < |clock| ==>
        FlipTimes(clock, phaseDuration, lastUpdate) == [clock[j]] + FlipTimes(clock[j + 1..], phaseDuration, clock[j]))
  {
    if clock != [] && clock[0] - lastUpdate < phaseDuration {
      var tail := clock[1..];
      FlipTimesFirstFlip(tail, phaseDuration, lastUpdate);
      var j := FirstExpired(tail, phaseDuration, lastUpdate);
      if j < |tail| {
        assert tail[j] == clock[j + 1];
        assert tail[j + 1..] == clock[j + 2..];
      }
    } else if clock != [] {
      assert clock[0 + 1..] == clock[1..];
    }
  }

  /** Readings that strictly increase with gaps of at most `gap`. */
  predicate PollsWithin(clock: seq<int>, gap: int)
  {
    forall j :: 0 < j < |clock| ==> clock[j - 1] < clock[j] <= clock[j - 1] + gap
  }

  lemma PollsWithinTail(clock: seq<int>, gap: int)
    requires PollsWithin(clock, gap) && clock != []
    ensures PollsWithin(clock[1..], gap)
  {
    var tail := clock[1..];
    assert forall j :: 0 < j < |tail| ==> tail[j - 1] == clock[j] && tail[j] == clock[j + 1];
  }

  /** If the first reading comes less than a phase duration plus one gap after
      the stopwatch was reset, so does the first flip. */
  lemma {:induction false} FirstFlipWithin(clock: seq<int>, phaseDuration: int, lastUpdate: int, gap: int)
    requires PollsWithin(clock, gap)
    requires |clock| > 0 ==> clock[0] - lastUpdate < phaseDuration + gap
    ensures var f := FlipTimes(clock, phaseDuration, lastUpdate);
      |f| > 0 ==> f[0] - lastUpdate < phaseDuration + gap
  {
    if clock != [] && clock[0] - lastUpdate < phaseDuration {
      var tail := clock[1..];
      PollsWithinTail(clock, gap);
      FirstFlipWithin(tail, phaseDuration, lastUpdate, gap);
    }
  }

  /** When the readings strictly increase with gaps of at most `gap`, flip `k`
      comes less than one phase duration plus one gap after flip `k - 1`. */
  lemma {:induction false} FlipTimesBoundedGapAt(clock: seq<int>, phaseDuration: int, lastUpdate: int, gap: int, k: nat)
    requires phaseDuration > 0
    requires PollsWithin(clock, gap)
    requires 0 < k < |FlipTimes(clock, phaseDuration, lastUpdate)|
    ensures var f := FlipTimes(clock, phaseDuration, lastUpdate);
      f[k] - f[k - 1] < phaseDuration + gap
  {
    var tail := clock[1..];
    PollsWithinTail(clock, gap);
    if clock[0] - lastUpdate >= phaseDuration {
      var rest := FlipTimes(tail, phaseDuration, clock[0]);
      assert FlipTimes(clock, phaseDuration, lastUpdate) == [clock[0]] + rest;
      if k == 1 {
        assert tail[0] == clock[1] <= clock[0] + gap;
        FirstFlipWithin(tail, phaseDuration, clock[0], gap);
      } else {
        FlipTimesBoundedGapAt(tail, phaseDuration, clock[0], gap, k - 1);
      }
    } else {
      assert FlipTimes(clock, phaseDuration, lastUpdate) == FlipTimes(tail, phaseDuration, lastUpdate);
      FlipTimesBoundedGapAt(tail, phaseDuration, lastUpdate, gap, k);
    }
  }

  /** When the readings strictly increase with gaps of at most `gap`, two
      consecutive flips are less than one phase duration plus one gap apart. */
  lemma FlipTimesBoundedGap(clock: seq<int>, phaseDuration: int, lastUpdate: int, gap: int)
    requires phaseDuration > 0
    requires PollsWithin(clock, gap)
    ensures var f := FlipTimes(clock, phaseDuration, lastUpdate);
      forall k :: 0 < k < |f| ==> f[k] - f[k - 1] < phaseDuration + gap
  {
    var f := FlipTimes(clock, phaseDuration, lastUpdate);
    forall k | 0 < k < |f|
      ensures f[k] - f[k - 1] < phaseDuration + gap
    {
      FlipTimesBoundedGapAt(clock, phaseDuration, lastUpdate, gap, k);
    }
  }

  /** The buffer left after waitForGreen: from the back it discards red entries
      until it takes a green one. */
  function QueueAfterWaitForGreen(q: seq<Phase>): (r: seq<Phase>)
    requires Green in q
    ensures |r| < |q|
    decreases |q|
  {
    var n := |q|;
    if q[n - 1] == Green then q[..n - 1]
    else
      assert Green in q[..n - 1] by {
        var j :| 0 <= j < n && q[j] == Green;
        assert q[..n - 1][j] == Green;
      }
      QueueAfterWaitForGreen(q[..n - 1])
  }

  /** What waitForGreen leaves is a prefix of the buffer, the entry right after it
      is the green that ended the wait, and every entry behind that green was red. */
  lemma {:induction false} WaitForGreenTakesLastGreen(q: seq<Phase>)
    requires Green in q
    ensures var r := QueueAfterWaitForGreen(q);
      r == q[..|r|] && q[|r|] == Green &&
      (forall i :: |r| < i < |q| ==> q[i] == Red)
  {
    var n := |q|;
    if q[n - 1] != Green {
      var j :| 0 <= j < n && q[j] == Green;
      assert q[..n - 1][j] == Green;
      WaitForGreenTakesLastGreen(q[..n - 1]);
    }
  }

  /** `q` is `s` with some entries left out: `q[i]` is `s[origin[i]]`, and the
      positions `origin` are strictly increasing. */
  ghost predicate IsSelection(q: seq<Phase>, s: seq<Phase>, origin: seq<nat>)
  {
    |origin| == |q| &&
    (forall i :: 0 <= i < |origin| ==> origin[i] < |s| && q[i] == s[origin[i]]) &&
    (forall i, j :: 0 <= i < j < |origin| ==> origin[i] < origin[j])
  }

  /** Taking the back entry off a selection leaves a selection, and the entry
      taken is one that was published. */
  lemma ReceiveKeepsSelection(q: seq<Phase>, x: Phase, s: seq<Phase>, origin: seq<nat>)
    requires IsSelection(q + [x], s, origin)
    ensures IsSelection(q, s, origin[..|q|])
    ensures origin[|q|] < |s| && x == s[origin[|q|]]
  {
    assert (q + [x])[|q|] == x;
    assert forall i :: 0 <= i < |q| ==> (q + [x])[i] == q[i];
  }

  /** One receive of waitForGreen: a green ends the wait, a red is discarded and
      the wait goes on over the rest of the buffer. */
  lemma QueueAfterWaitForGreenStep(q: seq<Phase>, x: Phase)
    requires Green in q + [x]
    ensures x == Green ==> QueueAfterWaitForGreen(q + [x]) == q
    ensures x == Red ==> Green in q && QueueAfterWaitForGreen(q + [x]) == QueueAfterWaitForGreen(q)
  {
    assert (q + [x])[..|q|] == q;
    if x == Red {
      var j :| 0 <= j < |q| + 1 && (q + [x])[j] == Green;
      assert q[j] == Green;
    }
  }

  class TrafficLight {
    var currentPhase: Phase
    /** The queue through which flips are published (the source's `_lightPhaseMsgs`). */
    const msgs: MessageQueue
    /** Every phase the cycling loop has sent, in order. */
    ghost var published: seq<Phase>
    /** For each buffered entry, its position in `published`. */
    ghost var origin: seq<nat>
    /** The clock reading at which each entry of `published` was sent. */
    ghost var sentAt: seq<int>

    /** The light's phase is fixed by the number of flips, every flip alternates,
        and the buffer holds published phases in the order they were published. */
    ghost predicate Valid()
      reads this, msgs
    {
      IsFlipHistory(published) &&
      currentPhase == PhaseAfter(|published|) &&
      |sentAt| == |published| &&
      IsSelection(msgs.queue, published, origin)
    }

    constructor ()
      ensures Valid() && fresh(msgs)
      ensures currentPhase == Red
      ensures msgs.queue == [] && published == [] && sentAt == []
    {
      currentPhase := Red;
      msgs := new MessageQueue();
      published := [];
      sentAt := [];
      origin := [];
    }

    method GetCurrentPhase() returns (p: Phase)
      ensures p == currentPhase
    {
      p := currentPhase;
    }

    /** The light's own receive on its queue: the back entry comes out, and it is
        one of the phases the light published. */
    method ReceivePhase() returns (lightPhase: Phase)
      requires Valid()
      requires msgs.queue != []
      modifies this, msgs
      ensures Valid()
      ensures currentPhase == old(currentPhase) && published == old(published) && sentAt == old(sentAt)
      ensures old(msgs.queue) == msgs.queue + [lightPhase]
      ensures lightPhase == published[old(origin)[|msgs.queue|]]
    {
      lightPhase := msgs.Receive();
      ReceiveKeepsSelection(msgs.queue, lightPhase, published, origin);
      origin := origin[..|msgs.queue|];
    }

    /** Receives until a green arrives; every red received is discarded. The source
        blocks while the buffer is empty, so the caller must have a green buffered. */
    method WaitForGreen()
      requires Valid()
      requires Green in msgs.queue
      modifies this, msgs
      ensures Valid()
      ensures currentPhase == old(currentPhase) && published == old(published) && sentAt == old(sentAt)
      ensures msgs.queue == QueueAfterWaitForGreen(old(msgs.queue))
    {
      var received := ReceivePhase();
      QueueAfterWaitForGreenStep(msgs.queue, received);
      while received != Green
        invariant Valid()
        invariant currentPhase == old(currentPhase) && published == old(published) && sentAt == old(sentAt)
        invariant received == Green ==> msgs.queue == QueueAfterWaitForGreen(old(msgs.queue))
        invariant received != Green ==> Green in msgs.queue
        invariant received != Green ==> QueueAfterWaitForGreen(msgs.queue) == QueueAfterWaitForGreen(old(msgs.queue))
        decreases |msgs.queue|
      {
        received := ReceivePhase();
        QueueAfterWaitForGreenStep(msgs.queue, received);
      }
    }

    /** One iteration of the cycling loop at time `now`: once the phase has lasted
        `phaseDuration`, flip it, publish the new phase and restart the stopwatch. */
    method Step(now: int, phaseDuration: int, lastUpdate: int) returns (newLastUpdate: int)
      requires Valid()
      requires IsPhaseDuration(phaseDuration)
      modifies this, msgs
      ensures Valid()
      ensures if now - lastUpdate >= phaseDuration then
          currentPhase == Toggle(old(currentPhase)) &&
          msgs.queue == old(msgs.queue) + [currentPhase] &&
          published == old(published) + [currentPhase] &&
          sentAt == old(sentAt) + [now] &&
          newLastUpdate == now
        else
          currentPhase == old(currentPhase) &&
          msgs.queue == old(msgs.queue) &&
          published == old(published) &&
          sentAt == old(sentAt) &&
          newLastUpdate == lastUpdate
    {
      newLastUpdate := lastUpdate;
      var elapsedTime := now - lastUpdate;
      if elapsedTime >= phaseDuration {
        currentPhase := Toggle(currentPhase);
        msgs.Send(currentPhase);
        origin := origin + [|published|];
        published := published + [currentPhase];
        sentAt := sentAt + [now];
        newLastUpdate := now;
      }
    }

    /** The cycling loop run over a finite run of clock readings: the duration is
        drawn once, the stopwatch starts at `start`, and each reading is one
        iteration. One phase is sent at each instant of `FlipTimes`, in order. */
    method CycleThroughPhases(draw: int, start: int, clock: seq<int>)
      requires Valid()
      requires 4 <= draw <= 6
      modifies this, msgs
      ensures Valid()
      ensures sentAt == old(sentAt) + FlipTimes(clock, PhaseDuration(draw), start)
      ensures |published| == |old(published)| + |FlipTimes(clock, PhaseDuration(draw), start)|
      ensures published[..|old(published)|] == old(published)
      ensures msgs.queue == old(msgs.queue) + published[|old(published)|..]
    {
      var phaseDuration := PhaseDuration(draw);
      var lastUpdate := start;
      var i := 0;
      while i < |clock|
        invariant 0 <= i <= |clock|
        invariant Valid()
        invariant |old(published)| <= |published|
        invariant published[..|old(published)|] == old(published)
        invariant msgs.queue == old(msgs.queue) + published[|old(published)|..]
        invariant sentAt + FlipTimes(clock[i..], phaseDuration, lastUpdate)
          == old(sentAt) + FlipTimes(clock, phaseDuration, start)
        invariant |published| - |old(published)| + |FlipTimes(clock[i..], phaseDuration, lastUpdate)|
          == |FlipTimes(clock, phaseDuration, start)|
      {
        assert clock[i..][0] == clock[i] && clock[i..][1..] == clock[i + 1..];
        lastUpdate := Step(clock[i], phaseDuration, lastUpdate);
        i := i + 1;
      }
    }
  }

  /** A new light after three expired phases has published green, red, green. */
  method FlipThreeTimes() returns (light: TrafficLight, lastUpdate: int)
    ensures fresh(light) && fresh(light.msgs) && light.Valid()
    ensures light.published == [Green, Red, Green] && light.msgs.queue == [Green, Red, Green]
    ensures lastUpdate == 12000
  {
    light := new TrafficLight();
    lastUpdate := light.Step(4000, 4000, 0);
    assert light.currentPhase == Green && lastUpdate == 4000;
    assert light.published == [Green] && light.msgs.queue == [Green];
    lastUpdate := light.Step(8000, 4000, lastUpdate);
    assert light.currentPhase == Red && lastUpdate == 8000;
    assert light.published == [Green, Red] && light.msgs.queue == [Green, Red];
    lastUpdate := light.Step(12000, 4000, lastUpdate);
  }

  /** Published phases alternate, but the buffer need not: with the back taken
      first, a green consumed by a waiter between two flips leaves two reds
      buffered side by side. */
  method RepeatedPhaseInBuffer() returns (light: TrafficLight)
    ensures fresh(light) && fresh(light.msgs) && light.Valid()
    ensures light.published == [Green, Red, Green, Red]
    ensures light.msgs.queue == [Green, Red, Red]
  {
    var lastUpdate;
    light, lastUpdate := FlipThreeTimes();
    assert QueueAfterWaitForGreen([Green, Red, Green]) == [Green, Red];
    light.WaitForGreen();
    lastUpdate := light.Step(16000, 4000, lastUpdate);
  }

  /** Because the buffer is unbounded and read from the back, a second waiter on a
      red light can return without any new flip: from green, red, red it discards
      both reds and takes the green of the first flip, and the light is still red. */
  method StaleGreenEndsWait() returns (light: TrafficLight)
    ensures fresh(light) && fresh(light.msgs) && light.Valid()
    ensures light.currentPhase == Red
    ensures light.published == [Green, Red, Green, Red]
    ensures light.msgs.queue == []
  {
    light := RepeatedPhaseInBuffer();
    assert [Green, Red, Red][..1] == [Green];
    assert QueueAfterWaitForGreen([Green, Red, Red]) == [];
    light.WaitForGreen();
  }
}
