/** The buffer of phase messages between the cycling loop and its waiters. */
module MessageQueues {
  import opened Phases

  /** The values that successive receives take out of a buffer `q` until it is empty. */
  function Drain(q: seq<Phase>): (r: seq<Phase>)
    ensures |r| == |q|
  {
    if q == [] then [] else [q[|q| - 1]] + Drain(q[..|q| - 1])
  }

  /** The buffer is last-in first-out: the k-th receive yields the k-th entry from the back. */
  lemma {:induction false} DrainIsLastInFirstOut(q: seq<Phase>, k: nat)
    requires k < |q|
    ensures |Drain(q)| == |q|
    ensures Drain(q)[k] == q[|q| - 1 - k]
  {
    var n := |q|;
    if k == 0 {
      if n > 1 { DrainIsLastInFirstOut(q[..n - 1], 0); }
    } else {
      DrainIsLastInFirstOut(q[..n - 1], k - 1);
    }
  }

  /** Not first-in first-out: of two buffered phases the one sent second comes out first. */
  lemma SecondSentIsReceivedFirst(first: Phase, second: Phase)
    ensures Drain([first, second]) == [second, first]
  {
    assert [first, second][..1] == [first];
    assert [first][..0] == [];
    assert Drain([first]) == [first] + Drain([]);
    assert Drain([first, second]) == [second] + Drain([first]);
  }

  class MessageQueue {
    /** The buffered phases, oldest first (the source's `_queue`). */
    var queue: seq<Phase>

    constructor ()
      ensures queue == []
    {
      queue := [];
    }

    /** Appends `lightPhase` at the back; never blocks and never fails. */
    method Send(lightPhase: Phase)
      modifies this
      ensures queue == old(queue) + [lightPhase]
    {
      queue := queue + [lightPhase];
    }

    /** Removes and returns the back entry. The source blocks until the buffer is
        non-empty; here that wait is the precondition. */
    method Receive() returns (lightPhase: Phase)
      requires queue != []
      modifies this
      ensures old(queue) == queue + [lightPhase]
      ensures Drain(old(queue)) == [lightPhase] + Drain(queue)
    {
      lightPhase := queue[|queue| - 1];
      queue := queue[..|queue| - 1];
      assert old(queue)[..|old(queue)| - 1] == queue;
    }
  }

  /** A send followed at once by a receive hands back the sent phase and leaves
      the buffer as it was. */
  method SendThenReceive(mq: MessageQueue, x: Phase) returns (y: Phase)
    modifies mq
    ensures y == x
    ensures mq.queue == old(mq.queue)
  {
    mq.Send(x);
    y := mq.Receive();
  }
}
