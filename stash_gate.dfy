/**
 * The journal's `WaitingForInitialization` behaviour as a value: requests
 * that arrive before the database is ready are stashed; Status.Success
 * releases them in arrival order, Status.Failure stops the actor.
 */
module StashGate {
  import opened RavenDbPersistence

  /** A message the journal actor receives: the piped initialization status, or any request. */
  datatype Message =
    | StatusMessage(status: Status)
    | Request(id: nat)

  /**
   * The actor's state: whether it is still waiting, whether it has stopped,
   * the stash, and the messages its normal behaviour has received so far.
   */
  datatype Gate = Gate(waiting: bool, stopped: bool, stash: seq<Message>, handled: seq<Message>)

  /** The state `PreStart` leaves: waiting, with an empty stash. */
  const Initial: Gate := Gate(true, false, [], [])

  /** One message: stashed or acted on while waiting, passed on afterwards, dropped once stopped. */
  function GateStep(g: Gate, m: Message): (r: Gate)
    ensures g.stopped ==> r == g
    ensures !g.stopped && !g.waiting ==> r == g.(handled := g.handled + [m])
  {
    if g.stopped then g
    else if !g.waiting then g.(handled := g.handled + [m])
    else match m
      case StatusMessage(StatusSuccess) => Gate(false, false, [], g.handled + g.stash)
      case StatusMessage(StatusFailure(_)) => g.(stopped := true)
      case Request(_) => g.(stash := g.stash + [m])
  }

  /** The state after a run of messages, in arrival order. */
  function Run(g: Gate, ms: seq<Message>): Gate {
    if ms == [] then g else GateStep(Run(g, ms[..|ms| - 1]), ms[|ms| - 1])
  }

  predicate NoStatus(ms: seq<Message>) {
    forall i :: 0 <= i < |ms| ==> ms[i].Request?
  }

  lemma {:induction false} RunAppend(g: Gate, a: seq<Message>, b: seq<Message>)
    ensures Run(g, a + b) == Run(Run(g, a), b)
    decreases |b|
  {
    if b == [] {
      assert a + b == a;
    } else {
      RunAppend(g, a, b[..|b| - 1]);
      assert (a + b)[..|a + b| - 1] == a + b[..|b| - 1];
    }
  }

  /** While waiting, requests only accumulate in the stash, in arrival order. */
  lemma {:induction false} WaitingStashes(ms: seq<Message>)
    requires NoStatus(ms)
    ensures Run(Initial, ms) == Gate(true, false, ms, [])
    decreases |ms|
  {
    if ms != [] {
      var init, last := ms[..|ms| - 1], ms[|ms| - 1];
      assert NoStatus(init) by {
        forall i | 0 <= i < |init| ensures init[i].Request? {
          assert init[i] == ms[i];
        }
      }
      WaitingStashes(init);
      assert last.Request? by { assert last == ms[|ms| - 1]; }
      assert ms == init + [last];
    }
  }

  /** After the gate opens, every message is handled in arrival order. */
  lemma {:induction false} OpenPassesOn(g: Gate, ms: seq<Message>)
    requires !g.waiting && !g.stopped
    ensures Run(g, ms) == g.(handled := g.handled + ms)
    decreases |ms|
  {
    if ms != [] {
      OpenPassesOn(g, ms[..|ms| - 1]);
      assert g.handled + ms == g.handled + ms[..|ms| - 1] + [ms[|ms| - 1]];
    }
  }

  /** Once stopped, nothing changes. */
  lemma {:induction false} StoppedStays(g: Gate, ms: seq<Message>)
    requires g.stopped
    ensures Run(g, ms) == g
    decreases |ms|
  {
    if ms != [] {
      StoppedStays(g, ms[..|ms| - 1]);
    }
  }

  /**
   * Success releases the stashed requests before anything that arrives
   * later, each in arrival order.
   */
  lemma SuccessReleasesInOrder(early: seq<Message>, later: seq<Message>)
    requires NoStatus(early)
    ensures Run(Initial, early + [StatusMessage(StatusSuccess)] + later) == Gate(false, false, [], early + later)
  {
    WaitingStashes(early);
    RunAppend(Initial, early, [StatusMessage(StatusSuccess)]);
    var ready := Run(Initial, early + [StatusMessage(StatusSuccess)]);
    assert ready == Gate(false, false, [], early);
    RunAppend(Initial, early + [StatusMessage(StatusSuccess)], later);
    OpenPassesOn(ready, later);
  }

  /** Failure stops the actor: nothing stashed or later is ever handled. */
  lemma FailureStops(early: seq<Message>, cause: Cause, later: seq<Message>)
    requires NoStatus(early)
    ensures var g := Run(Initial, early + [StatusMessage(StatusFailure(cause))] + later);
            g.stopped && g.handled == [] && g.stash == early
  {
    WaitingStashes(early);
    RunAppend(Initial, early, [StatusMessage(StatusFailure(cause))]);
    var stopped := Run(Initial, early + [StatusMessage(StatusFailure(cause))]);
    RunAppend(Initial, early + [StatusMessage(StatusFailure(cause))], later);
    StoppedStays(stopped, later);
  }
}
