/**
 The button-edge latch shared by the GPIOTE interrupt handler and the main
 loop: a single flag that the handler sets and the loop tests and clears in
 one step.

 Interrupts are abstracted sequentially: a handler run is an `Edge` event
 that happens between two steps of the main loop, a test-and-clear is a
 `Poll` event. `Run` gives the flag and the values polls return for any
 interleaving of the two.
 */
module Latch {

  /** What can happen to the flag: the handler sets it, or the loop tests and clears it. */
  datatype Event = Edge | Poll

  /** The flag after a run of events, and the values the polls returned, in order. */
  datatype Outcome = Outcome(pending: bool, polled: seq<bool>)

  /** Runs the events in order from the flag value p. */
  function Run(p: bool, es: seq<Event>): Outcome
    decreases |es|
  {
    if es == [] then Outcome(p, [])
    else
      var o := Run(p, es[..|es| - 1]);
      match es[|es| - 1]
      case Edge => Outcome(true, o.polled)
      case Poll => Outcome(false, o.polled + [o.pending])
  }

  /** A handler ran after the last poll of es, or es holds no poll and the flag started set. */
  ghost predicate EdgeSinceLastPoll(p: bool, es: seq<Event>) {
    || (exists j :: 0 <= j < |es| && es[j] == Edge && NoPollAfter(es, j + 1))
    || (p && NoPollAfter(es, 0))
  }

  /** No poll at or after position k of es. */
  ghost predicate NoPollAfter(es: seq<Event>, k: nat) {
    forall i :: k <= i < |es| ==> es[i] != Poll
  }

  function CountTrue(bs: seq<bool>): nat
    decreases |bs|
  {
    if bs == [] then 0 else CountTrue(bs[..|bs| - 1]) + (if bs[|bs| - 1] then 1 else 0)
  }

  function CountEdges(es: seq<Event>): nat
    decreases |es|
  {
    if es == [] then 0 else CountEdges(es[..|es| - 1]) + (if es[|es| - 1] == Edge then 1 else 0)
  }

  /** n handler runs in a row. */
  function Edges(n: nat): (es: seq<Event>)
    ensures |es| == n && forall i :: 0 <= i < n ==> es[i] == Edge
  {
    seq(n, _ => Edge)
  }

  /**
   The flag is set exactly when a handler ran since the last test-and-clear
   (or nothing was polled yet and it started set): no edge is lost.
   */
  lemma PendingIffEdgeSinceLastPoll(p: bool, es: seq<Event>)
    ensures Run(p, es).pending <==> EdgeSinceLastPoll(p, es)
  {
    if es != [] {
      var last := |es| - 1;
      if es[last] == Edge {
        // the last event is the witness
        assert NoPollAfter(es, last + 1);
      } else {
        // the last event is a poll, which rules every witness out
        assert !NoPollAfter(es, 0);
        forall j | 0 <= j < |es| && es[j] == Edge ensures !NoPollAfter(es, j + 1) {
          assert es[last] == Poll;
        }
      }
    }
  }

  /**
   No edge is lost: after a handler run at position j, either some later
   test-and-clear returns true, or the flag is still set at the end.
   */
  lemma NoEdgeLost(p: bool, es: seq<Event>, j: nat)
    requires j < |es| && es[j] == Edge
    ensures || Run(p, es).pending
            || exists k :: j < k < |es| && es[k] == Poll && Run(p, es[..k]).pending
  {
    if !NoPollAfter(es, j + 1) {
      var k :| j + 1 <= k < |es| && es[k] == Poll;
      // take the first poll after j
      while exists i :: j < i < k && es[i] == Poll
        invariant j < k < |es| && es[k] == Poll
        decreases k
      {
        var earlier :| j < earlier < k && es[earlier] == Poll;
        k := earlier;
      }
      assert NoPollAfter(es[..k], j + 1);
      assert es[..k][j] == Edge;
      PendingIffEdgeSinceLastPoll(p, es[..k]);
    } else {
      PendingIffEdgeSinceLastPoll(p, es);
    }
  }

  /**
   No edge is counted twice: the polls that return true, plus a flag still
   set, never outnumber the handler runs (plus one if the flag started set).
   */
  lemma {:induction false} TruePollsBounded(p: bool, es: seq<Event>)
    ensures CountTrue(Run(p, es).polled) + (if Run(p, es).pending then 1 else 0)
         <= CountEdges(es) + (if p then 1 else 0)
    decreases |es|
  {
    if es != [] {
      var init := es[..|es| - 1];
      TruePollsBounded(p, init);
      var polled := Run(p, init).polled;
      assert (polled + [Run(p, init).pending])[..|polled|] == polled;
    }
  }

  /**
   Setting is idempotent: any number (at least one) of handler runs before
   two test-and-clears make the first return true and the second false.
   */
  lemma {:induction false} SetIdempotent(p: bool, es: seq<Event>, n: nat)
    requires n >= 1
    ensures Run(p, es + Edges(n)).pending
    ensures Run(p, es + Edges(n) + [Poll, Poll]).polled == Run(p, es).polled + [true, false]
    decreases n
  {
    var pre := es + Edges(n);
    if n == 1 {
      assert pre[..|pre| - 1] == es;
    } else {
      assert pre[..|pre| - 1] == es + Edges(n - 1);
      SetIdempotent(p, es, n - 1);
    }
    var withPolls := pre + [Poll, Poll];
    assert withPolls[..|withPolls| - 1] == pre + [Poll];
    assert (pre + [Poll])[..|pre|] == pre;
    assert Run(p, pre).polled == Run(p, es).polled by {
      EdgesKeepPolled(p, es, n);
    }
  }

  /** Handler runs return nothing: appending them leaves the poll results as they were. */
  lemma {:induction false} EdgesKeepPolled(p: bool, es: seq<Event>, n: nat)
    ensures Run(p, es + Edges(n)).polled == Run(p, es).polled
    decreases n
  {
    if n == 0 {
      assert es + Edges(n) == es;
    } else {
      var pre := es + Edges(n);
      assert pre[..|pre| - 1] == es + Edges(n - 1);
      EdgesKeepPolled(p, es, n - 1);
    }
  }

  /** The GPIOTE peripheral's latched event flags, the part the handler acknowledges. */
  class Gpiote {
    var events: bool

    /** `reset_events`: clears the peripheral's event flags so that the next edge interrupts again. */
    method ResetEvents()
      modifies this
      ensures !events
    {
      events := false;
    }
  }

  /**
   The `BUTTON_A_PRESSED` flag. `history` records every event so far, and
   `Valid` ties the real flag to what `Run` computes from the history.
   */
  class EdgeLatch {
    var pending: bool
    ghost var history: seq<Event>

    ghost predicate Valid()
      reads this
    {
      pending == Run(false, history).pending
    }

    /** The flag starts cleared. */
    constructor ()
      ensures Valid() && !pending && history == []
    {
      pending := false;
      history := [];
    }

    /** `store(true)`: marks an edge as pending, whatever the flag was. */
    method Set()
      requires Valid()
      modifies this
      ensures Valid() && pending
      ensures history == old(history) + [Edge]
    {
      pending := true;
      history := history + [Edge];
    }

    /** `compare_exchange(true, false)` as a test-and-clear: returns the flag and leaves it cleared. */
    method TestAndClear() returns (was: bool)
      requires Valid()
      modifies this
      ensures Valid() && !pending
      ensures was == old(pending)
      ensures history == old(history) + [Poll]
      ensures Run(false, history).polled == Run(false, old(history)).polled + [was]
    {
      was := pending;
      if pending {
        pending := false;
      }
      history := history + [Poll];
    }
  }

  /**
   Two test-and-clears with no handler run in between: the first returns the
   flag, the second false.
   */
  method TestAndClearTwice(latch: EdgeLatch) returns (first: bool, second: bool)
    requires latch.Valid()
    modifies latch
    ensures latch.Valid() && !latch.pending
    ensures latch.history == old(latch.history) + [Poll, Poll]
    ensures first == old(latch.pending) && !second
  {
    first := latch.TestAndClear();
    second := latch.TestAndClear();
  }

  /**
   The GPIOTE interrupt handler: acknowledges the peripheral if it has been
   installed (`gpiote` is the content of the shared cell, null while empty),
   then sets the latch in either case.
   */
  method OnGpiote(gpiote: Gpiote?, latch: EdgeLatch)
    requires latch.Valid()
    modifies gpiote, latch
    ensures latch.Valid() && latch.pending
    ensures latch.history == old(latch.history) + [Edge]
    ensures gpiote != null ==> !gpiote.events
  {
    if gpiote != null {
      gpiote.ResetEvents();
    }
    latch.Set();
  }
}
