/**
 The firmware's endless main loop. Each iteration samples the button, tests
 and clears the edge latch, and then either renders one pass of the heart
 bitmap or prints one diagnostic line and waits for an event.
 */
module MainLoop {
  import opened Display
  import opened Latch

  /** The result of `button_a.is_low()`: the sampled level, or a read error. */
  datatype ReadResult = Ok(low: bool) | Err

  /** What one iteration does. */
  datatype Action = Render | Idle

  /** The line printed each time the loop goes idle. */
  const WaitLine: string := "Wait for event."

  /** `matches!(button_a.is_low(), Ok(true))`: the button reads as held. */
  predicate StillPressed(read: ReadResult) {
    read.Ok? && read.low
  }

  /**
   The branch taken, given what the test-and-clear returned and what the
   button read gave. A read error counts as not held, so with no edge
   pending it idles.
   */
  function Decide(was: bool, read: ReadResult): (a: Action)
    ensures a == Render <==> was || read == Ok(true)
    ensures a == Idle <==> !was && (read == Err || read == Ok(false))
  {
    if was || StillPressed(read) then Render else Idle
  }

  /**
   One iteration of the loop. The latch is tested and cleared on every
   iteration, held button or not. A render pass writes the heart's pulses
   to the line arrays; the idle branch prints one line and leaves the lines
   alone. Either way, lines that were at rest are at rest afterwards.
   */
  method Iterate(latch: EdgeLatch, read: ReadResult, rows: array<Level>, cols: array<Level>)
    returns (action: Action, trace: seq<Write>, output: seq<string>)
    requires latch.Valid()
    requires rows.Length == Size && cols.Length == Size && rows != cols
    modifies latch, rows, cols
    ensures latch.Valid() && !latch.pending
    ensures latch.history == old(latch.history) + [Poll]
    ensures action == Decide(old(latch.pending), read)
    ensures action == Render ==>
      && trace == PassTrace(Heart) && |trace| == 40 && output == []
      && Lines(rows[..], cols[..]) == ApplyAll(old(Lines(rows[..], cols[..])), trace)
    ensures action == Idle ==>
      trace == [] && output == [WaitLine] && rows[..] == old(rows[..]) && cols[..] == old(cols[..])
    ensures old(AtRest(Lines(rows[..], cols[..]))) ==> AtRest(Lines(rows[..], cols[..]))
  {
    var stillPressed := StillPressed(read);
    var was := latch.TestAndClear();
    if was || stillPressed {
      action := Render;
      HeartPass();
      trace := RenderPass(Heart, rows, cols);
      PassRestoresRest(Heart);
      output := [];
    } else {
      action := Idle;
      trace := [];
      output := [WaitLine];
    }
  }

  /**
   What happens around one iteration: whether the GPIOTE handler ran (once
   or more) since the previous iteration's test-and-clear, and what the
   button read gives.
   */
  datatype Tick = Tick(edge: bool, read: ReadResult)

  /** The latch and the actions taken after a run of iterations. */
  datatype LoopState = LoopState(pending: bool, actions: seq<Action>)

  /** The latch events of one iteration: the handler's set, if it ran, then the test-and-clear. */
  function TickEvents(t: Tick): seq<Event> {
    if t.edge then [Edge, Poll] else [Poll]
  }

  /** One iteration from latch value p, in terms of the latch's own event semantics. */
  function Step(p: bool, t: Tick): (r: (bool, Action))
    ensures !r.0
    ensures r.1 == Render <==> p || t.edge || t.read == Ok(true)
  {
    var o := Run(p, TickEvents(t));
    assert [Edge, Poll][..1] == [Edge] && [Edge][..0] == [] && [Poll][..0] == [];
    assert o.polled == [p || t.edge];
    (o.pending, Decide(o.polled[|o.polled| - 1], t.read))
  }

  /**
   One iteration as it happens on the board: the GPIOTE handler runs first
   if an edge arrived, then the loop iteration itself. The action and the
   flag afterwards are exactly what `Step` gives, the lines and output are
   those of `Iterate`, and the peripheral is acknowledged only when the
   handler ran.
   */
  method IterateTick(latch: EdgeLatch, gpiote: Gpiote?, t: Tick, rows: array<Level>, cols: array<Level>)
    returns (action: Action, trace: seq<Write>, output: seq<string>)
    requires latch.Valid()
    requires rows.Length == Size && cols.Length == Size && rows != cols
    modifies latch, gpiote, rows, cols
    ensures latch.Valid()
    ensures latch.history == old(latch.history) + TickEvents(t)
    ensures action == Step(old(latch.pending), t).1
    ensures latch.pending == Step(old(latch.pending), t).0
    ensures action == Render ==>
      && trace == PassTrace(Heart) && output == []
      && Lines(rows[..], cols[..]) == ApplyAll(old(Lines(rows[..], cols[..])), trace)
    ensures action == Idle ==>
      trace == [] && output == [WaitLine] && rows[..] == old(rows[..]) && cols[..] == old(cols[..])
    ensures old(AtRest(Lines(rows[..], cols[..]))) ==> AtRest(Lines(rows[..], cols[..]))
    ensures t.edge && gpiote != null ==> !gpiote.events
    ensures !t.edge && gpiote != null ==> gpiote.events == old(gpiote.events)
  {
    if t.edge {
      OnGpiote(gpiote, latch);
    }
    action, trace, output := Iterate(latch, t.read, rows, cols);
  }

  /** The loop run for a sequence of iterations, from latch value p. */
  function Loop(p: bool, ticks: seq<Tick>): LoopState
    decreases |ticks|
  {
    if ticks == [] then LoopState(p, [])
    else
      var s := Loop(p, ticks[..|ticks| - 1]);
      var r := Step(s.pending, ticks[|ticks| - 1]);
      LoopState(r.0, s.actions + [r.1])
  }

  /**
   Over any run of iterations, iteration i renders exactly when the handler
   ran since the previous iteration or the button reads as held (or, for the
   first, the latch started set), and goes idle, printing one line, exactly
   when none of these holds. An edge makes the next iteration render and no
   later one; a held button renders whatever the latch holds. The latch is
   empty after every iteration.
   */
  lemma {:induction false} LoopRendersIff(p: bool, ticks: seq<Tick>)
    ensures |Loop(p, ticks).actions| == |ticks|
    ensures ticks != [] ==> !Loop(p, ticks).pending
    ensures forall i :: 0 <= i < |ticks| ==>
      (Loop(p, ticks).actions[i] == Render <==> ticks[i].edge || ticks[i].read == Ok(true) || (i == 0 && p))
    decreases |ticks|
  {
    if ticks != [] {
      var init := ticks[..|ticks| - 1];
      LoopRendersIff(p, init);
      forall i | 0 <= i < |init| ensures ticks[i] == init[i] { }
    }
  }
}
