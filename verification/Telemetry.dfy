/** The telemetry queue: producers put events into a bounded channel without blocking, one
    sender moves them into a batch and flushes it at a hundred events or on a timer tick. */
module Telemetry {
  import opened Wrappers

  const CAPACITY: nat := 1000
  const BATCH: nat := 100

  /** A batch handed to flush, and whether telemetry was on at that moment. */
  datatype Flush<T> = Flush(events: seq<T>, on: bool)

  /** `accepted` and `flushed` record the history. */
  datatype State<T> = State(queue: seq<T>, batch: seq<T>, flushed: seq<Flush<T>>, accepted: seq<T>)

  /** The setting is None until the user has chosen. */
  datatype Step<T> = Track(event: T, enabled: Option<bool>) | Receive(enabled: Option<bool>) | Tick(enabled: Option<bool>)

  function Start<T>(): State<T> {
    State([], [], [], [])
  }

  predicate On(enabled: Option<bool>) {
    enabled == Some(true)
  }

  function Flushed<T>(s: State<T>, enabled: Option<bool>): State<T> {
    s.(batch := [], flushed := s.flushed + [Flush(s.batch, On(enabled))])
  }

  function Apply<T>(s: State<T>, step: Step<T>): State<T> {
    match step
    case Track(e, enabled) =>
      if On(enabled) && |s.queue| < CAPACITY then s.(queue := s.queue + [e], accepted := s.accepted + [e]) else s
    case Receive(enabled) =>
      if s.queue == [] then s
      else
        var s' := s.(queue := s.queue[1..], batch := s.batch + [s.queue[0]]);
        if |s'.batch| >= BATCH then Flushed(s', enabled) else s'
    case Tick(enabled) => if s.batch != [] then Flushed(s, enabled) else s
  }

  function Run<T>(steps: seq<Step<T>>): State<T> {
    if steps == [] then Start() else Apply(Run(steps[..|steps| - 1]), steps[|steps| - 1])
  }

  function AllEvents<T>(flushed: seq<Flush<T>>): seq<T> {
    if flushed == [] then [] else AllEvents(flushed[..|flushed| - 1]) + flushed[|flushed| - 1].events
  }

  ghost predicate Conserved<T>(s: State<T>) {
    && s.accepted == AllEvents(s.flushed) + s.batch + s.queue
    && |s.queue| <= CAPACITY && |s.batch| < BATCH
    && forall i :: 0 <= i < |s.flushed| ==> 1 <= |s.flushed[i].events| <= BATCH
  }

  lemma FlushAppends<T>(flushed: seq<Flush<T>>, f: Flush<T>)
    ensures AllEvents(flushed + [f]) == AllEvents(flushed) + f.events
  {
    assert (flushed + [f])[..|flushed + [f]| - 1] == flushed;
  }

  lemma ApplyConserves<T>(s: State<T>, step: Step<T>)
    requires Conserved(s)
    ensures Conserved(Apply(s, step))
  {
    hide AllEvents;
    if step.Receive? && s.queue != [] {
      var batch := s.batch + [s.queue[0]];
      assert s.queue == [s.queue[0]] + s.queue[1..];
      FlushAppends(s.flushed, Flush(batch, On(step.enabled)));
      assert AllEvents(s.flushed) + s.batch + s.queue == AllEvents(s.flushed) + batch + s.queue[1..];
      assert AllEvents(s.flushed) + batch + [] == AllEvents(s.flushed) + batch;
    } else if step.Tick? && s.batch != [] {
      FlushAppends(s.flushed, Flush(s.batch, On(step.enabled)));
      assert AllEvents(s.flushed) + s.batch + [] == AllEvents(s.flushed) + s.batch;
    } else if step.Track? {
      assert AllEvents(s.flushed) + s.batch + (s.queue + [step.event]) == AllEvents(s.flushed) + s.batch + s.queue + [step.event];
    }
  }

  /** CONSERVATION. In every interleaving the accepted events, in order, are those of the
      flushed batches, then the current batch, then the queue; the queue never exceeds a
      thousand, the batch stays under a hundred and every flush has one to a hundred. */
  lemma {:induction false} FifoConservation<T>(steps: seq<Step<T>>)
    ensures Conserved(Run(steps))
  {
    if steps != [] {
      FifoConservation(steps[..|steps| - 1]);
      ApplyConserves(Run(steps[..|steps| - 1]), steps[|steps| - 1]);
    }
  }

  /** Events offered while telemetry was on. */
  function Offered<T>(steps: seq<Step<T>>): seq<T> {
    if steps == [] then []
    else
      var step := steps[|steps| - 1];
      Offered(steps[..|steps| - 1]) + if step.Track? && On(step.enabled) then [step.event] else []
  }

  predicate Room<T>(s: State<T>, step: Step<T>) {
    step.Track? && On(step.enabled) ==> |s.queue| < CAPACITY
  }

  lemma LossStep<T>(s: State<T>, offered: seq<T>, step: Step<T>)
    requires |s.accepted| <= |offered|
    ensures var offered' := offered + if step.Track? && On(step.enabled) then [step.event] else [];
            && |Apply(s, step).accepted| <= |offered'|
            && (Apply(s, step).accepted == offered' <==> s.accepted == offered && Room(s, step))
  {
    if step.Track? && On(step.enabled) {
      var e := step.event;
      assert (s.accepted + [e])[..|s.accepted|] == s.accepted && (offered + [e])[..|offered|] == offered;
    } else {
      assert offered + [] == offered;
    }
  }

  /** No offer of the run met a full queue. */
  predicate AlwaysRoom<T>(steps: seq<Step<T>>) {
    forall i :: 0 <= i < |steps| ==> Room(Run(steps[..i]), steps[i])
  }

  lemma AlwaysRoomStep<T>(steps: seq<Step<T>>)
    requires steps != []
    ensures var n := |steps| - 1;
            AlwaysRoom(steps) <==> AlwaysRoom(steps[..n]) && Room(Run(steps[..n]), steps[n])
  {
    hide Room, Run;
    var n := |steps| - 1;
    var init := steps[..n];
    forall i | 0 <= i < n ensures init[..i] == steps[..i] && init[i] == steps[i] {}
    if AlwaysRoom(init) && Room(Run(init), steps[n]) {
      forall i | 0 <= i < |steps| ensures Room(Run(steps[..i]), steps[i]) {
        if i < n { assert Room(Run(init[..i]), init[i]); }
      }
    }
    if AlwaysRoom(steps) {
      forall i | 0 <= i < n ensures Room(Run(init[..i]), init[i]) {
        assert Room(Run(steps[..i]), steps[i]);
      }
      assert Room(Run(steps[..n]), steps[n]);
    }
  }

  /** Every offered event was accepted exactly when no offer met a full queue. */
  lemma {:induction false} LostOnlyWhenFull<T>(steps: seq<Step<T>>)
    ensures |Run(steps).accepted| <= |Offered(steps)|
    ensures Run(steps).accepted == Offered(steps) <==> AlwaysRoom(steps)
  {
    hide Apply, Room, AlwaysRoom;
    if steps == [] {
      NoSteps<T>();
    } else {
      var n := |steps| - 1;
      LostOnlyWhenFull(steps[..n]);
      LossStep(Run(steps[..n]), Offered(steps[..n]), steps[n]);
      AlwaysRoomStep(steps);
    }
  }

  lemma NoSteps<T>()
    ensures AlwaysRoom<T>([])
  {
  }

  class TelemetryService<T> {
    var eventQueue: seq<T>
    var batch: seq<T>
    ghost var flushed: seq<Flush<T>>
    ghost var accepted: seq<T>

    ghost function View(): State<T>
      reads this
    {
      State(eventQueue, batch, flushed, accepted)
    }

    /** Every accepted event is in a flushed batch, the batch or the queue, in order, and all
        three keep their bounds. */
    ghost predicate Valid()
      reads this
    {
      Conserved(View())
    }

    /** The events in the order they were accepted: flushed, in the batch, in the queue. */
    ghost function Line(): seq<T>
      reads this
    {
      AllEvents(flushed) + batch + eventQueue
    }

    constructor ()
      ensures View() == Start() && Valid()
    {
      eventQueue, batch, flushed, accepted := [], [], [], [];
    }

    /** Never blocks: a full channel drops the event. */
    method Track(event: T, enabled: Option<bool>)
      requires Valid()
      modifies this`eventQueue, this`accepted
      ensures Valid() && View() == Apply(old(View()), Step.Track(event, enabled))
      ensures Line() == old(Line()) || Line() == old(Line()) + [event]
      ensures Line() == old(Line()) <==> enabled != Some(true) || |old(eventQueue)| == 1000
    {
      ApplyConserves(View(), Step.Track(event, enabled));
      if enabled == None || !enabled.value { return; }
      if |eventQueue| < 1000 {
        eventQueue := eventQueue + [event];
        accepted := accepted + [event];
      }
    }

    /** The sender takes one event from the channel. */
    method OnEvent(enabled: Option<bool>)
      requires Valid() && eventQueue != []
      modifies this`eventQueue, this`batch, this`flushed
      ensures Valid() && View() == Apply(old(View()), Receive(enabled))
      ensures Line() == old(Line()) && |eventQueue| == |old(eventQueue)| - 1
      ensures flushed == if |old(batch)| == 99
                         then old(flushed) + [Flush(old(batch) + [old(eventQueue)[0]], enabled == Some(true))] else old(flushed)
    {
      hide AllEvents;
      ApplyConserves(View(), Receive(enabled));
      var event := eventQueue[0];
      eventQueue := eventQueue[1..];
      batch := batch + [event];
      if |batch| >= 100 {
        FlushEvents(enabled);
        batch := [];
      }
    }

    /** The timer fires: whatever has been batched goes out. */
    method OnTick(enabled: Option<bool>)
      requires Valid()
      modifies this`batch, this`flushed
      ensures Valid() && View() == Apply(old(View()), Tick(enabled))
      ensures Line() == old(Line()) && batch == []
      ensures flushed == if old(batch) != [] then old(flushed) + [Flush(old(batch), enabled == Some(true))] else old(flushed)
    {
      ApplyConserves(View(), Tick(enabled));
      if |batch| > 0 {
        FlushEvents(enabled);
        batch := [];
      }
    }

    /** Sends the batch when telemetry is on and forgets it otherwise. */
    method FlushEvents(enabled: Option<bool>)
      modifies this`flushed
      ensures flushed == old(flushed) + [Flush(batch, enabled == Some(true))]
    {
      flushed := flushed + [Flush(batch, On(enabled))];
    }
  }
}
