/** The health check `xAreSingleTaskTCPEchoClientsStillRunning` over any interleaving with its client task. */
module HealthMonitor {
  import opened Words

  datatype Health = Health(cycles: Word, connections: Word, lastCycles: Word, lastConnections: Word)

  datatype Event = Connected | Cycled | Checked

  const START := Health(0, 0, 0, 0)

  function Increment(w: Word): Word {
    (w + 1) % TWO_32
  }

  /** A call passes when neither counter stands where the statics last saw it. */
  predicate Passes(h: Health) {
    h.cycles != h.lastCycles && h.connections != h.lastConnections
  }

  /** The call records the cycle count, but resets the connection count to the recorded one. */
  function AfterCheck(h: Health): Health {
    h.(lastCycles := h.cycles, connections := h.lastConnections)
  }

  function After(h: Health, e: Event): Health {
    match e
    case Connected => h.(connections := Increment(h.connections))
    case Cycled => h.(cycles := Increment(h.cycles))
    case Checked => AfterCheck(h)
  }

  function Run(h: Health, events: seq<Event>): Health
    decreases |events|
  {
    if events == [] then h else After(Run(h, events[..|events| - 1]), events[|events| - 1])
  }

  lemma RunSnoc(h: Health, events: seq<Event>, e: Event)
    ensures Run(h, events + [e]) == After(Run(h, events), e)
  {
    assert (events + [e])[..|events|] == events;
  }

  /** How often `e` happened since the last check. */
  function Since(events: seq<Event>, e: Event): nat
    decreases |events|
  {
    if events == [] || events[|events| - 1] == Checked then 0
    else Since(events[..|events| - 1], e) + if events[|events| - 1] == e then 1 else 0
  }

  /** The recorded connection count is 0, and the counters measure these numbers. */
  predicate Measures(h: Health, connected: nat, cycled: nat) {
    && h.lastConnections == 0
    && h.connections == connected % TWO_32
    && h.cycles == (h.lastCycles + cycled) % TWO_32
  }

  function Counted(n: nat, what: Event, e: Event): nat {
    if e == Checked then 0 else if e == what then n + 1 else n
  }

  lemma StepMeasures(h: Health, connected: nat, cycled: nat, e: Event)
    requires Measures(h, connected, cycled)
    ensures Measures(After(h, e), Counted(connected, Connected, e), Counted(cycled, Cycled, e))
  {
    match e
    case Connected => IncrementOfResidue(connected);
    case Cycled => IncrementOfResidue(h.lastCycles + cycled);
    case Checked => SmallMod(h.cycles, TWO_32);
  }

  /** Kept by every step: the recorded connection count stays 0 and the counters measure from the last check. */
  lemma {:induction false} CountersMeasureSinceCheck(events: seq<Event>)
    ensures Run(START, events).lastConnections == 0
    ensures Run(START, events).connections == Since(events, Connected) % TWO_32
    ensures Run(START, events).cycles == (Run(START, events).lastCycles + Since(events, Cycled)) % TWO_32
    decreases |events|
  {
    if events == [] {
    } else {
      var before, last := events[..|events| - 1], events[|events| - 1];
      CountersMeasureSinceCheck(before);
      StepMeasures(Run(START, before), Since(before, Connected), Since(before, Cycled), last);
    }
  }

  lemma IncrementOfResidue(n: nat)
    ensures Increment(n % TWO_32) == (n + 1) % TWO_32
  {
    ModAddMultiple(n % TWO_32 + 1, TWO_32, n / TWO_32);
  }

  /** After any interleaving, a call passes exactly when the cycles and the connections counted since the
      previous call are both nonzero modulo 2^32. */
  lemma PassesExactly(events: seq<Event>)
    ensures Passes(Run(START, events)) <==>
      Since(events, Cycled) % TWO_32 != 0 && Since(events, Connected) % TWO_32 != 0
  {
    CountersMeasureSinceCheck(events);
    var last, c := Run(START, events).lastCycles, Since(events, Cycled);
    SmallMod(last, TWO_32);
    ModDifference(last + c, last, TWO_32);
  }

  /** Before any counter can wrap, a call passes exactly when there were both cycles and connections since the
      previous one. */
  lemma PassesMeansProgress(events: seq<Event>)
    requires Since(events, Cycled) < TWO_32 && Since(events, Connected) < TWO_32
    ensures Passes(Run(START, events)) <==> Since(events, Cycled) > 0 && Since(events, Connected) > 0
  {
    PassesExactly(events);
    SmallMod(Since(events, Cycled), TWO_32);
    SmallMod(Since(events, Connected), TWO_32);
  }

  /** The check is documented to fail when no cycle has been counted since the previous call, and only then. */
  predicate AsDocumented(events: seq<Event>) {
    Passes(Run(START, events)) <==> Since(events, Cycled) > 0
  }

  /** A call reports what it is documented to report exactly when there was no cycle to report, or cycles and
      connections since the previous call are both nonzero modulo 2^32.  It never passes without a cycle. */
  lemma AsDocumentedExactly(events: seq<Event>)
    ensures AsDocumented(events) <==>
      Since(events, Cycled) == 0 || (Since(events, Cycled) % TWO_32 != 0 && Since(events, Connected) % TWO_32 != 0)
    ensures Passes(Run(START, events)) ==> Since(events, Cycled) > 0
  {
    PassesExactly(events);
    SmallMod(0, TWO_32);
  }

  // ----- What the calls of a whole run report -----

  /** Both kinds of progress since the previous call, modulo 2^32. */
  predicate Progress(events: seq<Event>) {
    Since(events, Cycled) % TWO_32 != 0 && Since(events, Connected) % TWO_32 != 0
  }

  /** What the calls among the events report. */
  function Reports(events: seq<Event>): seq<bool>
    decreases |events|
  {
    if events == [] then []
    else
      var before := events[..|events| - 1];
      if events[|events| - 1] == Checked then Reports(before) + [Progress(before)] else Reports(before)
  }

  lemma ReportsSnoc(events: seq<Event>, e: Event)
    ensures Reports(events + [e]) == if e == Checked then Reports(events) + [Progress(events)] else Reports(events)
  {
    assert (events + [e])[..|events|] == events;
  }

  lemma SinceSnoc(events: seq<Event>, e: Event, what: Event)
    ensures Since(events + [e], what) == Counted(Since(events, what), what, e)
  {
    assert (events + [e])[..|events|] == events;
  }
}
