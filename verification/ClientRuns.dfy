/** Whole runs of the echo client in TCPEchoClient_SingleTasks.c, interleaved with calls of its health check:
    which outcomes they have, what they count and what the check reports. */
module ClientRuns {
  import opened Words
  import opened Lcg
  import opened TxData
  import opened EchoMessage
  import opened EchoConnection
  import opened HealthMonitor

  /** One pass of the client's outer loop, with the number of health checks made before it and while it is
      under way. */
  datatype Attempt = Attempt(env: Environment, before: nat, during: nat)

  function WithChecks(events: seq<Event>, n: nat): seq<Event> {
    if n == 0 then events else WithChecks(events, n - 1) + [Checked]
  }

  function WithConnection(events: seq<Event>, o: Outcome): seq<Event> {
    if o == NotConnected then events else events + [Connected]
  }

  function WithCycle(events: seq<Event>, o: Outcome): seq<Event> {
    if o == Cycle then events + [Cycled] else events
  }

  /** What the health monitor has seen after one more pass: the client counts a connection at once and a
      cycle at its end. */
  function WithPass(events: seq<Event>, a: Attempt, o: Outcome): seq<Event> {
    WithCycle(WithChecks(WithConnection(WithChecks(events, a.before), o), a.during), o)
  }

  function Plus(w: Word, n: nat): Word {
    (w + n) % TWO_32
  }

  lemma PlusAgain(w: Word, m: nat, n: nat)
    ensures Plus(Plus(w, m), n) == Plus(w, m + n)
  {
    ModAddMultiple((w + m) % TWO_32 + n, TWO_32, (w + m) / TWO_32);
  }

  lemma PlusNone(w: Word)
    ensures Plus(w, 0) == w
  {
    SmallMod(w, TWO_32);
  }

  /** Where a run stands: generator state, next message number, and what happened so far. */
  datatype Point = Point(seed: Word, number: Word, outcomes: seq<Outcome>, events: seq<Event>)

  /** The outcome of a pass that starts at a generator state and a message number. */
  ghost function OutcomeOf(env: Environment, seed: Word, number: Word): Outcome {
    Judge(env, Message(Length(Draws(seed, env.otherDraws), BUFFER_SIZE), number))
  }

  ghost function SeedAfter(env: Environment, seed: Word): Word {
    var s := Draws(seed, env.otherDraws);
    if env.connectResult != 0 then s else StateAfter(s, BUFFER_SIZE)
  }

  ghost function Next(p: Point, a: Attempt): Point {
    var o := OutcomeOf(a.env, p.seed, p.number);
    Point(SeedAfter(a.env, p.seed),
          if o == NotConnected then p.number else Plus(p.number, 1),
          p.outcomes + [o],
          WithPass(p.events, a, o))
  }

  ghost function Play(p: Point, attempts: seq<Attempt>): Point
    decreases |attempts|
  {
    if attempts == [] then p else Next(Play(p, attempts[..|attempts| - 1]), attempts[|attempts| - 1])
  }

  lemma PlaySnoc(p: Point, attempts: seq<Attempt>, a: Attempt)
    ensures Play(p, attempts + [a]) == Next(Play(p, attempts), a)
  {
    assert (attempts + [a])[..|attempts|] == attempts;
  }

  lemma PlayNext(p: Point, attempts: seq<Attempt>, n: nat)
    requires n < |attempts|
    ensures Play(p, attempts[..n + 1]) == Next(Play(p, attempts[..n]), attempts[n])
  {
    assert attempts[..n] + [attempts[n]] == attempts[..n + 1];
    PlaySnoc(p, attempts[..n], attempts[n]);
  }

  function Start(seed: Word, number: Word): Point {
    Point(seed, number, [], [])
  }

  /** Each attempt has its outcome, and the connections made carry consecutive message numbers. */
  lemma {:induction false} NumbersConsecutive(seed: Word, number: Word, attempts: seq<Attempt>)
    ensures
      var p := Play(Start(seed, number), attempts);
      |p.outcomes| == |attempts| && p.number == Plus(number, Connections(p.outcomes))
    decreases |attempts|
  {
    if attempts == [] {
      PlusNone(number);
    } else {
      NumbersConsecutive(seed, number, attempts[..|attempts| - 1]);
      NumberNext(Play(Start(seed, number), attempts[..|attempts| - 1]), number, attempts[|attempts| - 1]);
    }
  }

  lemma NumberNext(p: Point, number: Word, a: Attempt)
    requires p.number == Plus(number, Connections(p.outcomes))
    ensures |Next(p, a).outcomes| == |p.outcomes| + 1
    ensures Next(p, a).number == Plus(number, Connections(Next(p, a).outcomes))
  {
    var o := OutcomeOf(a.env, p.seed, p.number);
    OutcomeSnoc(p.outcomes, o);
    ConnectionsOfOne(o);
    PlusAgain(number, Connections(p.outcomes), 1);
  }

  lemma ConnectionsOfOne(o: Outcome)
    ensures Connections([o]) == if o == NotConnected then 0 else 1
  {
    assert [o][..0] == [];
  }

  /** A pass advances the generator by what others draw and, if it connects, by the draws up to the first that
      is accepted for a length. */
  lemma GeneratorAdvances(p: Point, a: Attempt)
    ensures
      var others := Draws(p.seed, a.env.otherDraws);
      var own := if a.env.connectResult == 0 then FirstAccepted(others, 1460) else 0;
      Next(p, a).seed == Draws(p.seed, a.env.otherDraws + own)
  {
    var others := Draws(p.seed, a.env.otherDraws);
    if a.env.connectResult == 0 {
      DrawsAdd(p.seed, a.env.otherDraws, FirstAccepted(others, 1460));
    }
  }

  /** A pass that connects sends a message of 60 to 1439 characters, and each of these lengths is sent from
      some generator state. */
  lemma MessageLengths(len: nat)
    ensures (exists seed: Word :: Length(seed, BUFFER_SIZE) == len) <==> 60 <= len <= 1439
  {
    LengthsChosenExactly(BUFFER_SIZE, len);
  }

  // ----- What a run counts -----

  lemma {:induction false} ChecksKeepCycles(events: seq<Event>, n: nat)
    ensures Run(START, WithChecks(events, n)).cycles == Run(START, events).cycles
  {
    if n == 0 {
    } else {
      ChecksKeepCycles(events, n - 1);
      RunSnoc(START, WithChecks(events, n - 1), Checked);
    }
  }

  /** A pass counts at most one cycle, and no number of checks disturbs the count. */
  lemma PassCyclesOnce(events: seq<Event>, a: Attempt, o: Outcome)
    ensures Run(START, WithPass(events, a, o)).cycles
         == if o == Cycle then Increment(Run(START, events).cycles) else Run(START, events).cycles
  {
    var checked := WithChecks(events, a.before);
    var connected := WithConnection(checked, o);
    ChecksKeepCycles(events, a.before);
    RunSnoc(START, checked, Connected);
    ChecksKeepCycles(connected, a.during);
    RunSnoc(START, WithChecks(connected, a.during), Cycled);
  }

  lemma CycleCounted(events: seq<Event>, outcomes: seq<Outcome>, a: Attempt, o: Outcome)
    requires Run(START, events).cycles == Plus(0, Tally(outcomes, Cycle))
    ensures Run(START, WithPass(events, a, o)).cycles == Plus(0, Tally(outcomes + [o], Cycle))
  {
    PassCyclesOnce(events, a, o);
    CountedNext(0, outcomes, o, Cycle);
  }

  /** A counter that holds a tally modulo 2^32 does so after one more outcome. */
  lemma CountedNext(start: Word, outcomes: seq<Outcome>, o: Outcome, what: Outcome)
    ensures Plus(start, Tally(outcomes + [o], what))
         == if o == what then Plus(Plus(start, Tally(outcomes, what)), 1) else Plus(start, Tally(outcomes, what))
  {
    TallySnoc(outcomes, o, what);
    PlusAgain(start, Tally(outcomes, what), 1);
  }

  /** The cycle counter holds the number of cycles modulo 2^32, however many checks there were. */
  lemma {:induction false} CyclesCounted(seed: Word, number: Word, attempts: seq<Attempt>)
    ensures
      var p := Play(Start(seed, number), attempts);
      Run(START, p.events).cycles == Plus(0, Tally(p.outcomes, Cycle))
    decreases |attempts|
  {
    if attempts == [] {
      PlusNone(0);
    } else {
      CyclesCounted(seed, number, attempts[..|attempts| - 1]);
      var p, a := Play(Start(seed, number), attempts[..|attempts| - 1]), attempts[|attempts| - 1];
      CycleCounted(p.events, p.outcomes, a, OutcomeOf(a.env, p.seed, p.number));
    }
  }

  lemma TallySnoc(outcomes: seq<Outcome>, o: Outcome, what: Outcome)
    ensures Tally(outcomes + [o], what) == Tally(outcomes, what) + if o == what then 1 else 0
  {
    assert (outcomes + [o])[..|outcomes|] == outcomes;
  }

  lemma UncheckedPass(events: seq<Event>, a: Attempt, o: Outcome)
    requires a.before == 0 && a.during == 0
    ensures Since(WithPass(events, a, o), Connected) == Since(events, Connected) + if o == NotConnected then 0 else 1
  {
    SinceSnoc(events, Connected, Connected);
    SinceSnoc(WithConnection(events, o), Cycled, Connected);
  }

  ghost predicate Unchecked(attempts: seq<Attempt>) {
    forall i: nat :: i < |attempts| ==> attempts[i].before == 0 && attempts[i].during == 0
  }

  lemma UncheckedPlay(p: Point, a: Attempt)
    requires a.before == 0 && a.during == 0
    requires Since(p.events, Connected) == Connections(p.outcomes)
    ensures Since(Next(p, a).events, Connected) == Connections(Next(p, a).outcomes)
  {
    var o := OutcomeOf(a.env, p.seed, p.number);
    UncheckedPass(p.events, a, o);
    OutcomeSnoc(p.outcomes, o);
    ConnectionsOfOne(o);
  }

  lemma {:induction false} UncheckedSince(seed: Word, number: Word, attempts: seq<Attempt>)
    requires Unchecked(attempts)
    ensures Since(Play(Start(seed, number), attempts).events, Connected)
         == Connections(Play(Start(seed, number), attempts).outcomes)
    decreases |attempts|
  {
    if attempts == [] {
    } else {
      var before, a := attempts[..|attempts| - 1], attempts[|attempts| - 1];
      UncheckedSince(seed, number, before);
      UncheckedPlay(Play(Start(seed, number), before), a);
    }
  }

  /** A pass that did not connect, or could not send, counts no cycle. */
  lemma {:induction false} FailedSendsCountNothing(seed: Word, number: Word, attempts: seq<Attempt>)
    requires forall i: nat :: i < |attempts| ==> attempts[i].env.connectResult != 0 || attempts[i].env.sendResult < 0
    ensures
      var p := Play(Start(seed, number), attempts);
      && Tally(p.outcomes, Cycle) == 0 && Tally(p.outcomes, Mismatch) == 0
      && Since(p.events, Cycled) == 0 && Run(START, p.events).cycles == 0 && !Passes(Run(START, p.events))
    decreases |attempts|
  {
    var p := Play(Start(seed, number), attempts);
    if attempts == [] {
    } else {
      var before, a := attempts[..|attempts| - 1], attempts[|attempts| - 1];
      FailedSendsCountNothing(seed, number, before);
      FailedSendNext(Play(Start(seed, number), before), a);
    }
    PassesExactly(p.events);
  }

  lemma FailedSendNext(p: Point, a: Attempt)
    requires a.env.connectResult != 0 || a.env.sendResult < 0
    requires Tally(p.outcomes, Cycle) == 0 && Tally(p.outcomes, Mismatch) == 0
    requires Since(p.events, Cycled) == 0 && Run(START, p.events).cycles == 0
    ensures Tally(Next(p, a).outcomes, Cycle) == 0 && Tally(Next(p, a).outcomes, Mismatch) == 0
    ensures Since(Next(p, a).events, Cycled) == 0 && Run(START, Next(p, a).events).cycles == 0
  {
    var message := Message(Length(Draws(p.seed, a.env.otherDraws), BUFFER_SIZE), p.number);
    var o := Judge(a.env, message);
    OutcomeExactly(a.env, message);
    TallySnoc(p.outcomes, o, Cycle);
    TallySnoc(p.outcomes, o, Mismatch);
    PassCyclesOnce(p.events, a, o);
    NoCycleNoEvent(p.events, a, o);
  }

  lemma NoCycleNoEvent(events: seq<Event>, a: Attempt, o: Outcome)
    requires o != Cycle && Since(events, Cycled) == 0
    ensures Since(WithPass(events, a, o), Cycled) == 0
  {
    var checked := WithChecks(events, a.before);
    SinceChecks(events, a.before, Cycled);
    SinceSnoc(checked, Connected, Cycled);
    SinceChecks(WithConnection(checked, o), a.during, Cycled);
  }

  /** As long as nobody checks, the connection counter is the number of the next message. */
  lemma UncheckedConnections(seed: Word, attempts: seq<Attempt>)
    requires Unchecked(attempts)
    ensures Run(START, Play(Start(seed, 0), attempts).events).connections == Play(Start(seed, 0), attempts).number
  {
    NumbersConsecutive(seed, 0, attempts);
    UncheckedSince(seed, 0, attempts);
    CountersMeasureSinceCheck(Play(Start(seed, 0), attempts).events);
  }

  /** The books of a run that started from cleared counters, before they wrap: of the connections, which are
      the messages numbered, each is counted as a cycle or as a mismatch, or had a send error, a receive error
      or no reply. */
  lemma CountersBalance(seed: Word, attempts: seq<Attempt>)
    ensures
      var p := Play(Start(seed, 0), attempts);
      var cycles, failures := Run(START, p.events).cycles, Plus(0, Tally(p.outcomes, Mismatch));
      Connections(p.outcomes) < TWO_32 ==>
      && cycles + failures <= p.number
      && p.number - cycles - failures
      == Tally(p.outcomes, SendError) + Tally(p.outcomes, ReceiveError) + Tally(p.outcomes, NoReply)
  {
    var outcomes := Play(Start(seed, 0), attempts).outcomes;
    NumbersConsecutive(seed, 0, attempts);
    CyclesCounted(seed, 0, attempts);
    ConnectionsSplit(outcomes);
    if Connections(outcomes) < TWO_32 {
      SmallMod(Connections(outcomes), TWO_32);
      SmallMod(Tally(outcomes, Cycle), TWO_32);
      SmallMod(Tally(outcomes, Mismatch), TWO_32);
    }
  }

  // ----- Progress that the check does not see -----

  /** A peer that echoes the one byte the send took, and one that stays silent. */
  const SHORT_ECHO: Attempt := Attempt(Environment(0, 1, [Data("T")], 0), 0, 0)
  const SILENCE: Attempt := Attempt(Environment(0, 1, [], 0), 0, 0)

  lemma ShortOutcomes(seed: Word, number: Word)
    ensures OutcomeOf(SHORT_ECHO.env, seed, number) == Cycle
    ensures OutcomeOf(SILENCE.env, seed, number) == NoReply
  {
    var len := Length(Draws(seed, 0), BUFFER_SIZE);
    HeaderLength(number);
    MessageClosedForm(len, number, 0);
    assert Arrived(SHORT_ECHO.env.receives) == "T" by {
      assert [Data("T")][1..] == [];
    }
    assert GREETING[0] == 'T';
    assert Message(len, number)[..1] == "T";
    EchoPeerVerdict(SHORT_ECHO.env, len, number);
    EchoPeerVerdict(SILENCE.env, len, number);
  }

  function ShortEchoes(n: nat): (attempts: seq<Attempt>)
    ensures |attempts| == n
  {
    seq(n, _ => SHORT_ECHO)
  }

  lemma ShortNext(p: Point)
    ensures Next(p, SHORT_ECHO).events == p.events + [Connected] + [Cycled]
    ensures Next(p, SILENCE).events == p.events + [Connected]
  {
    ShortOutcomes(p.seed, p.number);
  }

  lemma ShortPlay(p: Point, n: nat)
    ensures Play(p, ShortEchoes(n + 1)).events == Play(p, ShortEchoes(n)).events + [Connected] + [Cycled]
  {
    assert ShortEchoes(n + 1) == ShortEchoes(n) + [SHORT_ECHO];
    PlaySnoc(p, ShortEchoes(n), SHORT_ECHO);
    ShortNext(Play(p, ShortEchoes(n)));
  }

  lemma SinceTwo(events: seq<Event>)
    ensures Since(events + [Connected] + [Cycled], Cycled) == Since(events, Cycled) + 1
    ensures Since(events + [Connected] + [Cycled], Connected) == Since(events, Connected) + 1
  {
    SinceSnoc(events, Connected, Cycled);
    SinceSnoc(events, Connected, Connected);
    SinceSnoc(events + [Connected], Cycled, Cycled);
    SinceSnoc(events + [Connected], Cycled, Connected);
  }

  lemma {:induction false} ShortRun(seed: Word, n: nat)
    ensures Since(Play(Start(seed, 0), ShortEchoes(n)).events, Cycled) == n
    ensures Since(Play(Start(seed, 0), ShortEchoes(n)).events, Connected) == n
  {
    if n == 0 {
    } else {
      ShortRun(seed, n - 1);
      ShortPlay(Start(seed, 0), n - 1);
      SinceTwo(Play(Start(seed, 0), ShortEchoes(n - 1)).events);
    }
  }

  /** 2^32 connections that each count a cycle, then one without a reply: from every seed the check reports
      that the client has stopped, although the connection counter has moved on as well. */
  lemma WrappedProgressFails(seed: Word)
    ensures
      var events := Play(Start(seed, 0), ShortEchoes(TWO_32) + [SILENCE]).events;
      && Since(events, Cycled) == TWO_32 && Since(events, Connected) == TWO_32 + 1
      && Run(START, events).connections == 1 && !Passes(Run(START, events))
  {
    var p := Play(Start(seed, 0), ShortEchoes(TWO_32));
    ShortRun(seed, TWO_32);
    PlaySnoc(Start(seed, 0), ShortEchoes(TWO_32), SILENCE);
    ShortNext(p);
    WrappedCounts(p.events);
  }

  lemma WrappedCounts(events: seq<Event>)
    requires Since(events, Cycled) == TWO_32 && Since(events, Connected) == TWO_32
    ensures
      var longer := events + [Connected];
      && Since(longer, Cycled) == TWO_32 && Since(longer, Connected) == TWO_32 + 1
      && Run(START, longer).connections == 1 && !Passes(Run(START, longer))
  {
    SinceSnoc(events, Connected, Cycled);
    SinceSnoc(events, Connected, Connected);
    PassesExactly(events + [Connected]);
    CountersMeasureSinceCheck(events + [Connected]);
  }

  /** One short echo with a check while it is under way: the check takes note of the connection, so that the
      next one finds a cycle without a connection.  From every seed that one reports that the client has
      stopped, long before a counter wraps. */
  lemma CheckedMeanwhileFails(seed: Word)
    ensures
      var p := Play(Start(seed, 0), [SHORT_ECHO.(during := 1)]);
      && p.outcomes == [Cycle] && p.events == [Connected, Checked, Cycled]
      && Since(p.events, Cycled) == 1 && Since(p.events, Connected) == 0
      && !Passes(Run(START, p.events)) && !AsDocumented(p.events)
  {
    var a := SHORT_ECHO.(during := 1);
    assert [a][..0] == [];
    assert Play(Start(seed, 0), [a]) == Next(Start(seed, 0), a);
    ShortOutcomes(seed, 0);
    CheckedMeanwhile(a);
  }

  lemma CheckedMeanwhile(a: Attempt)
    requires a.before == 0 && a.during == 1
    ensures WithPass([], a, Cycle) == [Connected, Checked, Cycled]
    ensures Since([Connected, Checked, Cycled], Cycled) == 1 && Since([Connected, Checked, Cycled], Connected) == 0
    ensures !Passes(Run(START, [Connected, Checked, Cycled])) && !AsDocumented([Connected, Checked, Cycled])
  {
    var none: seq<Event> := [];
    var checked := [Connected] + [Checked];
    assert none + [Connected] == [Connected];
    assert WithChecks(WithConnection(WithChecks(none, 0), Cycle), 1) == checked;
    assert checked + [Cycled] == [Connected, Checked, Cycled];
    SinceSnoc(checked, Cycled, Cycled);
    SinceSnoc([Connected], Checked, Cycled);
    SinceSnoc(checked, Cycled, Connected);
    SinceSnoc([Connected], Checked, Connected);
    PassesExactly([Connected, Checked, Cycled]);
  }

  // ----- Checks between passes only -----

  lemma {:induction false} SinceChecks(events: seq<Event>, n: nat, what: Event)
    requires what != Checked
    ensures Since(WithChecks(events, n), what) == if n == 0 then Since(events, what) else 0
  {
    if n == 0 {
    } else {
      SinceChecks(events, n - 1, what);
      SinceSnoc(WithChecks(events, n - 1), Checked, what);
    }
  }

  lemma PassConnectsFirst(events: seq<Event>, a: Attempt, o: Outcome)
    requires a.during == 0 && Since(events, Cycled) <= Since(events, Connected)
    ensures Since(WithPass(events, a, o), Cycled) <= Since(WithPass(events, a, o), Connected)
  {
    var checked := WithChecks(events, a.before);
    SinceChecks(events, a.before, Cycled);
    SinceChecks(events, a.before, Connected);
    SinceSnoc(checked, Connected, Cycled);
    SinceSnoc(checked, Connected, Connected);
    SinceSnoc(checked + [Connected], Cycled, Cycled);
    SinceSnoc(checked + [Connected], Cycled, Connected);
  }

  lemma {:induction false} ConnectsFirst(seed: Word, number: Word, attempts: seq<Attempt>)
    requires forall i: nat :: i < |attempts| ==> attempts[i].during == 0
    ensures
      var events := Play(Start(seed, number), attempts).events;
      Since(events, Cycled) <= Since(events, Connected)
    decreases |attempts|
  {
    if attempts == [] {
    } else {
      var before, a := attempts[..|attempts| - 1], attempts[|attempts| - 1];
      var p := Play(Start(seed, number), before);
      ConnectsFirst(seed, number, before);
      PassConnectsFirst(p.events, a, OutcomeOf(a.env, p.seed, p.number));
    }
  }

  /** When checks come between passes only, and fewer than 2^32 connections apart, they report what they are
      documented to report. */
  lemma ChecksBetweenPassesAsDocumented(seed: Word, number: Word, attempts: seq<Attempt>)
    requires forall i: nat :: i < |attempts| ==> attempts[i].during == 0
    ensures
      var events := Play(Start(seed, number), attempts).events;
      Since(events, Connected) < TWO_32 ==> AsDocumented(events)
  {
    var events := Play(Start(seed, number), attempts).events;
    ConnectsFirst(seed, number, attempts);
    if Since(events, Connected) < TWO_32 {
      PassesMeansProgress(events);
    }
  }
}
