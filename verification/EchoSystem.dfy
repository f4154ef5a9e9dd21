/** The echo server of app/demos/demo_echo_server.c and the client of linux/tcp_client.c joined by two
    FIFO byte streams (the service of RFC 862), as a step system in which every transfer size is free. */
module EchoSystem {
  import opened Transfers
  import opened EchoCalls

  /** The first and last three fields are histories; the others are the bytes under way. */
  datatype State = State(
    typed: string, sent: string, toServer: string,
    held: string,
    consumed: string, echoed: string, toClient: string, got: string,
    serving: bool)

  const INITIAL := State("", "", "", "", "", "", "", "", true)

  datatype Step =
    | ClientSend(line: string, accepted: nat)
    | ServerRecv(n: nat)
    | ServerSend(accepted: nat)
    | ClientRecv(n: nat)
    | ServerStop

  predicate Enabled(s: State, step: Step) {
    match step
    case ClientSend(line, accepted) => 1 <= |line| <= CLIENT_CHUNK && accepted <= |line|
    case ServerRecv(n) => s.serving && s.held == "" && 1 <= n <= SERVER_CHUNK && n <= |s.toServer|
    case ServerSend(accepted) => s.serving && s.held != "" && accepted <= |s.held|
    case ClientRecv(n) => 1 <= n <= CLIENT_CHUNK && n <= |s.toClient|
    case ServerStop => s.serving && s.held == ""
  }

  function Apply(s: State, step: Step): State
    requires Enabled(s, step)
  {
    match step
    case ClientSend(line, accepted) =>
      s.(typed := s.typed + line, sent := s.sent + line[..accepted], toServer := s.toServer + line[..accepted])
    case ServerRecv(n) =>
      s.(toServer := s.toServer[n..], held := s.toServer[..n], consumed := s.consumed + s.toServer[..n])
    case ServerSend(accepted) =>
      s.(held := "", echoed := s.echoed + s.held[..accepted], toClient := s.toClient + s.held[..accepted])
    case ClientRecv(n) =>
      s.(toClient := s.toClient[n..], got := s.got + s.toClient[..n])
    case ServerStop => s.(serving := false)
  }

  /** Bytes a step drops because a send took less than it was given. */
  function Dropped(s: State, step: Step): nat
    requires Enabled(s, step)
  {
    match step
    case ClientSend(line, accepted) => |line| - accepted
    case ServerSend(accepted) => |s.held| - accepted
    case _ => 0
  }

  // ----- Runs -----

  predicate Legal(start: State, steps: seq<Step>)
    decreases |steps|, 0
  {
    steps == [] ||
    (Legal(start, steps[..|steps| - 1]) && Enabled(Exec(start, steps[..|steps| - 1]), steps[|steps| - 1]))
  }

  function Exec(start: State, steps: seq<Step>): State
    requires Legal(start, steps)
    decreases |steps|, 1
  {
    if steps == [] then start
    else Apply(Exec(start, steps[..|steps| - 1]), steps[|steps| - 1])
  }

  /** Bytes dropped by the sends of a run, on the client's and the server's side. */
  function Lost(start: State, steps: seq<Step>, server: bool): nat
    requires Legal(start, steps)
    decreases |steps|
  {
    if steps == [] then 0 else
      var before, last := steps[..|steps| - 1], steps[|steps| - 1];
      Lost(start, before, server)
      + if last.ServerSend? == server then Dropped(Exec(start, before), last) else 0
  }

  /** What every step keeps, whatever the sends accept. */
  ghost predicate Invariant(s: State) {
    && s.consumed + s.toServer == s.sent
    && s.got + s.toClient == s.echoed
    && |s.held| <= SERVER_CHUNK && |s.held| <= |s.consumed|
    && s.held == s.consumed[|s.consumed| - |s.held|..]
    && Subsequence(s.echoed, s.consumed[..|s.consumed| - |s.held|])
    && Subsequence(s.sent, s.typed)
  }

  lemma StepKeepsInvariant(s: State, step: Step)
    requires Invariant(s) && Enabled(s, step)
    ensures Invariant(Apply(s, step))
  {
    match step
    case ClientSend(line, accepted) =>
      SubsequencePiece(s.sent, s.typed, line, accepted);
      assert s.consumed + (s.toServer + line[..accepted]) == s.sent + line[..accepted];
    case ServerRecv(n) => ServerRecvKeeps(s, n);
    case ServerSend(accepted) => ServerSendKeeps(s, accepted);
    case ClientRecv(n) =>
      assert s.got + s.toClient[..n] + s.toClient[n..] == s.got + s.toClient;
    case ServerStop =>
  }

  lemma ServerRecvKeeps(s: State, n: nat)
    requires Invariant(s) && Enabled(s, ServerRecv(n))
    ensures Invariant(Apply(s, ServerRecv(n)))
  {
    var t := Apply(s, ServerRecv(n));
    assert t.consumed + t.toServer == s.consumed + s.toServer;
    assert t.consumed[..|t.consumed| - n] == s.consumed == s.consumed[..|s.consumed| - |s.held|];
    assert t.consumed[|t.consumed| - n..] == t.held;
  }

  lemma ServerSendKeeps(s: State, accepted: nat)
    requires Invariant(s) && Enabled(s, ServerSend(accepted))
    ensures Invariant(Apply(s, ServerSend(accepted)))
  {
    var k := |s.consumed| - |s.held|;
    JoinedAt(s.consumed, k);
    SubsequencePiece(s.echoed, s.consumed[..k], s.held, accepted);
    assert s.got + (s.toClient + s.held[..accepted]) == s.got + s.toClient + s.held[..accepted];
  }

  lemma JoinedAt(t: string, k: nat)
    requires k <= |t|
    ensures t[..k] + t[k..] == t && t[..|t|] == t && t[|t|..] == ""
  {
  }

  /** The invariant holds after every run: what the client gets is always, in order, among what it sent. */
  lemma {:induction false} InvariantAlways(steps: seq<Step>)
    requires Legal(INITIAL, steps)
    ensures Invariant(Exec(INITIAL, steps))
    decreases |steps|
  {
    if steps == [] {
    } else {
      var before := steps[..|steps| - 1];
      InvariantAlways(before);
      StepKeepsInvariant(Exec(INITIAL, before), steps[|steps| - 1]);
    }
  }

  /** The books balance: bytes in equal bytes out plus bytes under way plus bytes dropped. */
  lemma {:induction false} LossesBalance(steps: seq<Step>)
    requires Legal(INITIAL, steps)
    ensures
      var s := Exec(INITIAL, steps);
      && |s.typed| == |s.sent| + Lost(INITIAL, steps, false)
      && |s.consumed| == |s.echoed| + |s.held| + Lost(INITIAL, steps, true)
    decreases |steps|
  {
    if steps == [] {
    } else {
      LossesBalance(steps[..|steps| - 1]);
    }
  }

  lemma StepWithoutLoss(s: State, step: Step)
    requires Enabled(s, step)
    ensures s.typed == s.sent && (step.ClientSend? ==> Dropped(s, step) == 0) ==>
      Apply(s, step).typed == Apply(s, step).sent
    ensures s.consumed == s.echoed + s.held && (step.ServerSend? ==> Dropped(s, step) == 0) ==>
      Apply(s, step).consumed == Apply(s, step).echoed + Apply(s, step).held
  {
    match step
    case ClientSend(line, accepted) => assert line[..|line|] == line;
    case ServerSend(accepted) => assert s.held[..|s.held|] == s.held;
    case _ =>
  }

  lemma {:induction false} NoLossNoChange(steps: seq<Step>)
    requires Legal(INITIAL, steps)
    ensures Lost(INITIAL, steps, false) == 0 ==> Exec(INITIAL, steps).typed == Exec(INITIAL, steps).sent
    ensures Lost(INITIAL, steps, true) == 0 ==>
      Exec(INITIAL, steps).consumed == Exec(INITIAL, steps).echoed + Exec(INITIAL, steps).held
    decreases |steps|
  {
    if steps == [] {
    } else {
      var before := steps[..|steps| - 1];
      NoLossNoChange(before);
      StepWithoutLoss(Exec(INITIAL, before), steps[|steps| - 1]);
    }
  }

  /** Echo conservation, in every reachable state: the bytes the client has got, those under way back to it,
      the server's unsent chunk and those under way to the server are together exactly the bytes the client
      sent, if and only if no send of the server took less than its chunk. */
  lemma ConservationExactly(steps: seq<Step>)
    requires Legal(INITIAL, steps)
    ensures
      var s := Exec(INITIAL, steps);
      s.got + s.toClient + s.held + s.toServer == s.sent <==> Lost(INITIAL, steps, true) == 0
  {
    var s := Exec(INITIAL, steps);
    InvariantAlways(steps);
    LossesBalance(steps);
    NoLossNoChange(steps);
    assert |s.got + s.toClient + s.held + s.toServer| == |s.echoed| + |s.held| + |s.toServer|;
    assert |s.sent| == |s.consumed| + |s.toServer|;
  }

  // ----- Progress -----

  /** A byte weighs three before the server has it, two while it holds it, one on the way back. */
  function Weight(s: State): nat {
    3 * |s.toServer| + 2 * |s.held| + |s.toClient|
  }

  /** Steps other than new input and the server giving up. */
  predicate Internal(step: Step) {
    step.ServerRecv? || step.ServerSend? || step.ClientRecv?
  }

  /** From any state, internal steps use up weight: there can be no more of them than the weight. */
  lemma {:induction false} InternalStepsBounded(s: State, steps: seq<Step>)
    requires Legal(s, steps)
    requires forall i: nat :: i < |steps| ==> Internal(steps[i])
    ensures |steps| + Weight(Exec(s, steps)) <= Weight(s)
    ensures Exec(s, steps).serving == s.serving
    decreases |steps|
  {
    if steps == [] {
    } else {
      InternalStepsBounded(s, steps[..|steps| - 1]);
      assert Internal(steps[|steps| - 1]);
    }
  }

  /** While the server is serving, some internal step is possible exactly as long as bytes are under way. */
  lemma NotStuck(s: State)
    requires s.serving
    ensures (exists step :: Internal(step) && Enabled(s, step)) <==> Weight(s) > 0
  {
    if s.toClient != "" {
      assert Internal(ClientRecv(1)) && Enabled(s, ClientRecv(1));
    } else if s.held != "" {
      assert Internal(ServerSend(0)) && Enabled(s, ServerSend(0));
    } else if s.toServer != "" {
      assert Internal(ServerRecv(1)) && Enabled(s, ServerRecv(1));
    }
  }

  /** At quiescence the client has received exactly what was typed, if and only if no send was short. */
  lemma QuiescentDelivery(steps: seq<Step>)
    requires Legal(INITIAL, steps) && Exec(INITIAL, steps).serving
    requires forall step :: Internal(step) ==> !Enabled(Exec(INITIAL, steps), step)
    ensures Exec(INITIAL, steps).got == Exec(INITIAL, steps).sent <==> Lost(INITIAL, steps, true) == 0
    ensures Exec(INITIAL, steps).got == Exec(INITIAL, steps).typed
       <==> Lost(INITIAL, steps, true) + Lost(INITIAL, steps, false) == 0
    ensures Subsequence(Exec(INITIAL, steps).got, Exec(INITIAL, steps).sent)
  {
    var s := Exec(INITIAL, steps);
    NotStuck(s);
    InvariantAlways(steps);
    LossesBalance(steps);
    NoLossNoChange(steps);
    ConservationExactly(steps);
    assert s.got + s.toClient + s.held + s.toServer == s.got;
    assert s.got == s.echoed && s.sent == s.consumed;
    assert s.consumed[..|s.consumed|] == s.consumed;
  }

  // ----- Quiescence is reached -----

  lemma OneMoreStep(s: State, steps: seq<Step>, step: Step)
    requires Legal(s, steps) && Enabled(Exec(s, steps), step)
    ensures Legal(s, steps + [step]) && Exec(s, steps + [step]) == Apply(Exec(s, steps), step)
  {
    var longer := steps + [step];
    assert longer[..|longer| - 1] == steps;
  }

  lemma {:induction false} RunsCompose(s: State, a: seq<Step>, b: seq<Step>)
    requires Legal(s, a) && Legal(Exec(s, a), b)
    ensures Legal(s, a + b) && Exec(s, a + b) == Exec(Exec(s, a), b)
    ensures Lost(s, a + b, true) == Lost(s, a, true) + Lost(Exec(s, a), b, true)
    decreases |b|
  {
    if b == [] {
      assert a + b == a;
    } else {
      RunsCompose(s, a, b[..|b| - 1]);
      assert (a + b)[..|a + b| - 1] == a + b[..|b| - 1];
    }
  }

  /** The next internal step that loses nothing. */
  function NextStep(s: State): (step: Step)
    requires s.serving && Weight(s) > 0
    ensures Internal(step) && Enabled(s, step) && Dropped(s, step) == 0
  {
    if s.toClient != "" then ClientRecv(1)
    else if s.held != "" then ServerSend(|s.held|)
    else ServerRecv(1)
  }

  lemma {:induction false} Drains(s: State) returns (steps: seq<Step>)
    requires s.serving
    ensures Legal(s, steps) && Lost(s, steps, true) == 0
    ensures Weight(Exec(s, steps)) == 0 && Exec(s, steps).serving && Exec(s, steps).sent == s.sent
    ensures forall i: nat :: i < |steps| ==> Internal(steps[i])
    decreases Weight(s)
  {
    if Weight(s) == 0 {
      steps := [];
    } else {
      var step := NextStep(s);
      OneMoreStep(s, [], step);
      assert [] + [step] == [step] && [step][..0] == [];
      var rest := Drains(Apply(s, step));
      RunsCompose(s, [step], rest);
      steps := [step] + rest;
    }
  }

  /** Every run in which the server lost nothing can be completed, without new input, to one in which the
      client has received exactly what it sent. */
  lemma EchoCompletes(steps: seq<Step>) returns (more: seq<Step>)
    requires Legal(INITIAL, steps) && Exec(INITIAL, steps).serving && Lost(INITIAL, steps, true) == 0
    ensures Legal(INITIAL, steps + more)
    ensures forall i: nat :: i < |more| ==> Internal(more[i])
    ensures Exec(INITIAL, steps + more).got == Exec(INITIAL, steps + more).sent == Exec(INITIAL, steps).sent
  {
    more := Drains(Exec(INITIAL, steps));
    RunsCompose(INITIAL, steps, more);
    NotStuck(Exec(INITIAL, steps + more));
    QuiescentDelivery(steps + more);
  }
}
