/** The server loop of app/demos/demo_echo_server.c and the client loop of linux/tcp_client.c run together:
    every interleaving of their socket calls over FIFO streams is a run of the echo system. */
module EchoPair {
  import opened Transfers
  import opened EchoCalls
  import opened EchoSystem
  import Server = EchoServer
  import Client = LinuxClient

  // ----- Calls as steps -----

  function StepOf(call: Call): Step {
    match call
    case ClientGot(bytes) => ClientRecv(|bytes|)
    case ClientSent(line, accepted) => ClientSend(line, |accepted|)
    case ServerGot(bytes) => ServerRecv(|bytes|)
    case ServerSent(_, accepted) => ServerSend(|accepted|)
    case ServerStopped => ServerStop
  }

  function Steps(calls: seq<Call>): (steps: seq<Step>)
    ensures |steps| == |calls|
  {
    seq(|calls|, i requires 0 <= i < |calls| => StepOf(calls[i]))
  }

  /** What is received was in the stream before or has been sent since. */
  predicate CanMove(s: State, p: Pieces) {
    p.consumed <= s.toServer + p.sent && p.got <= s.toClient + p.echoed
  }

  function Move(s: State, p: Pieces, held: string, serving: bool): State
    requires CanMove(s, p)
  {
    State(s.typed + p.typed, s.sent + p.sent, (s.toServer + p.sent)[|p.consumed|..], held,
          s.consumed + p.consumed, s.echoed + p.echoed, (s.toClient + p.echoed)[|p.got|..], s.got + p.got, serving)
  }

  /** Receives bring what the other end's sends put into the stream, in order and not before. */
  ghost predicate Fifo(s: State, calls: seq<Call>)
    decreases |calls|
  {
    CanMove(s, Total(calls)) && (calls == [] || Fifo(s, calls[..|calls| - 1]))
  }

  /** The state that calls lead to, read off the bytes they moved. */
  ghost function Moved(s: State, calls: seq<Call>): State
    requires Fifo(s, calls)
  {
    Move(s, Total(calls), Pending(calls), !Stopped(calls))
  }

  /** Taking `a`, then `b` off a stream that meanwhile grows by `grown` and `more`. */
  lemma StreamMoves(stream: string, grown: string, a: string, b: string, more: string)
    requires a <= stream + grown && a + b <= stream + (grown + more)
    requires b == "" || more == ""
    ensures b <= (stream + grown)[|a|..] + more
    ensures ((stream + grown)[|a|..] + more)[|b|..] == (stream + (grown + more))[|a + b|..]
  {
    var before, after := stream + grown, stream + (grown + more);
    assert after == before + more;
    assert after[|a|..] == before[|a|..] + more;
    assert after[|a|..][..|b|] == (a + b)[|a|..] == b;
  }

  lemma MoveTwice(s: State, p: Pieces, held: string, serving: bool, q: Pieces, held': string, serving': bool)
    requires CanMove(s, p) && CanMove(s, Plus(p, q))
    requires (q.consumed == "" || q.sent == "") && (q.got == "" || q.echoed == "")
    ensures CanMove(Move(s, p, held, serving), q)
    ensures Move(Move(s, p, held, serving), q, held', serving') == Move(s, Plus(p, q), held', serving')
  {
    StreamMoves(s.toServer, p.sent, p.consumed, q.consumed, q.sent);
    StreamMoves(s.toClient, p.echoed, p.got, q.got, q.echoed);
    PiecesJoin(s, p, q);
  }

  lemma PiecesJoin(s: State, p: Pieces, q: Pieces)
    ensures s.typed + p.typed + q.typed == s.typed + (p.typed + q.typed)
    ensures s.sent + p.sent + q.sent == s.sent + (p.sent + q.sent)
    ensures s.consumed + p.consumed + q.consumed == s.consumed + (p.consumed + q.consumed)
    ensures s.echoed + p.echoed + q.echoed == s.echoed + (p.echoed + q.echoed)
    ensures s.got + p.got + q.got == s.got + (p.got + q.got)
  {
  }

  function HeldAfter(held: string, call: Call): string {
    match call
    case ServerGot(bytes) => bytes
    case ServerSent(_, _) => ""
    case _ => held
  }

  /** One call in one state is one step. */
  lemma CallIsStep(s: State, call: Call)
    requires ProperNext(s.held, !s.serving, call) && CanMove(s, PiecesOf(call))
    ensures Enabled(s, StepOf(call))
    ensures Apply(s, StepOf(call))
         == Move(s, PiecesOf(call), HeldAfter(s.held, call), s.serving && !call.ServerStopped?)
  {
    assert forall t: string :: t + "" == t && t[0..] == t;
    match call
    case ClientSent(line, accepted) => assert line[..|accepted|] == accepted;
    case ServerSent(chunk, accepted) => assert chunk[..|accepted|] == accepted;
    case ServerGot(bytes) => assert s.toServer == s.toServer + "" && s.toServer[..|bytes|] == bytes;
    case ClientGot(bytes) => assert s.toClient == s.toClient + "" && s.toClient[..|bytes|] == bytes;
    case ServerStopped =>
  }

  /** From any state in which the server is about to receive: every interleaving of proper calls over FIFO
      streams is a run, and it leads to the state that the bytes moved say. */
  lemma {:induction false} CallsAreRun(s: State, calls: seq<Call>)
    requires s.serving && s.held == ""
    requires Proper(calls) && Fifo(s, calls)
    ensures Legal(s, Steps(calls)) && Exec(s, Steps(calls)) == Moved(s, calls)
    decreases |calls|
  {
    if calls == [] {
      NothingMoved(s);
    } else {
      var before, call := calls[..|calls| - 1], calls[|calls| - 1];
      assert before + [call] == calls;
      CallsAreRun(s, before);
      TotalSnoc(before, call);
      MoveTwice(s, Total(before), Pending(before), !Stopped(before), PiecesOf(call), Pending(calls), !Stopped(calls));
      CallIsStep(Moved(s, before), call);
      OneMoreStep(s, Steps(before), StepOf(call));
      assert Steps(before) + [StepOf(call)] == Steps(calls);
    }
  }

  lemma NothingMoved(s: State)
    requires s.held == "" && s.serving
    ensures CanMove(s, Total([])) && Move(s, Total([]), "", true) == s
  {
    assert forall t: string :: t + "" == t && t[0..] == t;
  }

  // ----- The two loops -----

  /** Some interleaving of the socket calls that the two loops make, each perhaps not at its end yet. */
  ghost predicate Schedule(passes: seq<Client.Pass>, turns: seq<Server.Turn>, calls: seq<Call>) {
    && Of(calls, true) <= Client.CallsOf(Client.Made(passes))
    && Of(calls, false) <= Server.LoopCalls(turns)
    && Fifo(INITIAL, calls)
  }

  /** The same with both loops at their end. */
  ghost predicate Finished(passes: seq<Client.Pass>, turns: seq<Server.Turn>, calls: seq<Call>) {
    && Of(calls, true) == Client.CallsOf(Client.Made(passes))
    && Of(calls, false) == Server.LoopCalls(turns)
    && Fifo(INITIAL, calls)
  }

  lemma SchedulesAreProper(passes: seq<Client.Pass>, turns: seq<Server.Turn>, calls: seq<Call>)
    requires Schedule(passes, turns, calls)
    ensures Proper(calls)
    ensures Pending(calls) == Pending(Of(calls, false)) && Stopped(calls) == Stopped(Of(calls, false))
  {
    Client.CallsProper(Client.Made(passes));
    ProperBeginning(Of(calls, true), Client.CallsOf(Client.Made(passes)));
    Server.LoopCallsProper(turns);
    ProperBeginning(Of(calls, false), Server.LoopCalls(turns));
    ProperMerge(calls);
  }

  lemma ProperBeginning(calls: seq<Call>, whole: seq<Call>)
    requires calls <= whole && Proper(whole)
    ensures Proper(calls)
  {
    ProperPrefix(whole, |calls|);
    assert whole[..|calls|] == calls;
  }

  /** Whatever the two loops do, in whatever interleaving, is a run of the echo system. */
  lemma LoopsAreRun(passes: seq<Client.Pass>, turns: seq<Server.Turn>, calls: seq<Call>)
    requires Schedule(passes, turns, calls)
    ensures Legal(INITIAL, Steps(calls)) && Exec(INITIAL, Steps(calls)) == Moved(INITIAL, calls)
  {
    SchedulesAreProper(passes, turns, calls);
    CallsAreRun(INITIAL, calls);
  }

  ghost function StateAfter(passes: seq<Client.Pass>, turns: seq<Server.Turn>, calls: seq<Call>): State
    requires Schedule(passes, turns, calls)
  {
    LoopsAreRun(passes, turns, calls);
    Exec(INITIAL, Steps(calls))
  }

  /** What the client's calls of a whole loop move. */
  ghost function ClientTotal(passes: seq<Client.Pass>): Pieces {
    Total(Client.CallsOf(Client.Made(passes)))
  }

  /** The run of two finished loops shows what each of them was proved to do by itself. */
  lemma FinishedLoops(passes: seq<Client.Pass>, turns: seq<Server.Turn>, calls: seq<Call>)
    requires Finished(passes, turns, calls)
    ensures
      var s := StateAfter(passes, turns, calls);
      && s.typed == ClientTotal(passes).typed && s.sent == ClientTotal(passes).sent && s.got == ClientTotal(passes).got
      && s.consumed == Server.Received(Server.Served(turns)) && s.echoed == Server.Echoed(Server.Served(turns))
      && s.held == "" && s.serving == !Server.Ends(turns)
  {
    LoopsAreRun(passes, turns, calls);
    SchedulesAreProper(passes, turns, calls);
    TotalOfEnd(calls, true);
    Server.LoopCallsMove(turns);
    TotalOfEnd(calls, false);
    Server.LoopCallsProper(turns);
    MovedFromInitial(calls);
  }

  lemma MovedFromInitial(calls: seq<Call>)
    requires Fifo(INITIAL, calls)
    ensures
      var s, p := Moved(INITIAL, calls), Total(calls);
      s.typed == p.typed && s.sent == p.sent && s.consumed == p.consumed && s.echoed == p.echoed && s.got == p.got
  {
  }

  ghost predicate EchoedWhole(turns: seq<Server.Turn>) {
    forall i: nat :: i < Server.Passes(turns) ==> turns[i].sendResult >= |Server.Chunk(turns[i])|
  }

  /** Conservation for the two loops: what the client got, what is under way back and what is under way to
      the server are together what the client sent, if and only if no send of the server was short.
      In any case the client got an order-preserving subsequence of what it sent. */
  lemma LoopsConserve(passes: seq<Client.Pass>, turns: seq<Server.Turn>, calls: seq<Call>)
    requires Finished(passes, turns, calls)
    ensures
      var got, sent := ClientTotal(passes).got, ClientTotal(passes).sent;
      var received, echoed := Server.Received(Server.Served(turns)), Server.Echoed(Server.Served(turns));
      && got <= echoed && received <= sent && Subsequence(got, sent)
      && (got + echoed[|got|..] + sent[|received|..] == sent <==> EchoedWhole(turns))
  {
    FinishedLoops(passes, turns, calls);
    LoopsAreRun(passes, turns, calls);
    InvariantAlways(Steps(calls));
    Server.EchoFaithfulExactly(turns);
    BetweenChunks(StateAfter(passes, turns, calls));
  }

  lemma BetweenChunks(s: State)
    requires Invariant(s) && s.held == ""
    ensures s.got <= s.echoed && s.consumed <= s.sent && Subsequence(s.got, s.sent)
    ensures s.got + s.echoed[|s.got|..] + s.sent[|s.consumed|..] == s.sent <==> s.echoed == s.consumed
  {
    assert s.consumed[..|s.consumed|] == s.consumed;
    SubsequencePrefix(s.got, s.echoed, s.consumed);
    SubsequenceAppendRight(s.got, s.consumed, s.toServer);
    assert s.got + s.echoed[|s.got|..] == s.echoed;
    assert s.consumed + s.sent[|s.consumed|..] == s.sent;
    JoinsExactly(s.echoed, s.consumed, s.sent[|s.consumed|..]);
  }

  lemma JoinsExactly(a: string, b: string, tail: string)
    ensures a + tail == b + tail <==> a == b
  {
    if a + tail == b + tail {
      assert |a| == |b|;
      assert a == (a + tail)[..|a|] == (b + tail)[..|b|] == b;
    }
  }

  /** Once nothing is under way the client has got exactly what it sent if and only if no send of the server
      was short, and exactly what was typed if and only if, besides, none of its own was. */
  lemma LoopsDeliver(passes: seq<Client.Pass>, turns: seq<Server.Turn>, calls: seq<Call>)
    requires Finished(passes, turns, calls)
    requires Weight(StateAfter(passes, turns, calls)) == 0
    ensures ClientTotal(passes).got == ClientTotal(passes).sent <==> EchoedWhole(turns)
    ensures ClientTotal(passes).got == ClientTotal(passes).typed
       <==> EchoedWhole(turns) && SentWhole(Client.CallsOf(Client.Made(passes)))
  {
    var s := StateAfter(passes, turns, calls);
    FinishedLoops(passes, turns, calls);
    LoopsAreRun(passes, turns, calls);
    InvariantAlways(Steps(calls));
    Server.EchoFaithfulExactly(turns);
    Client.CallsProper(Client.Made(passes));
    SentWholeExactly(Client.CallsOf(Client.Made(passes)));
    assert s.got == s.echoed && s.sent == s.consumed;
    Server.EchoNoLonger(Server.Served(turns));
  }

  // ----- Every run is one of the two loops -----

  /** The call that makes a step. */
  function CallOf(s: State, step: Step): (call: Call)
    requires Enabled(s, step)
    ensures StepOf(call) == step && ProperNext(s.held, !s.serving, call) && CanMove(s, PiecesOf(call))
  {
    match step
    case ClientSend(line, accepted) => ClientSent(line, line[..accepted])
    case ServerRecv(n) => ServerGot(s.toServer[..n])
    case ServerSend(accepted) => ServerSent(s.held, s.held[..accepted])
    case ClientRecv(n) => ClientGot(s.toClient[..n])
    case ServerStop => ServerStopped
  }

  lemma CanMoveOn(s: State, p: Pieces, held: string, serving: bool, q: Pieces)
    requires CanMove(s, p) && CanMove(Move(s, p, held, serving), q)
    ensures CanMove(s, Plus(p, q))
  {
    StreamGrows(s.toServer + p.sent, p.consumed, q.consumed, q.sent);
    StreamGrows(s.toClient + p.echoed, p.got, q.got, q.echoed);
    assert s.toServer + p.sent + q.sent == s.toServer + (p.sent + q.sent);
    assert s.toClient + p.echoed + q.echoed == s.toClient + (p.echoed + q.echoed);
  }

  lemma StreamGrows(stream: string, a: string, b: string, more: string)
    requires a <= stream && b <= stream[|a|..] + more
    ensures a + b <= stream + more
  {
    assert stream + more == a + (stream[|a|..] + more);
  }

  lemma FifoSnoc(calls: seq<Call>, call: Call)
    requires Fifo(INITIAL, calls) && CanMove(Moved(INITIAL, calls), PiecesOf(call))
    ensures Fifo(INITIAL, calls + [call])
  {
    assert (calls + [call])[..|calls|] == calls;
    CanMoveOn(INITIAL, Total(calls), Pending(calls), !Stopped(calls), PiecesOf(call));
    TotalSnoc(calls, call);
  }

  /** What calls look like from the client's loop: passes, all gone through. */
  ghost predicate ClientExplains(passes: seq<Client.Pass>, calls: seq<Call>) {
    (forall i: nat :: i < |passes| ==> !Client.Stops(passes[i])) && Of(calls, true) == Client.CallsOf(passes)
  }

  /** And from the server's: passes, and perhaps a chunk that it has received and not yet sent, or the receive
      that brought nothing. */
  ghost predicate ServerExplains(turns: seq<Server.Turn>, held: string, serving: bool, calls: seq<Call>) {
    && Server.AllBring(turns) && (serving || held == "")
    && Of(calls, false) == WithRest(Server.CallsOf(turns), held, serving)
  }

  function WithRest(calls: seq<Call>, held: string, serving: bool): seq<Call> {
    if !serving then calls + [ServerStopped] else if |held| > 0 then calls + [ServerGot(held)] else calls
  }

  lemma ExplainedProper(passes: seq<Client.Pass>, turns: seq<Server.Turn>, held: string, serving: bool,
                        calls: seq<Call>)
    requires ClientExplains(passes, calls) && ServerExplains(turns, held, serving, calls) && |held| <= SERVER_CHUNK
    ensures Proper(calls) && Pending(calls) == held && Stopped(calls) == !serving
  {
    Client.CallsProper(passes);
    Server.CallsProper(turns);
    ProperSnoc(Server.CallsOf(turns), ServerGot(held));
    ProperSnoc(Server.CallsOf(turns), ServerStopped);
    ProperMerge(calls);
  }

  lemma OfSnoc(calls: seq<Call>, call: Call, client: bool)
    ensures Of(calls + [call], client)
         == if ByClient(call) == client then Of(calls, client) + [call] else Of(calls, client)
  {
    assert (calls + [call])[..|calls|] == calls;
  }

  /** The pass of the client's loop that makes this call alone. */
  function PassFor(call: Call): (p: Client.Pass)
    requires ByClient(call) && ProperNext("", false, call)
    ensures !Client.Stops(p)
    ensures Client.GotIn(p) == PiecesOf(call).got && Client.TypedIn(p) == PiecesOf(call).typed
    ensures Client.SentIn(p) == PiecesOf(call).sent
  {
    match call
    case ClientGot(bytes) => Client.Selected(Client.Brings(bytes), Client.NotReady, 0)
    case ClientSent(line, accepted) => Client.Selected(Client.NotReady, Client.Brings(line), |accepted|)
  }

  lemma PassCalls(passes: seq<Client.Pass>, call: Call)
    requires ByClient(call) && ProperNext("", false, call)
    ensures Client.CallsOf(passes + [PassFor(call)]) == Client.CallsOf(passes) + [call]
  {
    var p := PassFor(call);
    assert (passes + [p])[..|passes|] == passes;
  }

  /** The pass of the server's loop that receives and sends these. */
  function TurnFor(chunk: string, accepted: string): (t: Server.Turn)
    requires 1 <= |chunk| <= SERVER_CHUNK && accepted <= chunk
    ensures Server.Chunk(t) == chunk && Server.Kept(t) == accepted && |t.arriving| > 0
  {
    Server.Turn(chunk, |accepted|)
  }

  lemma TurnCalls(turns: seq<Server.Turn>, chunk: string, accepted: string)
    requires 1 <= |chunk| <= SERVER_CHUNK && accepted <= chunk
    ensures Server.CallsOf(turns + [TurnFor(chunk, accepted)])
         == Server.CallsOf(turns) + [ServerGot(chunk)] + [ServerSent(chunk, accepted)]
  {
    Server.TurnsSnoc(turns, TurnFor(chunk, accepted));
  }

  /** One more call of the client is one more pass of its loop. */
  lemma ClientExplainsNext(passes: seq<Client.Pass>, calls: seq<Call>, call: Call) returns (passes': seq<Client.Pass>)
    requires ClientExplains(passes, calls)
    requires ByClient(call) ==> ProperNext("", false, call)
    ensures ClientExplains(passes', calls + [call])
  {
    passes' := passes;
    OfSnoc(calls, call, true);
    if ByClient(call) {
      PassCalls(passes, call);
      passes' := passes + [PassFor(call)];
    }
  }

  /** One more call of the server is the first or the second half of a pass, or ends its loop. */
  lemma ServerExplainsNext(turns: seq<Server.Turn>, held: string, serving: bool, calls: seq<Call>, call: Call)
    returns (turns': seq<Server.Turn>)
    requires ServerExplains(turns, held, serving, calls) && |held| <= SERVER_CHUNK
    requires ProperNext(held, !serving, call)
    ensures ServerExplains(turns', HeldAfter(held, call), serving && !call.ServerStopped?, calls + [call])
  {
    turns' := turns;
    OfSnoc(calls, call, false);
    if call.ServerSent? {
      TurnCalls(turns, held, call.accepted);
      turns' := turns + [TurnFor(held, call.accepted)];
    }
  }

  /** A step from a state that is explained leads to one that is. */
  lemma StepExplained(s: State, step: Step, passes: seq<Client.Pass>, turns: seq<Server.Turn>, calls: seq<Call>)
    returns (passes': seq<Client.Pass>, turns': seq<Server.Turn>, call: Call)
    requires ClientExplains(passes, calls) && ServerExplains(turns, s.held, s.serving, calls)
    requires Fifo(INITIAL, calls) && s == Moved(INITIAL, calls) && |s.held| <= SERVER_CHUNK && Enabled(s, step)
    ensures StepOf(call) == step && Fifo(INITIAL, calls + [call])
    ensures ClientExplains(passes', calls + [call])
    ensures ServerExplains(turns', Apply(s, step).held, Apply(s, step).serving, calls + [call])
  {
    call := CallOf(s, step);
    FifoSnoc(calls, call);
    CallIsStep(s, call);
    passes' := ClientExplainsNext(passes, calls, call);
    turns' := ServerExplainsNext(turns, s.held, s.serving, calls, call);
  }

  /** Every run is some interleaving of the two loops' calls. */
  lemma {:induction false} RunExplained(steps: seq<Step>)
    returns (passes: seq<Client.Pass>, turns: seq<Server.Turn>, calls: seq<Call>)
    requires Legal(INITIAL, steps)
    ensures Steps(calls) == steps && Fifo(INITIAL, calls) && ClientExplains(passes, calls)
    ensures ServerExplains(turns, Exec(INITIAL, steps).held, Exec(INITIAL, steps).serving, calls)
    decreases |steps|
  {
    if steps == [] {
      passes, turns, calls := [], [], [];
      NothingMoved(INITIAL);
    } else {
      var before, last := steps[..|steps| - 1], steps[|steps| - 1];
      var s := Exec(INITIAL, before);
      passes, turns, calls := RunExplained(before);
      InvariantAlways(before);
      ExplainedProper(passes, turns, s.held, s.serving, calls);
      CallsAreRun(INITIAL, calls);
      var call;
      passes, turns, call := StepExplained(s, last, passes, turns, calls);
      StepsSnoc(calls, call, steps);
      calls := calls + [call];
    }
  }

  lemma StepsSnoc(calls: seq<Call>, call: Call, steps: seq<Step>)
    requires steps != [] && Steps(calls) == steps[..|steps| - 1] && StepOf(call) == steps[|steps| - 1]
    ensures Steps(calls + [call]) == steps
  {
    assert Steps(calls + [call]) == Steps(calls) + [StepOf(call)];
  }

  /** A server that has received a chunk is in the middle of a pass; one that has received nothing is at the
      end of its loop. */
  lemma UnfinishedLoop(turns: seq<Server.Turn>, held: string, serving: bool, calls: seq<Call>)
    returns (turns': seq<Server.Turn>)
    requires ServerExplains(turns, held, serving, calls) && |held| <= SERVER_CHUNK
    ensures Of(calls, false) <= Server.LoopCalls(turns')
  {
    turns' := turns;
    if !serving {
      turns' := turns + [Server.Turn("", 0)];
      Server.EndsHere(turns);
    } else {
      if |held| > 0 {
        TurnCalls(turns, held, "");
        turns' := turns + [TurnFor(held, "")];
      }
      Server.AllServed(turns');
    }
  }

  /** The runs of the echo system are exactly the interleavings of the socket calls of the two loops. */
  lemma RunsAreSchedules(steps: seq<Step>)
    ensures Legal(INITIAL, steps)
       <==> exists passes, turns, calls :: Schedule(passes, turns, calls) && Steps(calls) == steps
  {
    if Legal(INITIAL, steps) {
      var passes, turns, calls := RunExplained(steps);
      var s := Exec(INITIAL, steps);
      InvariantAlways(steps);
      var turns' := UnfinishedLoop(turns, s.held, s.serving, calls);
      Client.AllMade(passes);
      assert Schedule(passes, turns', calls);
    }
    forall passes, turns, calls | Schedule(passes, turns, calls) && Steps(calls) == steps
      ensures Legal(INITIAL, steps)
    {
      LoopsAreRun(passes, turns, calls);
    }
  }
}
