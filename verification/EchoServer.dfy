/** The server task of app/demos/demo_echo_server.c: accept, then receive and echo until the peer stops. */
module EchoServer {
  import opened Transfers
  import Calls = EchoCalls

  const BUFFER_SIZE: nat := 128
  const CHUNK: nat := Calls.SERVER_CHUNK

  /** One pass of the inner loop: what `FreeRTOS_recv` could bring (nothing means it returned 0 or an
      error), and what `FreeRTOS_send` then returned. */
  datatype Turn = Turn(arriving: string, sendResult: int)

  datatype Accept = Invalid | Accepted(turns: seq<Turn>)

  function Chunk(t: Turn): string {
    Cut(t.arriving, CHUNK)
  }

  /** The part of the chunk that the send accepted; its result is not looked at. */
  function Kept(t: Turn): string {
    Cut(Chunk(t), if t.sendResult < 0 then 0 else t.sendResult)
  }

  /** Number of passes until a receive brings nothing. */
  function Passes(turns: seq<Turn>): (n: nat)
    ensures n <= |turns|
  {
    if turns == [] || turns[0].arriving == "" then 0 else 1 + Passes(turns[1..])
  }

  /** The passes up to the first receive that brings nothing. */
  function Served(turns: seq<Turn>): (served: seq<Turn>)
    ensures |served| == Passes(turns)
  {
    turns[..Passes(turns)]
  }

  predicate AllBring(turns: seq<Turn>) {
    forall i: nat :: i < |turns| ==> |turns[i].arriving| > 0
  }

  function Received(turns: seq<Turn>): string
    decreases |turns|
  {
    if turns == [] then "" else Received(turns[..|turns| - 1]) + Chunk(turns[|turns| - 1])
  }

  function Echoed(turns: seq<Turn>): string
    decreases |turns|
  {
    if turns == [] then "" else Echoed(turns[..|turns| - 1]) + Kept(turns[|turns| - 1])
  }

  lemma TurnsSnoc(turns: seq<Turn>, t: Turn)
    ensures Received(turns + [t]) == Received(turns) + Chunk(t)
    ensures Echoed(turns + [t]) == Echoed(turns) + Kept(t)
    ensures CallsOf(turns + [t]) == CallsOf(turns) + [Calls.ServerGot(Chunk(t))] + [Calls.ServerSent(Chunk(t), Kept(t))]
  {
    assert (turns + [t])[..|turns|] == turns;
  }

  lemma {:induction false} BeforePasses(turns: seq<Turn>, i: nat)
    requires i <= Passes(turns)
    ensures i < Passes(turns) ==> turns[i].arriving != ""
    ensures i == Passes(turns) && i < |turns| ==> turns[i].arriving == ""
  {
    if i == 0 {
    } else {
      BeforePasses(turns[1..], i - 1);
    }
  }

  lemma ServedBring(turns: seq<Turn>)
    ensures AllBring(Served(turns))
  {
    forall i: nat | i < Passes(turns)
      ensures |turns[i].arriving| > 0
    {
      BeforePasses(turns, i);
    }
  }

  lemma {:induction false} AllServed(turns: seq<Turn>)
    requires AllBring(turns)
    ensures Served(turns) == turns
  {
    if turns == [] {
    } else {
      assert |turns[0].arriving| > 0;
      AllServed(turns[1..]);
    }
  }

  /** Whatever the sends return, what goes back is an order-preserving subsequence of what came in. */
  lemma {:induction false} EchoIsSubsequence(turns: seq<Turn>)
    ensures Subsequence(Echoed(turns), Received(turns))
    decreases |turns|
  {
    if turns == [] {
    } else {
      var before, t := turns[..|turns| - 1], turns[|turns| - 1];
      EchoIsSubsequence(before);
      SubsequencePiece(Echoed(before), Received(before), Chunk(t), |Kept(t)|);
      assert Kept(t) == Chunk(t)[..|Kept(t)|];
    }
  }

  lemma {:induction false} EchoNoLonger(turns: seq<Turn>)
    ensures |Echoed(turns)| <= |Received(turns)|
    ensures |Echoed(turns)| == |Received(turns)| ==> Echoed(turns) == Received(turns)
    ensures |Echoed(turns)| == |Received(turns)| <==>
      forall i: nat :: i < |turns| ==> turns[i].sendResult >= |Chunk(turns[i])| || Chunk(turns[i]) == ""
    decreases |turns|
  {
    if turns == [] {
    } else {
      EchoNoLonger(turns[..|turns| - 1]);
    }
  }

  /** The echo is faithful exactly when no send took less than its chunk. */
  lemma EchoFaithfulExactly(turns: seq<Turn>)
    ensures Echoed(Served(turns)) == Received(Served(turns))
       <==> forall i: nat :: i < Passes(turns) ==> turns[i].sendResult >= |Chunk(turns[i])|
  {
    var served := Served(turns);
    EchoNoLonger(served);
    ServedBring(turns);
    forall i: nat | i < |served|
      ensures served[i] == turns[i] && Chunk(served[i]) != ""
    {
      assert |served[i].arriving| > 0;
    }
  }

  // ----- The socket calls of the loop -----

  /** Each chunk received is sent before the next is received. */
  function CallsOf(turns: seq<Turn>): seq<Calls.Call>
    decreases |turns|
  {
    if turns == [] then []
    else
      var t := turns[|turns| - 1];
      CallsOf(turns[..|turns| - 1]) + [Calls.ServerGot(Chunk(t))] + [Calls.ServerSent(Chunk(t), Kept(t))]
  }

  lemma TurnMoves(calls: seq<Calls.Call>, t: Turn)
    ensures
      var longer := calls + [Calls.ServerGot(Chunk(t))] + [Calls.ServerSent(Chunk(t), Kept(t))];
      Calls.Total(longer) == Calls.Plus(Calls.Total(calls), Calls.Pieces("", "", Chunk(t), Kept(t), ""))
  {
    var got, sent := Calls.ServerGot(Chunk(t)), Calls.ServerSent(Chunk(t), Kept(t));
    Calls.TotalSnoc(calls, got);
    Calls.TotalSnoc(calls + [got], sent);
    Calls.PlusAgain(Calls.Total(calls), Calls.PiecesOf(got), Calls.PiecesOf(sent));
  }

  /** The calls move the bytes that the passes receive and echo. */
  lemma {:induction false} CallsMove(turns: seq<Turn>)
    ensures Calls.Total(CallsOf(turns)) == Calls.Pieces("", "", Received(turns), Echoed(turns), "")
    decreases |turns|
  {
    if turns == [] {
    } else {
      CallsMove(turns[..|turns| - 1]);
      TurnMoves(CallsOf(turns[..|turns| - 1]), turns[|turns| - 1]);
    }
  }

  lemma TurnProper(calls: seq<Calls.Call>, t: Turn)
    requires Calls.Proper(calls) && Calls.Pending(calls) == "" && !Calls.Stopped(calls) && |t.arriving| > 0
    ensures
      var longer := calls + [Calls.ServerGot(Chunk(t))] + [Calls.ServerSent(Chunk(t), Kept(t))];
      Calls.Proper(longer) && Calls.Pending(longer) == "" && !Calls.Stopped(longer)
  {
    var got, sent := Calls.ServerGot(Chunk(t)), Calls.ServerSent(Chunk(t), Kept(t));
    Calls.ProperSnoc(calls, got);
    Calls.ProperSnoc(calls + [got], sent);
  }

  lemma {:induction false} CallsProper(turns: seq<Turn>)
    requires AllBring(turns)
    ensures Calls.Proper(CallsOf(turns)) && Calls.Pending(CallsOf(turns)) == "" && !Calls.Stopped(CallsOf(turns))
    decreases |turns|
  {
    if turns == [] {
    } else {
      CallsProper(turns[..|turns| - 1]);
      TurnProper(CallsOf(turns[..|turns| - 1]), turns[|turns| - 1]);
    }
  }

  predicate Ends(turns: seq<Turn>) {
    Passes(turns) < |turns|
  }

  /** All calls of the loop, the last receive included if it has come. */
  function LoopCalls(turns: seq<Turn>): seq<Calls.Call> {
    if Ends(turns) then CallsOf(Served(turns)) + [Calls.ServerStopped] else CallsOf(Served(turns))
  }

  lemma LoopCallsMove(turns: seq<Turn>)
    ensures Calls.Total(LoopCalls(turns))
         == Calls.Pieces("", "", Received(Served(turns)), Echoed(Served(turns)), "")
  {
    CallsMove(Served(turns));
    Calls.TotalSnoc(CallsOf(Served(turns)), Calls.ServerStopped);
    Calls.PlusNothing(Calls.Total(CallsOf(Served(turns))));
  }

  lemma LoopCallsProper(turns: seq<Turn>)
    ensures Calls.Proper(LoopCalls(turns)) && Calls.Pending(LoopCalls(turns)) == ""
    ensures Calls.Stopped(LoopCalls(turns)) == Ends(turns)
  {
    ServedBring(turns);
    CallsProper(Served(turns));
    Calls.ProperSnoc(CallsOf(Served(turns)), Calls.ServerStopped);
  }

  /** One receive more, which brings nothing, ends the loop. */
  lemma {:induction false} EndsHere(turns: seq<Turn>)
    requires AllBring(turns)
    ensures Served(turns + [Turn("", 0)]) == turns && Ends(turns + [Turn("", 0)])
  {
    var longer := turns + [Turn("", 0)];
    if turns == [] {
    } else {
      assert |turns[0].arriving| > 0;
      EndsHere(turns[1..]);
      assert longer[1..] == turns[1..] + [Turn("", 0)];
      assert longer[..|turns|] == turns;
    }
  }

  class Server {
    const rxBuffer: array<char>

    constructor ()
      ensures fresh(rxBuffer) && rxBuffer.Length == BUFFER_SIZE
    {
      rxBuffer := new char[BUFFER_SIZE](_ => '\0');
    }

    /** Brings at most `limit` bytes into the front of the buffer, leaving the rest of it alone. */
    method Recv(arriving: string, limit: nat) returns (n: nat)
      requires limit <= rxBuffer.Length
      modifies rxBuffer
      ensures n == |Cut(arriving, limit)| && rxBuffer[..n] == Cut(arriving, limit)
      ensures rxBuffer[n..] == old(rxBuffer[n..])
    {
      var data := Cut(arriving, limit);
      n := |data|;
      forall i | 0 <= i < n {
        rxBuffer[i] := data[i];
      }
    }

    /** One pass of the inner loop: only bytes received in it are sent, never older buffer contents. */
    method OnePass(turn: Turn) returns (received: string, echoed: string)
      requires rxBuffer.Length == BUFFER_SIZE
      modifies rxBuffer
      ensures received == Chunk(turn)
      ensures echoed == if turn.arriving == "" then "" else Kept(turn)
      ensures received == if |turn.arriving| <= 127 then turn.arriving else turn.arriving[..127]
      ensures echoed == if turn.sendResult <= 0 then ""
                        else if turn.sendResult <= |received| then received[..turn.sendResult] else received
    {
      var n := Recv(turn.arriving, BUFFER_SIZE - 1);
      if n <= 0 {
        return "", "";
      }
      rxBuffer[n] := '\0';
      received := rxBuffer[..n];
      echoed := Cut(rxBuffer[..n], if turn.sendResult < 0 then 0 else turn.sendResult);
    }

    /** One connection: what it receives and echoes, and its socket calls up to the receive that ends it. */
    method Serve(turns: seq<Turn>) returns (received: string, echoed: string, calls: seq<Calls.Call>)
      requires rxBuffer.Length == BUFFER_SIZE
      modifies rxBuffer
      ensures received == Received(Served(turns))
      ensures echoed == Echoed(Served(turns))
      ensures calls == LoopCalls(turns)
    {
      received, echoed, calls := "", "", [];
      var i := 0;
      while i < |turns|
        invariant i <= Passes(turns)
        invariant received == Received(turns[..i]) && echoed == Echoed(turns[..i])
        invariant calls == CallsOf(turns[..i])
      {
        BeforePasses(turns, i);
        var chunk, kept := OnePass(turns[i]);
        if chunk == "" {
          calls := calls + [Calls.ServerStopped];
          return;
        }
        received, echoed := received + chunk, echoed + kept;
        calls := calls + [Calls.ServerGot(chunk)] + [Calls.ServerSent(chunk, kept)];
        TurnsSnoc(turns[..i], turns[i]);
        assert turns[..i] + [turns[i]] == turns[..i + 1];
        i := i + 1;
      }
      BeforePasses(turns, i);
    }

    /** The server over any sequence of accepts: each connection is served by itself. */
    method Run(accepts: seq<Accept>) returns (echoes: seq<string>)
      requires rxBuffer.Length == BUFFER_SIZE
      modifies rxBuffer
      ensures |echoes| == |accepts|
      ensures forall i: nat :: i < |accepts| ==>
        echoes[i] == match accepts[i]
                     case Invalid => ""
                     case Accepted(turns) => Echoed(Served(turns))
    {
      echoes := [];
      for i := 0 to |accepts|
        invariant |echoes| == i
        invariant forall j: nat :: j < i ==>
          echoes[j] == match accepts[j]
                       case Invalid => ""
                       case Accepted(turns) => Echoed(Served(turns))
      {
        var echoed := "";
        match accepts[i] {
          case Invalid =>
          case Accepted(turns) =>
            var received, calls;
            received, echoed, calls := Serve(turns);
        }
        echoes := echoes + [echoed];
      }
    }
  }
}
