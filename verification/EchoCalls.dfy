/** The socket calls that the two ends of an echo connection make, with the bytes they move. */
module EchoCalls {

  /** What one receive can bring at most: the buffers of 128 and 512 bytes less one. */
  const SERVER_CHUNK: nat := 127
  const CLIENT_CHUNK: nat := 511

  /** A send is given bytes and takes a prefix of them.  The server's last call is the receive that brings
      nothing, after which it gives the connection up. */
  datatype Call =
    | ClientGot(bytes: string)
    | ClientSent(line: string, accepted: string)
    | ServerGot(bytes: string)
    | ServerSent(chunk: string, accepted: string)
    | ServerStopped

  predicate ByClient(call: Call) {
    call.ClientGot? || call.ClientSent?
  }

  /** The calls of one end, in order. */
  function Of(calls: seq<Call>, client: bool): seq<Call>
    decreases |calls|
  {
    if calls == [] then []
    else
      var last := calls[|calls| - 1];
      Of(calls[..|calls| - 1], client) + if ByClient(last) == client then [last] else []
  }

  // ----- The bytes moved -----

  /** Bytes by the five places where they are counted. */
  datatype Pieces = Pieces(typed: string, sent: string, consumed: string, echoed: string, got: string)

  const NOTHING := Pieces("", "", "", "", "")

  function Plus(p: Pieces, q: Pieces): Pieces {
    Pieces(p.typed + q.typed, p.sent + q.sent, p.consumed + q.consumed, p.echoed + q.echoed, p.got + q.got)
  }

  lemma PlusNothing(p: Pieces)
    ensures Plus(p, NOTHING) == p
  {
  }

  lemma PlusAgain(p: Pieces, q: Pieces, r: Pieces)
    ensures Plus(Plus(p, q), r) == Plus(p, Plus(q, r))
  {
  }

  function PiecesOf(call: Call): Pieces {
    match call
    case ClientGot(bytes) => NOTHING.(got := bytes)
    case ClientSent(line, accepted) => NOTHING.(typed := line, sent := accepted)
    case ServerGot(bytes) => NOTHING.(consumed := bytes)
    case ServerSent(_, accepted) => NOTHING.(echoed := accepted)
    case ServerStopped => NOTHING
  }

  /** What a sequence of calls moves in all. */
  function Total(calls: seq<Call>): Pieces
    decreases |calls|
  {
    if calls == [] then NOTHING
    else Plus(Total(calls[..|calls| - 1]), PiecesOf(calls[|calls| - 1]))
  }

  lemma TotalSnoc(calls: seq<Call>, call: Call)
    ensures Total(calls + [call]) == Plus(Total(calls), PiecesOf(call))
  {
    assert (calls + [call])[..|calls|] == calls;
  }

  function Part(p: Pieces, client: bool): Pieces {
    if client then Pieces(p.typed, p.sent, "", "", p.got) else Pieces("", "", p.consumed, p.echoed, "")
  }

  lemma PartPlus(p: Pieces, q: Pieces, client: bool)
    ensures Part(Plus(p, q), client) == Plus(Part(p, client), Part(q, client))
  {
  }

  lemma PartOfCall(call: Call, client: bool)
    ensures Part(PiecesOf(call), client) == if ByClient(call) == client then PiecesOf(call) else NOTHING
  {
  }

  /** What one end moved can be read off its own calls. */
  lemma {:induction false} TotalOfEnd(calls: seq<Call>, client: bool)
    ensures Total(Of(calls, client)) == Part(Total(calls), client)
    decreases |calls|
  {
    if calls == [] {
    } else {
      var before, last := calls[..|calls| - 1], calls[|calls| - 1];
      TotalOfEnd(before, client);
      PartPlus(Total(before), PiecesOf(last), client);
      PartOfCall(last, client);
      OfSnoc(before, last, client);
      assert before + [last] == calls;
    }
  }

  lemma OfSnoc(calls: seq<Call>, last: Call, client: bool)
    ensures Total(Of(calls + [last], client))
         == Plus(Total(Of(calls, client)), if ByClient(last) == client then PiecesOf(last) else NOTHING)
  {
    assert (calls + [last])[..|calls|] == calls;
    if ByClient(last) == client {
      TotalSnoc(Of(calls, client), last);
    } else {
      assert Of(calls + [last], client) == Of(calls, client);
      PlusNothing(Total(Of(calls, client)));
    }
  }

  // ----- The order of calls -----

  /** The chunk that the server has received and not yet sent. */
  function Pending(calls: seq<Call>): string
    decreases |calls|
  {
    if calls == [] then ""
    else match calls[|calls| - 1]
      case ServerGot(bytes) => bytes
      case ServerSent(_, _) => ""
      case _ => Pending(calls[..|calls| - 1])
  }

  predicate Stopped(calls: seq<Call>)
    decreases |calls|
  {
    calls != [] && (calls[|calls| - 1].ServerStopped? || Stopped(calls[..|calls| - 1]))
  }

  /** What each end may call next, given what the server holds and whether it has stopped. */
  predicate ProperNext(pending: string, stopped: bool, call: Call) {
    match call
    case ClientGot(bytes) => 1 <= |bytes| <= CLIENT_CHUNK
    case ClientSent(line, accepted) => 1 <= |line| <= CLIENT_CHUNK && accepted <= line
    case ServerGot(bytes) => !stopped && pending == "" && 1 <= |bytes| <= SERVER_CHUNK
    case ServerSent(chunk, accepted) => !stopped && chunk == pending != "" && accepted <= chunk
    case ServerStopped => !stopped && pending == ""
  }

  /** Transfers have their sizes, the server sends each chunk before it receives again, and stops for good. */
  predicate Proper(calls: seq<Call>)
    decreases |calls|
  {
    if calls == [] then true
    else
      var before := calls[..|calls| - 1];
      Proper(before) && ProperNext(Pending(before), Stopped(before), calls[|calls| - 1])
  }

  lemma ProperSnoc(calls: seq<Call>, call: Call)
    ensures Proper(calls + [call]) <==> Proper(calls) && ProperNext(Pending(calls), Stopped(calls), call)
    ensures call.ServerGot? ==> Pending(calls + [call]) == call.bytes
    ensures call.ServerSent? ==> Pending(calls + [call]) == ""
    ensures !call.ServerGot? && !call.ServerSent? ==> Pending(calls + [call]) == Pending(calls)
    ensures Stopped(calls + [call]) == (call.ServerStopped? || Stopped(calls))
  {
    assert (calls + [call])[..|calls|] == calls;
  }

  lemma {:induction false} ProperPrefix(calls: seq<Call>, k: nat)
    requires k <= |calls| && Proper(calls)
    ensures Proper(calls[..k])
    decreases |calls|
  {
    if k == |calls| {
      assert calls[..k] == calls;
    } else {
      ProperPrefix(calls[..|calls| - 1], k);
      assert calls[..|calls| - 1][..k] == calls[..k];
    }
  }

  /** However the calls of two proper ends are interleaved, the result is proper. */
  lemma {:induction false} ProperMerge(calls: seq<Call>)
    requires Proper(Of(calls, true))
    requires Proper(Of(calls, false))
    ensures Proper(calls)
    ensures Pending(calls) == Pending(Of(calls, false)) && Stopped(calls) == Stopped(Of(calls, false))
    decreases |calls|
  {
    if calls == [] {
    } else {
      var before, last := calls[..|calls| - 1], calls[|calls| - 1];
      var client := ByClient(last);
      assert Of(calls, !client) == Of(before, !client);
      ProperSnoc(Of(before, client), last);
      ProperMerge(before);
    }
  }

  ghost predicate SentWhole(calls: seq<Call>) {
    forall i: nat :: i < |calls| ==> calls[i].ClientSent? ==> |calls[i].accepted| == |calls[i].line|
  }

  /** The client's sends took all that was typed exactly when each took its whole line. */
  lemma {:induction false} SentWholeExactly(calls: seq<Call>)
    requires Proper(calls)
    ensures |Total(calls).sent| <= |Total(calls).typed|
    ensures |Total(calls).sent| == |Total(calls).typed| ==> Total(calls).sent == Total(calls).typed
    ensures |Total(calls).sent| == |Total(calls).typed| <==> SentWhole(calls)
    decreases |calls|
  {
    if calls == [] {
    } else {
      var last := calls[|calls| - 1];
      SentWholeExactly(calls[..|calls| - 1]);
      assert last.ClientSent? ==> last.accepted <= last.line;
    }
  }
}
