/** One connection of the echo client in TCPEchoClient_SingleTasks.c as a function of what the socket
    calls return, and its verdict on an in-order echo peer (RFC 862). */
module EchoConnection {
  import opened Words
  import opened CStrings
  import opened TxData
  import opened EchoMessage

  const BUFFER_SIZE: nat := 1460

  /** What one `FreeRTOS_recv` on the connected socket brings.  Data beyond the space offered is cut. */
  datatype Recv = Data(bytes: string) | TimedOut | Failed

  /** Results of the socket calls of one connection, and how often others draw from the generator before it
      chooses its length.  A send that does not fail accepts at most the whole message; once the listed
      receives are used up, every further one times out. */
  datatype Environment = Environment(connectResult: int, sendResult: int, receives: seq<Recv>, otherDraws: nat)

  datatype Outcome = NotConnected | SendError | ReceiveError | NoReply | Mismatch | Cycle

  datatype Reply = Got(bytes: string) | Broken

  function Min(a: nat, b: nat): nat {
    if a <= b then a else b
  }

  /** What is in the buffer when the receive loop ends, having asked for `len` bytes less those received. */
  function Collect(receives: seq<Recv>, got: string, transmitted: nat, len: nat): (reply: Reply)
    requires |got| <= len && transmitted <= len
    ensures reply.Got? ==> |reply.bytes| <= len
    decreases |receives|
  {
    if |got| >= transmitted || receives == [] then Got(got)
    else match receives[0]
      case Failed => Broken
      case TimedOut => Got(got)
      case Data(bytes) =>
        var n := Min(|bytes|, len - |got|);
        if n == 0 then Got(got) else Collect(receives[1..], got + bytes[..n], transmitted, len)
  }

  function Judge(env: Environment, message: string): Outcome
    requires |message| <= BUFFER_SIZE
  {
    if env.connectResult != 0 then NotConnected
    else if env.sendResult < 0 then SendError
    else
      var transmitted := Min(env.sendResult, |message|);
      match Collect(env.receives, "", transmitted, |message|)
      case Broken => ReceiveError
      case Got(bytes) =>
        if bytes == "" then NoReply
        else if StrNCmpZero(Cleared(bytes, BUFFER_SIZE), message, transmitted) then Cycle
        else Mismatch
  }

  // ----- What decides the outcome -----

  /** Each outcome says how far the connection came, whatever the message and the reply. */
  lemma OutcomeExactly(env: Environment, message: string)
    requires |message| <= BUFFER_SIZE
    ensures Judge(env, message) == NotConnected <==> env.connectResult != 0
    ensures Judge(env, message) == SendError <==> env.connectResult == 0 && env.sendResult < 0
    ensures env.connectResult == 0 && env.sendResult >= 0 ==>
      var reply := Collect(env.receives, "", Min(env.sendResult, |message|), |message|);
      && (Judge(env, message) == ReceiveError <==> reply == Broken)
      && (Judge(env, message) == NoReply <==> reply == Got(""))
      && (Judge(env, message) in {Cycle, Mismatch} <==> reply.Got? && |reply.bytes| > 0)
  {
  }

  /** What `i` receives that brought data have brought. */
  function Joined(receives: seq<Recv>, i: nat): string
    requires i <= |receives| && forall j: nat :: j < i ==> receives[j].Data?
  {
    if i == 0 then "" else receives[0].bytes + Joined(receives[1..], i - 1)
  }

  /** The `k`-th receive is the one that brings the reply up to what was transmitted. */
  ghost predicate Reaches(receives: seq<Recv>, got: string, transmitted: nat, k: nat) {
    && k <= |receives| && (forall j: nat :: j < k ==> receives[j].Data? && |receives[j].bytes| > 0)
    && |got| + |Joined(receives, k)| >= transmitted
    && forall j: nat :: j < k ==> |got| + |Joined(receives, j)| < transmitted
  }

  /** If enough arrives, the reply is what came up to and with the receive that made it enough, cut to the
      length of the message. */
  lemma {:induction false} CollectEnough(receives: seq<Recv>, got: string, transmitted: nat, len: nat, k: nat)
    requires |got| <= len && transmitted <= len && Reaches(receives, got, transmitted, k)
    ensures Collect(receives, got, transmitted, len)
         == Got(var all := got + Joined(receives, k); if |all| <= len then all else all[..len])
    decreases k
  {
    if k == 0 {
      assert got + "" == got;
    } else {
      var bytes := receives[0].bytes;
      assert |got| + |Joined(receives, 0)| < transmitted;
      assert got + Joined(receives, k) == got + bytes + Joined(receives[1..], k - 1);
      if |got + bytes| <= len {
        forall j: nat | j < k - 1
          ensures |got + bytes| + |Joined(receives[1..], j)| < transmitted
        {
          assert |got| + |Joined(receives, j + 1)| < transmitted;
        }
        CollectEnough(receives[1..], got + bytes, transmitted, len, k - 1);
        assert bytes[..|bytes|] == bytes;
      } else {
        assert k > 1 ==> |got| + |Joined(receives, 1)| < transmitted;
        assert Joined(receives, 1) == bytes + Joined(receives[1..], 0) == bytes;
        assert got + bytes[..len - |got|] == (got + bytes)[..len];
      }
    }
  }

  // ----- An in-order echo peer -----

  /** All bytes that arrive before the first receive that brings none. */
  function Arrived(receives: seq<Recv>): string {
    if receives == [] || !receives[0].Data? || receives[0].bytes == "" then ""
    else receives[0].bytes + Arrived(receives[1..])
  }

  predicate EndsInFailure(receives: seq<Recv>) {
    receives != [] &&
    if receives[0].Data? then receives[0].bytes != "" && EndsInFailure(receives[1..]) else receives[0].Failed?
  }

  lemma {:induction false} CollectEcho(receives: seq<Recv>, got: string, transmitted: nat, len: nat, sent: string)
    requires |sent| == transmitted <= len
    requires got + Arrived(receives) <= sent
    ensures Collect(receives, got, transmitted, len)
         == if |got + Arrived(receives)| < transmitted && EndsInFailure(receives) then Broken
            else Got(got + Arrived(receives))
    decreases |receives|
  {
    if receives != [] && receives[0].Data? && receives[0].bytes != "" {
      var bytes := receives[0].bytes;
      assert got + Arrived(receives) == (got + bytes) + Arrived(receives[1..]);
      assert |got| < transmitted;
      CollectEcho(receives[1..], got + bytes, transmitted, len, sent);
      assert bytes[..|bytes|] == bytes;
    } else {
      assert got + Arrived(receives) == got;
    }
  }

  lemma {:induction false} SomeReceiveReaches(receives: seq<Recv>, got: string, transmitted: nat) returns (k: nat)
    requires |got| + |Arrived(receives)| >= transmitted
    ensures Reaches(receives, got, transmitted, k)
    decreases |receives|
  {
    if |got| >= transmitted {
      k := 0;
    } else {
      var bytes := receives[0].bytes;
      var rest := SomeReceiveReaches(receives[1..], got + bytes, transmitted);
      k := rest + 1;
      forall j: nat | j < k
        ensures |got| + |Joined(receives, j)| < transmitted
        ensures receives[j].Data? && |receives[j].bytes| > 0
      {
        if j > 0 {
          assert receives[1..][j - 1] == receives[j];
          assert |got + bytes| + |Joined(receives[1..], j - 1)| < transmitted;
        }
      }
    }
  }

  /** The reply that the receive loop collects, for all receives: if less arrives than was transmitted, all of
      it, or an error if that is what ended it; if enough arrives, what `CollectEnough` says. */
  lemma CollectExactly(receives: seq<Recv>, transmitted: nat, len: nat)
    requires transmitted <= len
    ensures |Arrived(receives)| < transmitted ==>
      Collect(receives, "", transmitted, len) == if EndsInFailure(receives) then Broken else Got(Arrived(receives))
    ensures |Arrived(receives)| >= transmitted ==> exists k: nat :: Reaches(receives, "", transmitted, k)
    ensures forall k: nat :: Reaches(receives, "", transmitted, k) ==>
      Collect(receives, "", transmitted, len)
      == Got(if |Joined(receives, k)| <= len then Joined(receives, k) else Joined(receives, k)[..len])
  {
    if |Arrived(receives)| < transmitted {
      var sent := Arrived(receives) + seq(transmitted - |Arrived(receives)|, _ => NUL);
      assert "" + Arrived(receives) == Arrived(receives);
      CollectEcho(receives, "", transmitted, len, sent);
    } else {
      var k := SomeReceiveReaches(receives, "", transmitted);
    }
    forall k: nat | Reaches(receives, "", transmitted, k)
      ensures Collect(receives, "", transmitted, len)
           == Got(if |Joined(receives, k)| <= len then Joined(receives, k) else Joined(receives, k)[..len])
    {
      assert "" + Joined(receives, k) == Joined(receives, k);
      CollectEnough(receives, "", transmitted, len, k);
    }
  }

  /** The reply shows the header, and a NUL or nothing behind it, as far as was transmitted. */
  ghost predicate ShowsHeader(reply: string, number: Word, transmitted: nat) {
    forall i: nat :: i < transmitted && i <= |Header(number)| ==>
      (if i < |reply| then reply[i] else '\0') == if i < |Header(number)| then Header(number)[i] else '\0'
  }

  /** Any reply at all counts as a cycle exactly when it shows the header. */
  lemma ReplyVerdict(env: Environment, len: nat, number: Word)
    requires MINIMUM_LENGTH <= len <= BUFFER_SIZE
    requires env.connectResult == 0 && env.sendResult >= 0
    requires Collect(env.receives, "", Min(env.sendResult, len), len).Got?
    ensures
      var transmitted := Min(env.sendResult, len);
      var reply := Collect(env.receives, "", transmitted, len).bytes;
      Judge(env, Message(len, number)) == if |reply| == 0 then NoReply
                                          else if ShowsHeader(reply, number, transmitted) then Cycle else Mismatch
  {
    var transmitted := Min(env.sendResult, len);
    var reply := Collect(env.receives, "", transmitted, len).bytes;
    var received, message, h := Cleared(reply, BUFFER_SIZE), Message(len, number), |Header(number)|;
    HeaderLength(number);
    ComparisonWindow(received, len, number, transmitted);
    forall i: nat | i < transmitted && i <= h
      ensures received[i] == if i < |reply| then reply[i] else NUL
      ensures message[i] == if i < h then Header(number)[i] else NUL
    {
      MessageClosedForm(len, number, i);
    }
  }

  /** Against a peer that echoes a prefix of what was transmitted, in any pieces: with R bytes back the
      connection counts as a cycle exactly when R > 0 and R reaches the end of the header, or of what was
      transmitted if that is less. */
  lemma EchoPeerVerdict(env: Environment, len: nat, number: Word)
    requires MINIMUM_LENGTH <= len <= BUFFER_SIZE
    requires env.connectResult == 0 && env.sendResult >= 0
    requires |Message(len, number)| == len
    requires Arrived(env.receives) <= Message(len, number)[..Min(env.sendResult, len)]
    ensures
      var transmitted, r, h := Min(env.sendResult, len), |Arrived(env.receives)|, |Header(number)|;
      Judge(env, Message(len, number)) ==
        if r < transmitted && EndsInFailure(env.receives) then ReceiveError
        else if r == 0 then NoReply
        else if r >= Min(transmitted, h) then Cycle
        else Mismatch
  {
    var message, transmitted := Message(len, number), Min(env.sendResult, len);
    var r := |Arrived(env.receives)|;
    assert "" + Arrived(env.receives) == Arrived(env.receives) == message[..r];
    CollectEcho(env.receives, "", transmitted, len, message[..transmitted]);
    EchoedPrefixVerdict(len, number, BUFFER_SIZE, transmitted, r);
  }

  // ----- Accounting over many connections -----

  function Tally(outcomes: seq<Outcome>, o: Outcome): nat {
    if outcomes == [] then 0
    else Tally(outcomes[..|outcomes| - 1], o) + if outcomes[|outcomes| - 1] == o then 1 else 0
  }

  /** How many of the attempts got a connection. */
  function Connections(outcomes: seq<Outcome>): nat {
    if outcomes == [] then 0
    else Connections(outcomes[..|outcomes| - 1]) + if outcomes[|outcomes| - 1] != NotConnected then 1 else 0
  }

  /** Connections split exactly into cycles, mismatches, send errors, receive errors and missing replies. */
  lemma {:induction false} ConnectionsSplit(outcomes: seq<Outcome>)
    ensures Connections(outcomes) == Tally(outcomes, Cycle) + Tally(outcomes, Mismatch)
      + Tally(outcomes, SendError) + Tally(outcomes, ReceiveError) + Tally(outcomes, NoReply)
    ensures |outcomes| == Connections(outcomes) + Tally(outcomes, NotConnected)
    decreases |outcomes|
  {
    if outcomes == [] {
    } else {
      ConnectionsSplit(outcomes[..|outcomes| - 1]);
    }
  }

  lemma OutcomeSnoc(outcomes: seq<Outcome>, o: Outcome)
    ensures Connections(outcomes + [o]) == Connections(outcomes) + Connections([o])
    ensures forall p :: Tally(outcomes + [o], p) == Tally(outcomes, p) + Tally([o], p)
  {
    assert (outcomes + [o])[..|outcomes|] == outcomes;
    assert [o][..0] == [];
  }
}
