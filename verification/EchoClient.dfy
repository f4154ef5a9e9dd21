/** The echo client task of TCPEchoClient_SingleTasks.c with its buffers and counters. */
module EchoClient {
  import opened Words
  import opened Lcg
  import opened CStrings
  import opened RandomSource
  import opened TxData
  import opened EchoMessage
  import opened EchoConnection
  import opened HealthMonitor
  import opened ClientRuns
  import opened Sockets

  class Client {
    const random: Generator
    const tx: array<char>
    const rx: array<char>
    var txCount: Word
    var failures: Word
    var health: Health

    /** What client and health check have done to the counters since the start, and what the check reported. */
    ghost var history: seq<Event>
    ghost var reported: seq<bool>

    ghost predicate Valid()
      reads this
    {
      && tx.Length == BUFFER_SIZE && rx.Length == BUFFER_SIZE && tx != rx
      && health == Run(START, history) && reported == Reports(history)
    }

    /** Where the run stands. */
    ghost function Here(outcomes: seq<Outcome>): Point
      reads this, random
    {
      Point(random.nextRand, txCount, outcomes, history)
    }

    constructor (random: Generator)
      ensures Valid() && fresh(tx) && fresh(rx) && this.random == random
      ensures txCount == 0 && failures == 0 && history == [] && reported == []
    {
      this.random := random;
      tx := new char[BUFFER_SIZE](_ => NUL);
      rx := new char[BUFFER_SIZE](_ => NUL);
      txCount, failures, health := 0, 0, START;
      history, reported := [], [];
    }

    /** Fills the buffer and prints the numbered header over its front, terminator included.  The length is
        the one that the generator's state gives. */
    method ComposeMessage() returns (len: nat)
      requires Valid()
      modifies this`txCount, random, tx
      ensures len == Length(old(random.nextRand), BUFFER_SIZE)
      ensures random.nextRand == StateAfter(old(random.nextRand), BUFFER_SIZE)
      ensures tx[..len] == Message(len, old(txCount)) && txCount == Plus(old(txCount), 1)
    {
      ghost var draws;
      len, draws := CreateTxData(random, tx, BUFFER_SIZE);
      HeaderLength(txCount);
      Sprintf(Header(txCount), len);
      txCount := Plus(txCount, 1);
    }

    method Sprintf(text: string, ghost len: nat)
      requires Valid() && |text| < len <= BUFFER_SIZE
      modifies tx
      ensures tx[..len] == text + [NUL] + old(tx[..len])[|text| + 1..]
    {
      forall i | 0 <= i < |text| {
        tx[i] := text[i];
      }
      tx[|text|] := NUL;
    }

    /** Writes received bytes at an offset; the result is their count, 0 on time-out, negative on error. */
    method Receive(r: Recv, offset: nat, space: nat) returns (returned: int)
      requires Valid() && offset + space <= BUFFER_SIZE
      modifies rx
      ensures r.Failed? ==> returned < 0
      ensures r.TimedOut? ==> returned == 0
      ensures r.Data? ==> returned == Min(|r.bytes|, space)
      ensures returned <= 0 ==> rx[..] == old(rx[..])
      ensures returned > 0 ==>
        r.Data? && rx[..] == old(rx[..offset]) + r.bytes[..returned] + old(rx[offset + returned..])
    {
      match r
      case Failed => returned := -1;
      case TimedOut => returned := 0;
      case Data(bytes) =>
        returned := Min(|bytes|, space);
        forall i | 0 <= i < returned {
          rx[offset + i] := bytes[i];
        }
    }

    method ClearReceiveBuffer()
      requires Valid()
      modifies rx
      ensures rx[..] == Cleared("", BUFFER_SIZE)
    {
      forall i | 0 <= i < rx.Length {
        rx[i] := NUL;
      }
    }

    /** The receive loop: bounded by the bytes left, never writing outside the buffer. */
    method ReceiveReply(receives: seq<Recv>, transmitted: nat, len: nat) returns (received: int)
      requires Valid() && transmitted <= len <= BUFFER_SIZE
      modifies rx
      ensures
        match Collect(receives, "", transmitted, len)
        case Broken => received < 0
        case Got(bytes) => received == |bytes| && rx[..] == Cleared(bytes, BUFFER_SIZE)
    {
      ClearReceiveBuffer();
      received := 0;
      var k := 0;
      ghost var got := "";
      while received < transmitted
        invariant k <= |receives| && received == |got| <= len
        invariant rx[..] == Cleared(got, BUFFER_SIZE)
        invariant Collect(receives, "", transmitted, len) == Collect(receives[k..], got, transmitted, len)
        decreases transmitted - received
      {
        var next := if k < |receives| then receives[k] else TimedOut;
        var returned := Receive(next, received, len - received);
        if returned < 0 {
          received := returned;
          return;
        } else if returned == 0 {
          break;
        } else {
          ghost var longer := got + next.bytes[..returned];
          assert rx[..] == Cleared(longer, BUFFER_SIZE);
          assert receives[k..][1..] == receives[k + 1..];
          received := received + returned;
          got := longer;
          k := k + 1;
        }
      }
    }

    /** What others draw from the generator, sequence numbers for instance. */
    method OtherDraws(n: nat)
      modifies random
      ensures random.nextRand == Draws(old(random.nextRand), n)
    {
      for i := 0 to n
        invariant random.nextRand == Draws(old(random.nextRand), i)
      {
        DrawsAdd(old(random.nextRand), i, 1);
        var number := random.GetNextSequenceNumber(0, 0, 0, 0);
      }
    }

    /** One event more: the counters move as the health monitor's do. */
    method CountConnection()
      requires Valid()
      modifies this`health, this`history
      ensures Valid() && history == old(history) + [Connected]
    {
      RunSnoc(START, history, Connected);
      ReportsSnoc(history, Connected);
      health := health.(connections := Plus(health.connections, 1));
      history := history + [Connected];
    }

    method CountCycle()
      requires Valid()
      modifies this`health, this`history
      ensures Valid() && history == old(history) + [Cycled]
    {
      RunSnoc(START, history, Cycled);
      ReportsSnoc(history, Cycled);
      health := health.(cycles := Plus(health.cycles, 1));
      history := history + [Cycled];
    }

    /** The health check.  It passes exactly when cycles and connections since the previous one are both
        nonzero modulo 2^32. */
    method StillRunning() returns (pass: bool)
      requires Valid()
      modifies this`health, this`history, this`reported
      ensures Valid() && history == old(history) + [Checked] && reported == old(reported) + [pass]
      ensures pass == Progress(old(history))
    {
      RunSnoc(START, history, Checked);
      ReportsSnoc(history, Checked);
      PassesExactly(history);
      pass := true;
      if health.cycles == health.lastCycles {
        pass := false;
      } else {
        health := health.(lastCycles := health.cycles);
      }
      if health.connections == health.lastConnections {
        pass := false;
      } else {
        health := health.(connections := health.lastConnections);
      }
      history, reported := history + [Checked], reported + [pass];
    }

    /** Another task checks some number of times. */
    method CheckOften(n: nat)
      requires Valid()
      modifies this`health, this`history, this`reported
      ensures Valid() && history == WithChecks(old(history), n)
    {
      for i := 0 to n
        invariant Valid() && history == WithChecks(old(history), i)
      {
        var pass := StillRunning();
      }
    }

    /** The body of the connected branch.  Others may check any number of times while it is under way. */
    method Converse(env: Environment, during: nat) returns (outcome: Outcome)
      requires Valid() && env.connectResult == 0
      modifies this, random, tx, rx
      ensures Valid() && outcome != NotConnected
      ensures outcome == Judge(env, Message(Length(old(random.nextRand), BUFFER_SIZE), old(txCount)))
      ensures random.nextRand == StateAfter(old(random.nextRand), BUFFER_SIZE)
      ensures txCount == Plus(old(txCount), 1)
      ensures failures == if outcome == Mismatch then Plus(old(failures), 1) else old(failures)
      ensures history == WithCycle(WithChecks(WithConnection(old(history), outcome), during), outcome)
    {
      CountConnection();
      CheckOften(during);
      outcome := Exchange(env);
    }

    /** From composing the message to judging the reply. */
    method Exchange(env: Environment) returns (outcome: Outcome)
      requires Valid() && env.connectResult == 0
      modifies this, random, tx, rx
      ensures Valid() && outcome != NotConnected
      ensures outcome == Judge(env, Message(Length(old(random.nextRand), BUFFER_SIZE), old(txCount)))
      ensures random.nextRand == StateAfter(old(random.nextRand), BUFFER_SIZE)
      ensures txCount == Plus(old(txCount), 1)
      ensures failures == if outcome == Mismatch then Plus(old(failures), 1) else old(failures)
      ensures history == WithCycle(old(history), outcome)
    {
      var len := ComposeMessage();
      ghost var message := tx[..len];
      if env.sendResult < 0 {
        outcome := SendError;
      } else {
        var transmitted := Min(env.sendResult, len);
        var received := ReceiveReply(env.receives, transmitted, len);
        if received > 0 {
          if StrNCmpZero(rx[..], tx[..len], transmitted) {
            CountCycle();
            outcome := Cycle;
          } else {
            failures := Plus(failures, 1);
            outcome := Mismatch;
          }
        } else if received < 0 {
          outcome := ReceiveError;
        } else {
          outcome := NoReply;
        }
      }
      assert outcome == Judge(env, message);
    }

    /** One pass of the client's outer loop, without the creation and closing of its socket. */
    method RunConnection(a: Attempt, ghost outcomes: seq<Outcome>) returns (outcome: Outcome)
      requires Valid()
      modifies this, random, tx, rx
      ensures Valid() && Here(outcomes + [outcome]) == Next(old(Here(outcomes)), a)
      ensures failures == if outcome == Mismatch then Plus(old(failures), 1) else old(failures)
    {
      CheckOften(a.before);
      OtherDraws(a.env.otherDraws);
      if a.env.connectResult == 0 {
        outcome := Converse(a.env, a.during);
      } else {
        outcome := NotConnected;
        CheckOften(a.during);
      }
    }

    /** One pass with its socket, which is closed whether or not it got connected. */
    method OnePass(a: Attempt, ghost outcomes: seq<Outcome>, sockets: seq<SocketEvent>)
      returns (outcome: Outcome, log: seq<SocketEvent>)
      requires Valid() && OneSocketAtATime(sockets) && Open(sockets) == 0
      modifies this, random, tx, rx
      ensures Valid() && Here(outcomes + [outcome]) == Next(old(Here(outcomes)), a)
      ensures failures == if outcome == Mismatch then Plus(old(failures), 1) else old(failures)
      ensures OneSocketAtATime(log) && Open(log) == 0 && |log| == |sockets| + 2
    {
      OneSocketSnoc(sockets, Created);
      log := sockets + [Created];
      outcome := RunConnection(a, outcomes);
      OneSocketSnoc(log, Closed);
      log := log + [Closed];
    }

    /** The client over any number of attempts, interleaved with any number of checks: outcomes, generator,
        message numbers and the health monitor's history are those of the run, the checks report what the
        history says, and sockets never overlap. */
    method RunTask(attempts: seq<Attempt>) returns (outcomes: seq<Outcome>, log: seq<SocketEvent>)
      requires Valid()
      modifies this, random, tx, rx
      ensures Valid() && Here(outcomes) == Play(old(Here([])), attempts)
      ensures failures == Plus(old(failures), Tally(outcomes, Mismatch))
      ensures OneSocketAtATime(log) && InTurn(log) && |log| == 2 * |attempts|
    {
      outcomes, log := [], [];
      PlusNone(failures);
      ghost var start := Here([]);
      for n := 0 to |attempts|
        invariant Valid() && Here(outcomes) == Play(start, attempts[..n])
        invariant failures == Plus(old(failures), Tally(outcomes, Mismatch))
        invariant OneSocketAtATime(log) && Open(log) == 0 && |log| == 2 * n
      {
        var outcome;
        outcome, log := OnePass(attempts[n], outcomes, log);
        PlayNext(start, attempts, n);
        CountedNext(old(failures), outcomes, outcome, Mismatch);
        outcomes := outcomes + [outcome];
      }
      assert attempts[..|attempts|] == attempts;
      OneSocketInTurn(log);
    }
  }
}
