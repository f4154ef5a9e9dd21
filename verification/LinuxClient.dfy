/** The `select` loop of linux/tcp_client.c, the echo server's peer. */
module LinuxClient {
  import opened Transfers
  import opened EchoCalls

  const BUF_SIZE: nat := 512

  /** A descriptor after `select`: not ready, ready with nothing to read (end or error), or with bytes. */
  datatype Input = NotReady | Ended | Brings(bytes: string)

  datatype Pass = SelectFailed | Selected(socket: Input, terminal: Input, accepted: nat)

  /** At most `CLIENT_CHUNK` bytes are taken by one call. */
  function Taken(input: Input): string {
    match input
    case Brings(bytes) => Cut(bytes, CLIENT_CHUNK)
    case _ => ""
  }

  predicate Stops(pass: Pass) {
    pass.SelectFailed? || pass.socket == Ended || pass.socket == Brings("")
  }

  /** Passes until the connection is given up. */
  function Rounds(passes: seq<Pass>): (n: nat)
    ensures n <= |passes|
  {
    if passes == [] || Stops(passes[0]) then 0 else 1 + Rounds(passes[1..])
  }

  function Made(passes: seq<Pass>): (made: seq<Pass>)
    ensures |made| == Rounds(passes)
  {
    passes[..Rounds(passes)]
  }

  lemma {:induction false} BeforeRounds(passes: seq<Pass>, i: nat)
    requires i <= Rounds(passes)
    ensures i < Rounds(passes) ==> !Stops(passes[i])
    ensures i == Rounds(passes) && i < |passes| ==> Stops(passes[i])
  {
    if i == 0 {
    } else {
      BeforeRounds(passes[1..], i - 1);
    }
  }

  lemma {:induction false} AllMade(passes: seq<Pass>)
    requires forall i: nat :: i < |passes| ==> !Stops(passes[i])
    ensures Made(passes) == passes
  {
    if passes == [] {
    } else {
      assert !Stops(passes[0]);
      AllMade(passes[1..]);
    }
  }

  /** What one pass reads off the socket and the terminal, and what its send takes. */
  function GotIn(pass: Pass): string {
    if pass.Selected? then Taken(pass.socket) else ""
  }

  function TypedIn(pass: Pass): string {
    if pass.Selected? then Taken(pass.terminal) else ""
  }

  function SentIn(pass: Pass): string {
    if pass.Selected? then Cut(TypedIn(pass), pass.accepted) else ""
  }

  // ----- The socket calls of the loop -----

  function WithGot(calls: seq<Call>, pass: Pass): seq<Call> {
    if |GotIn(pass)| > 0 then calls + [ClientGot(GotIn(pass))] else calls
  }

  function WithSent(calls: seq<Call>, pass: Pass): seq<Call> {
    if |TypedIn(pass)| > 0 then calls + [ClientSent(TypedIn(pass), SentIn(pass))] else calls
  }

  /** The socket is looked at first, then the terminal. */
  function CallsOf(passes: seq<Pass>): seq<Call>
    decreases |passes|
  {
    if passes == [] then []
    else
      var pass := passes[|passes| - 1];
      WithSent(WithGot(CallsOf(passes[..|passes| - 1]), pass), pass)
  }

  lemma {:induction false} CallsProper(passes: seq<Pass>)
    ensures Proper(CallsOf(passes)) && Pending(CallsOf(passes)) == ""
    decreases |passes|
  {
    if passes == [] {
    } else {
      var earlier, pass := CallsOf(passes[..|passes| - 1]), passes[|passes| - 1];
      CallsProper(passes[..|passes| - 1]);
      GotProper(earlier, pass);
      SentProper(WithGot(earlier, pass), pass);
    }
  }

  lemma GotProper(calls: seq<Call>, pass: Pass)
    requires Proper(calls) && Pending(calls) == ""
    ensures Proper(WithGot(calls, pass)) && Pending(WithGot(calls, pass)) == ""
  {
    ProperSnoc(calls, ClientGot(GotIn(pass)));
  }

  lemma SentProper(calls: seq<Call>, pass: Pass)
    requires Proper(calls) && Pending(calls) == ""
    ensures Proper(WithSent(calls, pass)) && Pending(WithSent(calls, pass)) == ""
  {
    ProperSnoc(calls, ClientSent(TypedIn(pass), SentIn(pass)));
  }

  lemma GotMoves(calls: seq<Call>, pass: Pass)
    ensures Total(WithGot(calls, pass)).got == Total(calls).got + GotIn(pass)
  {
    TotalSnoc(calls, ClientGot(GotIn(pass)));
  }

  lemma SentMoves(calls: seq<Call>, pass: Pass)
    ensures Total(WithSent(calls, pass)).got == Total(calls).got
  {
    TotalSnoc(calls, ClientSent(TypedIn(pass), SentIn(pass)));
  }

  /** Whatever the terminal holds, a socket that is ready with bytes gives up to 511 of them. */
  lemma ReadySocketIsRead(calls: seq<Call>, bytes: string, terminal: Input, accepted: nat)
    requires |bytes| > 0
    ensures WithGot(calls, Selected(Brings(bytes), terminal, accepted))
         == calls + [ClientGot(if |bytes| <= 511 then bytes else bytes[..511])]
    ensures WithGot(calls, Selected(NotReady, terminal, accepted)) == calls
  {
    var pass := Selected(Brings(bytes), terminal, accepted);
    assert GotIn(pass) == if |bytes| <= 511 then bytes else bytes[..511];
  }

  /** Whatever the socket holds, up to 511 typed bytes are sent, of which some prefix is accepted; a terminal
      with nothing to read sends nothing. */
  lemma ReadyTerminalIsSent(calls: seq<Call>, line: string, socket: Input, accepted: nat)
    requires |line| > 0
    ensures
      var read := if |line| <= 511 then line else line[..511];
      WithSent(calls, Selected(socket, Brings(line), accepted))
      == calls + [ClientSent(read, if accepted <= |read| then read[..accepted] else read)]
    ensures WithSent(calls, Selected(socket, NotReady, accepted)) == calls
    ensures WithSent(calls, Selected(socket, Ended, accepted)) == calls
    ensures WithSent(calls, Selected(socket, Brings(""), accepted)) == calls
  {
    var pass := Selected(socket, Brings(line), accepted);
    var read := if |line| <= 511 then line else line[..511];
    assert TypedIn(pass) == read;
    assert SentIn(pass) == if accepted <= |read| then read[..accepted] else read;
  }

  method Fill(buffer: array<char>, input: Input) returns (n: nat)
    requires buffer.Length == BUF_SIZE
    modifies buffer
    ensures n == |Taken(input)| && buffer[..n] == Taken(input)
  {
    var data := Taken(input);
    n := |data|;
    forall i | 0 <= i < n {
      buffer[i] := data[i];
    }
  }

  /** One pass of the loop.  The received chunk is read out of the shared buffer before a typed line
      overwrites it, and the line is sent as it was read. */
  method OnePass(buffer: array<char>, pass: Pass, calls: seq<Call>)
    returns (stopped: bool, received: string, longer: seq<Call>)
    requires buffer.Length == BUF_SIZE
    modifies buffer
    ensures stopped == Stops(pass)
    ensures stopped <==> pass.SelectFailed? || pass.socket == Ended || pass.socket == Brings("")
    ensures !stopped ==> received == GotIn(pass) && longer == WithSent(WithGot(calls, pass), pass)
    ensures stopped ==> received == "" && longer == calls
  {
    stopped, received, longer := pass.SelectFailed?, "", calls;
    if stopped {
      return;
    }
    if pass.socket != NotReady {
      var n := Fill(buffer, pass.socket);
      if n <= 0 {
        stopped := true;
        return;
      }
      buffer[n] := '\0';
      received := buffer[..n];
      longer := longer + [ClientGot(received)];
    }
    if pass.terminal != NotReady {
      var n := Fill(buffer, pass.terminal);
      if n > 0 {
        longer := longer + [ClientSent(buffer[..n], Cut(buffer[..n], pass.accepted))];
      }
    }
  }

  /** The loop makes the socket calls of its passes, up to the pass that stops it, and collects what they got. */
  method Run(passes: seq<Pass>) returns (got: string, calls: seq<Call>)
    ensures calls == CallsOf(Made(passes))
    ensures got == Total(calls).got
  {
    var buffer := new char[BUF_SIZE](_ => '\0');
    got, calls := "", [];
    var k := 0;
    while k < |passes|
      invariant k <= Rounds(passes)
      invariant calls == CallsOf(passes[..k]) && got == Total(calls).got
    {
      BeforeRounds(passes, k);
      var stopped, received, longer := OnePass(buffer, passes[k], calls);
      if stopped {
        return;
      }
      GotMoves(calls, passes[k]);
      SentMoves(WithGot(calls, passes[k]), passes[k]);
      CallsOfNext(passes, k);
      got, calls := got + received, longer;
      k := k + 1;
    }
    BeforeRounds(passes, k);
  }

  lemma CallsOfNext(passes: seq<Pass>, k: nat)
    requires k < |passes|
    ensures CallsOf(passes[..k + 1]) == WithSent(WithGot(CallsOf(passes[..k]), passes[k]), passes[k])
  {
    assert passes[..k + 1][..k] == passes[..k];
  }
}
