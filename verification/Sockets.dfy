/** Socket lifetimes: what the tasks create and close, in order. */
module Sockets {

  datatype SocketEvent = Created | Closed

  /** Sockets open after the events. */
  function Open(log: seq<SocketEvent>): int
    decreases |log|
  {
    if log == [] then 0
    else Open(log[..|log| - 1]) + if log[|log| - 1] == Created then 1 else -1
  }

  /** No socket is closed twice and none is created before the previous one is closed. */
  ghost predicate OneSocketAtATime(log: seq<SocketEvent>) {
    forall n: nat :: n <= |log| ==> 0 <= Open(log[..n]) <= 1
  }

  lemma OneSocketSnoc(log: seq<SocketEvent>, e: SocketEvent)
    requires OneSocketAtATime(log)
    requires e == if Open(log) == 0 then Created else Closed
    ensures OneSocketAtATime(log + [e]) && Open(log + [e]) == 1 - Open(log)
  {
    var longer := log + [e];
    assert log[..|log|] == log;
    assert longer[..|log|] == log;
    forall n: nat | n <= |longer|
      ensures 0 <= Open(longer[..n]) <= 1
    {
      if n <= |log| {
        assert longer[..n] == log[..n];
      } else {
        assert longer[..n] == longer;
      }
    }
  }

  /** Sockets are created and closed in turn. */
  ghost predicate InTurn(log: seq<SocketEvent>) {
    forall i: nat :: i < |log| ==> log[i] == if i % 2 == 0 then Created else Closed
  }

  /** Never more than one socket open is the same as creating and closing in turn. */
  lemma {:induction false} OneSocketInTurn(log: seq<SocketEvent>)
    ensures OneSocketAtATime(log) <==> InTurn(log)
    ensures OneSocketAtATime(log) ==> Open(log) == |log| % 2
    decreases |log|
  {
    assert log[..|log|] == log;
    if log == [] {
    } else {
      var before := log[..|log| - 1];
      OneSocketInTurn(before);
      assert forall n: nat :: n <= |before| ==> log[..n] == before[..n];
      assert OneSocketAtATime(log) ==> OneSocketAtATime(before);
    }
  }
}
