/** The heartbeat task of tcp_heartbeat_demo.c over whole runs with reconnects. */
module Heartbeat {
  import opened Words
  import opened CStrings
  import opened Transfers
  import opened Sockets

  const TX_BUFFER: nat := 64
  const PREFIX: string := "HEARTBEAT "
  const ENDING: string := "\r\n"

  function Line(n: Word): string {
    PREFIX + Decimal(n) + ENDING
  }

  /** `snprintf` into 64 bytes never truncates a heartbeat. */
  lemma LineFits(n: Word)
    ensures 13 <= |Line(n)| <= 22 < TX_BUFFER
  {
    WordDecimalLength(n);
    assert |PREFIX| == 10 && |ENDING| == 2;
  }

  function Stream(numbers: seq<Word>): string {
    if numbers == [] then "" else Line(numbers[0]) + Stream(numbers[1..])
  }

  // ----- Decoding -----

  predicate IsDigit(c: char) {
    '0' <= c <= '9'
  }

  function LeadingDigits(s: string): (n: nat)
    ensures n <= |s|
  {
    if s == "" || !IsDigit(s[0]) then 0 else 1 + LeadingDigits(s[1..])
  }

  lemma {:induction false} DigitsThen(d: string, t: string)
    requires forall i: nat :: i < |d| ==> IsDigit(d[i])
    requires t != "" && !IsDigit(t[0])
    ensures LeadingDigits(d + t) == |d|
  {
    if d == "" {
      assert d + t == t;
    } else {
      assert (d + t)[1..] == d[1..] + t;
      DigitsThen(d[1..], t);
    }
  }

  datatype Decoded = NotHeartbeats | Numbers(numbers: seq<int>)

  /** Length of the heartbeat line at the front of `s`, or 0 if there is none. */
  function FirstLine(s: string): (n: nat)
    ensures n <= |s|
    ensures n > 0 ==> n >= 13
  {
    if PREFIX <= s then
      var digits := LeadingDigits(s[10..]);
      if digits >= 1 && ENDING <= s[10 + digits..] then 12 + digits else 0
    else 0
  }

  function Decode(s: string): Decoded {
    if s == "" then Numbers([])
    else if FirstLine(s) == 0 then NotHeartbeats
    else match Decode(s[FirstLine(s)..])
      case NotHeartbeats => NotHeartbeats
      case Numbers(rest) => Numbers([Value(s[10..FirstLine(s) - 2])] + rest)
  }

  lemma FirstLineOf(n: Word, rest: string)
    ensures FirstLine(Line(n) + rest) == |Line(n)|
    ensures (Line(n) + rest)[10..|Line(n)| - 2] == Decimal(n)
  {
    var s, d := Line(n) + rest, Decimal(n);
    assert |PREFIX| == 10 && |ENDING| == 2;
    assert s[..10] == PREFIX;
    assert s[10..] == d + (ENDING + rest);
    DigitsThen(d, ENDING + rest);
    assert s[10 + |d|..] == ENDING + rest;
    assert (ENDING + rest)[..2] == ENDING;
  }

  lemma DecodeFirst(s: string, k: nat, n: int, numbers: seq<int>)
    requires k > 0 && FirstLine(s) == k && Value(s[10..k - 2]) == n
    requires Decode(s[k..]) == Numbers(numbers)
    ensures Decode(s) == Numbers([n] + numbers)
  {
  }

  lemma DecodeLine(n: Word, rest: string, numbers: seq<int>)
    requires Decode(rest) == Numbers(numbers)
    ensures Decode(Line(n) + rest) == Numbers([n] + numbers)
  {
    LineFits(n);
    FirstLineOf(n, rest);
    ValueOfDecimal(n);
    assert (Line(n) + rest)[|Line(n)|..] == rest;
    DecodeFirst(Line(n) + rest, |Line(n)|, n, numbers);
  }

  /** A stream of whole heartbeats decodes to exactly its numbers, so no two number sequences share one. */
  lemma {:induction false} DecodeStream(numbers: seq<Word>)
    ensures Decode(Stream(numbers)) == Numbers(numbers)
  {
    if numbers == [] {
    } else {
      DecodeStream(numbers[1..]);
      DecodeLine(numbers[0], Stream(numbers[1..]), numbers[1..]);
      assert [numbers[0] as int] + numbers[1..] == numbers;
    }
  }

  // ----- Only whole heartbeats decode to their numbers -----

  lemma {:induction false} LeadingDigitsAreDigits(s: string, i: nat)
    requires i < LeadingDigits(s)
    ensures IsDigit(s[i])
  {
    if i == 0 {
    } else {
      LeadingDigitsAreDigits(s[1..], i - 1);
    }
  }

  /** A line that is read as a number is at least as long as that number's heartbeat. */
  lemma FirstLineNoShorter(s: string, n: Word)
    requires FirstLine(s) > 0 && Value(s[10..FirstLine(s) - 2]) == n
    ensures FirstLine(s) >= |Line(n)|
  {
    var d := s[10..FirstLine(s) - 2];
    assert |PREFIX| == 10 && |ENDING| == 2;
    forall i: nat | i < |d|
      ensures '0' <= d[i] <= '9'
    {
      LeadingDigitsAreDigits(s[10..], i);
      assert d[i] == s[10..][i];
    }
    DecimalShortest(d);
  }

  lemma {:induction false} DecodedNoShorter(s: string, numbers: seq<Word>)
    requires Decode(s) == Numbers(numbers)
    ensures |s| >= |Stream(numbers)|
    decreases |numbers|
  {
    if s == "" {
    } else {
      var k := FirstLine(s);
      var rest := Decode(s[k..]).numbers;
      assert numbers[0] == Value(s[10..k - 2]) && numbers[1..] == rest;
      FirstLineNoShorter(s, numbers[0]);
      DecodedNoShorter(s[k..], numbers[1..]);
    }
  }

  // ----- One connection -----

  /** Sends accepted before the first failure. */
  function Accepted(sends: seq<int>): (n: nat)
    ensures n <= |sends|
  {
    if sends == [] || sends[0] < 0 then 0 else 1 + Accepted(sends[1..])
  }

  lemma {:induction false} BeforeFailure(sends: seq<int>, i: nat)
    requires i <= Accepted(sends)
    ensures i < Accepted(sends) ==> sends[i] >= 0
    ensures i == Accepted(sends) && i < |sends| ==> sends[i] < 0
  {
    if i == 0 {
    } else {
      BeforeFailure(sends[1..], i - 1);
    }
  }

  /** Numbers used by a connection: one for each accepted send and one for the failed send, if it came. */
  function Used(sends: seq<int>): nat {
    Accepted(sends) + if Accepted(sends) < |sends| then 1 else 0
  }

  function Number(index: nat): Word {
    index % TWO_32
  }

  /** `count` consecutive numbers from `index` on. */
  function Consecutive(index: nat, count: nat): (numbers: seq<Word>)
    ensures |numbers| == count
  {
    seq<Word>(count, i requires 0 <= i < count => Number(index + i))
  }

  function Lines(numbers: seq<Word>): (lines: seq<string>)
    ensures |lines| == |numbers|
  {
    seq(|numbers|, i requires 0 <= i < |numbers| => Line(numbers[i]))
  }

  lemma SendsAccepted(sends: seq<int>)
    ensures forall i: nat :: i < Accepted(sends) ==> sends[i] >= 0
  {
    forall i: nat | i < Accepted(sends)
      ensures sends[i] >= 0
    {
      BeforeFailure(sends, i);
    }
  }

  /** The bytes accepted by the first `n` sends. */
  ghost function Sent(index: nat, sends: seq<int>, n: nat): string
    requires n <= Accepted(sends)
  {
    SendsAccepted(sends);
    JoinedCuts(Lines(Consecutive(index, n)), sends)
  }

  lemma SentSnoc(index: nat, sends: seq<int>, n: nat)
    requires n < Accepted(sends)
    ensures sends[n] >= 0
    ensures Sent(index, sends, n + 1) == Sent(index, sends, n) + Cut(Line(Number(index + n)), sends[n])
  {
    SendsAccepted(sends);
    assert Lines(Consecutive(index, n + 1))[..n] == Lines(Consecutive(index, n));
  }

  lemma {:induction false} StreamSnoc(numbers: seq<Word>, n: Word)
    ensures Stream(numbers + [n]) == Stream(numbers) + Line(n)
  {
    if numbers == [] {
      assert [n][1..] == [];
    } else {
      assert (numbers + [n])[1..] == numbers[1..] + [n];
      StreamSnoc(numbers[1..], n);
    }
  }

  ghost predicate TookWholeLine(index: nat, sends: seq<int>, i: nat)
    requires i < |sends|
  {
    sends[i] >= |Line(Number(index + i))|
  }

  lemma ConsecutiveAt(index: nat, count: nat, k: nat)
    requires k < count
    ensures Consecutive(index, count)[k] == Number(index + k)
  {
  }

  lemma ConsecutiveSnoc(index: nat, count: nat)
    ensures Consecutive(index, count + 1) == Consecutive(index, count) + [Number(index + count)]
  {
  }

  lemma {:induction false} StreamIsJoined(numbers: seq<Word>)
    ensures Stream(numbers) == Joined(Lines(numbers))
    decreases |numbers|
  {
    if numbers == [] {
    } else {
      var before, last := numbers[..|numbers| - 1], numbers[|numbers| - 1];
      StreamIsJoined(before);
      StreamSnoc(before, last);
      assert before + [last] == numbers;
      assert Lines(numbers)[..|before|] == Lines(before);
    }
  }

  ghost predicate TookWholeLines(index: nat, sends: seq<int>, n: nat)
    requires n <= |sends|
  {
    forall i: nat :: i < n ==> TookWholeLine(index, sends, i)
  }

  /** The accepted bytes are the whole heartbeats exactly when every accepted send took its whole line. */
  lemma SentWholeExactly(index: nat, sends: seq<int>, n: nat)
    requires n <= Accepted(sends)
    ensures Sent(index, sends, n) == Stream(Consecutive(index, n))
       <==> TookWholeLines(index, sends, n)
  {
    SendsAccepted(sends);
    CutsWhole(Lines(Consecutive(index, n)), sends);
    StreamIsJoined(Consecutive(index, n));
    TookEachLine(index, sends, n);
  }

  lemma SentNoLonger(index: nat, sends: seq<int>, n: nat)
    requires n <= Accepted(sends)
    ensures |Sent(index, sends, n)| <= |Stream(Consecutive(index, n))|
    ensures |Sent(index, sends, n)| == |Stream(Consecutive(index, n))| ==>
      Sent(index, sends, n) == Stream(Consecutive(index, n))
  {
    SendsAccepted(sends);
    CutsNoLonger(Lines(Consecutive(index, n)), sends);
    StreamIsJoined(Consecutive(index, n));
  }

  lemma SentDecodes(index: nat, sends: seq<int>, n: nat)
    requires n <= Accepted(sends)
    ensures Decode(Sent(index, sends, n)) == Numbers(Consecutive(index, n))
       <==> TookWholeLines(index, sends, n)
  {
    SentWholeExactly(index, sends, n);
    SentNoLonger(index, sends, n);
    DecodeStream(Consecutive(index, n));
    if Decode(Sent(index, sends, n)) == Numbers(Consecutive(index, n)) {
      DecodedNoShorter(Sent(index, sends, n), Consecutive(index, n));
    }
  }

  lemma TookEachLine(index: nat, sends: seq<int>, n: nat)
    requires n <= |sends|
    ensures (forall i: nat :: i < n ==> sends[i] >= |Lines(Consecutive(index, n))[i]|)
       <==> TookWholeLines(index, sends, n)
  {
    var lines := Lines(Consecutive(index, n));
    forall i: nat | i < n
      ensures sends[i] >= |lines[i]| <==> TookWholeLine(index, sends, i)
    {
      ConsecutiveAt(index, n, i);
    }
  }

  // ----- Whole runs -----

  /** One pass of the outer loop. */
  datatype Attempt = NoSocket | ConnectFails | Connects(sends: seq<int>)

  /** What one connection carried. */
  datatype Connection = Connection(numbers: seq<Word>, bytes: string)

  /** Numbers used up by the first `n` attempts. */
  function UsedBefore(attempts: seq<Attempt>, n: nat): nat
    requires n <= |attempts|
  {
    if n == 0 then 0 else
      UsedBefore(attempts, n - 1)
      + match attempts[n - 1]
        case Connects(sends) => Used(sends)
        case _ => 0
  }

  /** What attempt `n` carries, given how many numbers earlier attempts used. */
  ghost function CarriedBy(attempts: seq<Attempt>, n: nat): Connection
    requires n < |attempts|
  {
    match attempts[n]
    case Connects(sends) =>
      var index := UsedBefore(attempts, n);
      Connection(Consecutive(index, Accepted(sends)), Sent(index, sends, Accepted(sends)))
    case _ => Connection([], "")
  }

  ghost predicate AllCarried(attempts: seq<Attempt>, carried: seq<Connection>)
    requires |carried| <= |attempts|
  {
    forall n: nat :: n < |carried| ==> carried[n] == CarriedBy(attempts, n)
  }

  lemma CarriedSnoc(attempts: seq<Attempt>, carried: seq<Connection>, c: Connection)
    requires |carried| < |attempts| && AllCarried(attempts, carried) && c == CarriedBy(attempts, |carried|)
    ensures AllCarried(attempts, carried + [c])
  {
  }

  /** A connection's bytes decode to its numbers exactly when every accepted send took its whole line. */
  lemma CarriedDecodes(attempts: seq<Attempt>, n: nat)
    requires n < |attempts| && attempts[n].Connects?
    ensures Decode(CarriedBy(attempts, n).bytes) == Numbers(CarriedBy(attempts, n).numbers)
       <==> TookWholeLines(UsedBefore(attempts, n), attempts[n].sends, Accepted(attempts[n].sends))
  {
    SentDecodes(UsedBefore(attempts, n), attempts[n].sends, Accepted(attempts[n].sends));
  }

  /** From one connection to the next exactly one number goes missing, the one whose send failed: the first
      number carried by the later is two more than the last carried by the earlier.  Attempts that never
      connect use none. */
  lemma OneNumberSkipped(attempts: seq<Attempt>, i: nat, j: nat)
    requires i < j < |attempts| && attempts[i].Connects? && attempts[j].Connects?
    requires forall k: nat :: i < k < j ==> !attempts[k].Connects?
    requires Accepted(attempts[i].sends) < |attempts[i].sends|
    ensures UsedBefore(attempts, j) == UsedBefore(attempts, i) + |CarriedBy(attempts, i).numbers| + 1
    ensures
      var earlier, later := CarriedBy(attempts, i).numbers, CarriedBy(attempts, j).numbers;
      earlier != [] && later != [] ==> later[0] == (earlier[|earlier| - 1] + 2) % TWO_32
  {
    UnusedBetween(attempts, i + 1, j);
    LastAndFirst(UsedBefore(attempts, i), Accepted(attempts[i].sends), Accepted(attempts[j].sends));
  }

  lemma LastAndFirst(index: nat, count: nat, count': nat)
    ensures count > 0 && count' > 0 ==>
      Consecutive(index + count + 1, count')[0] == (Consecutive(index, count)[count - 1] + 2) % TWO_32
  {
    if count > 0 && count' > 0 {
      ConsecutiveAt(index, count, count - 1);
      ConsecutiveAt(index + count + 1, count', 0);
      TwoOn(index + count - 1);
    }
  }

  lemma TwoOn(index: nat)
    ensures (Number(index) + 2) % TWO_32 == Number(index + 2)
  {
    ModAddMultiple(index % TWO_32 + 2, TWO_32, index / TWO_32);
  }

  lemma {:induction false} UnusedBetween(attempts: seq<Attempt>, i: nat, j: nat)
    requires i <= j <= |attempts|
    requires forall k: nat :: i <= k < j ==> !attempts[k].Connects?
    ensures UsedBefore(attempts, i) == UsedBefore(attempts, j)
  {
    if i == j {
    } else {
      UnusedBetween(attempts, i, j - 1);
    }
  }

  lemma {:induction false} UsedGrows(attempts: seq<Attempt>, i: nat, j: nat)
    requires i <= j <= |attempts|
    ensures UsedBefore(attempts, i) <= UsedBefore(attempts, j)
  {
    if i == j {
    } else {
      UsedGrows(attempts, i, j - 1);
    }
  }

  /** Before the counter wraps, the k-th heartbeat accepted on a connection has the number of sends tried
      before it in the whole run. */
  lemma NumbersBeforeWrap(attempts: seq<Attempt>, n: nat, k: nat)
    requires n < |attempts| && attempts[n].Connects? && k < Accepted(attempts[n].sends)
    requires UsedBefore(attempts, |attempts|) <= TWO_32
    ensures CarriedBy(attempts, n).numbers[k] == UsedBefore(attempts, n) + k
  {
    UsedGrows(attempts, n + 1, |attempts|);
    assert UsedBefore(attempts, n + 1) == UsedBefore(attempts, n) + Used(attempts[n].sends);
    SmallMod(UsedBefore(attempts, n) + k, TWO_32);
    ConsecutiveAt(UsedBefore(attempts, n), Accepted(attempts[n].sends), k);
  }

  /** Whether an attempt is over: a connection is, once a send has failed. */
  predicate Ended(attempt: Attempt) {
    attempt.Connects? ==> Accepted(attempt.sends) < |attempt.sends|
  }

  /** Attempts before the first that is not over. */
  function Over(attempts: seq<Attempt>): (n: nat)
    ensures n <= |attempts|
  {
    if attempts == [] || !Ended(attempts[0]) then 0 else 1 + Over(attempts[1..])
  }

  lemma {:induction false} BeforeOver(attempts: seq<Attempt>, i: nat)
    requires i <= Over(attempts)
    ensures i < |attempts| ==> (Ended(attempts[i]) <==> i < Over(attempts))
  {
    if i == 0 {
    } else {
      BeforeOver(attempts[1..], i - 1);
    }
  }

  /** What the first `n` heartbeats of a connection carried. */
  ghost predicate CarriedSoFar(numbers: seq<Word>, bytes: string, index: nat, sends: seq<int>, n: nat)
    requires n <= Accepted(sends)
  {
    numbers == Consecutive(index, n) && bytes == Sent(index, sends, n)
  }

  lemma CarriedNext(numbers: seq<Word>, bytes: string, index: nat, sends: seq<int>, n: nat)
    requires n < Accepted(sends) && sends[n] >= 0 && CarriedSoFar(numbers, bytes, index, sends, n)
    ensures
      var number := Number(index + n);
      CarriedSoFar(numbers + [number], bytes + Cut(Line(number), sends[n]), index, sends, n + 1)
  {
    ConsecutiveSnoc(index, n);
    SentSnoc(index, sends, n);
  }

  class Task {
    const cTxBuffer: array<char>
    var counter: Word

    constructor ()
      ensures fresh(cTxBuffer) && cTxBuffer.Length == TX_BUFFER && counter == 0
    {
      cTxBuffer := new char[TX_BUFFER](_ => NUL);
      counter := 0;
    }

    /** Prints the current number and moves on to the next, wrapping. */
    method NextLine() returns (len: nat)
      requires cTxBuffer.Length == TX_BUFFER
      modifies this, cTxBuffer
      ensures len < TX_BUFFER && cTxBuffer[..len] == Line(old(counter))
      ensures cTxBuffer[..len] == "HEARTBEAT " + Decimal(old(counter)) + "\r\n"
      ensures counter == (old(counter) + 1) % TWO_32
    {
      LineFits(counter);
      var text := Line(counter);
      len := |text|;
      forall i | 0 <= i < len {
        cTxBuffer[i] := text[i];
      }
      cTxBuffer[len] := NUL;
      counter := (counter + 1) % TWO_32;
    }

    /** One heartbeat: prints the line and sends it; a negative result means that it failed. */
    method SendLine(result: int) returns (number: Word, accepted: string)
      requires cTxBuffer.Length == TX_BUFFER
      modifies this, cTxBuffer
      ensures number == old(counter) && counter == (old(counter) + 1) % TWO_32
      ensures result >= 0 ==> accepted == Cut(Line(number), result)
    {
      number, accepted := counter, "";
      var len := NextLine();
      if result >= 0 {
        accepted := Cut(cTxBuffer[..len], result);
      }
    }

    /** The heartbeat loop of one connection. */
    method Beat(sends: seq<int>, ghost index: nat) returns (numbers: seq<Word>, bytes: string, failed: bool)
      requires cTxBuffer.Length == TX_BUFFER && counter == Number(index)
      modifies this, cTxBuffer
      ensures CarriedSoFar(numbers, bytes, index, sends, Accepted(sends))
      ensures counter == Number(index + Used(sends))
      ensures failed == (Accepted(sends) < |sends|)
    {
      numbers, bytes, failed := [], "", false;
      var i := 0;
      while i < |sends|
        invariant i <= Accepted(sends) && !failed
        invariant counter == Number(index + i)
        invariant CarriedSoFar(numbers, bytes, index, sends, i)
      {
        BeforeFailure(sends, i);
        var number, accepted := SendLine(sends[i]);
        NextNumber(index + i);
        if sends[i] < 0 {
          failed := true;
          return;
        }
        CarriedNext(numbers, bytes, index, sends, i);
        numbers, bytes := numbers + [number], bytes + accepted;
        i := i + 1;
      }
      BeforeFailure(sends, i);
    }

    /** One pass of the outer loop.  The socket is created first and closed in two places: after a connect
        that failed, and after the heartbeat loop. */
    method Once(attempts: seq<Attempt>, n: nat, sockets: seq<SocketEvent>)
      returns (c: Connection, over: bool, log: seq<SocketEvent>)
      requires cTxBuffer.Length == TX_BUFFER
      requires n < |attempts| && counter == Number(UsedBefore(attempts, n))
      requires OneSocketAtATime(sockets) && Open(sockets) == 0
      modifies this, cTxBuffer
      ensures c == CarriedBy(attempts, n) && counter == Number(UsedBefore(attempts, n + 1))
      ensures over == Ended(attempts[n])
      ensures OneSocketAtATime(log) && Open(log) == if over then 0 else 1
    {
      c, over, log := Connection([], ""), true, sockets;
      if attempts[n].NoSocket? {
        return;
      }
      OneSocketSnoc(log, Created);
      log := log + [Created];
      if attempts[n].ConnectFails? {
        OneSocketSnoc(log, Closed);
        log := log + [Closed];
        return;
      }
      var numbers, bytes;
      numbers, bytes, over := Beat(attempts[n].sends, UsedBefore(attempts, n));
      c := Connection(numbers, bytes);
      if over {
        OneSocketSnoc(log, Closed);
        log := log + [Closed];
      }
    }

    /** The heartbeat task over any run: what each attempt carries, and sockets that never overlap.  A
        connection whose sends have all succeeded so far is still open, and the last. */
    method Run(attempts: seq<Attempt>) returns (carried: seq<Connection>, log: seq<SocketEvent>)
      requires cTxBuffer.Length == TX_BUFFER && counter == 0
      modifies this, cTxBuffer
      ensures |carried| == if Over(attempts) < |attempts| then Over(attempts) + 1 else Over(attempts)
      ensures AllCarried(attempts, carried)
      ensures counter == Number(UsedBefore(attempts, |carried|))
      ensures OneSocketAtATime(log) && InTurn(log)
      ensures Open(log) == if Over(attempts) < |attempts| then 1 else 0
    {
      carried, log := [], [];
      var n := 0;
      while n < |attempts|
        invariant |carried| == n <= Over(attempts) && AllCarried(attempts, carried)
        invariant counter == Number(UsedBefore(attempts, n))
        invariant OneSocketAtATime(log) && Open(log) == 0
      {
        BeforeOver(attempts, n);
        var c, over;
        c, over, log := Once(attempts, n, log);
        CarriedSnoc(attempts, carried, c);
        carried := carried + [c];
        if !over {
          OneSocketInTurn(log);
          return;
        }
        n := n + 1;
      }
      OneSocketInTurn(log);
    }
  }

  lemma NextNumber(index: nat)
    ensures (Number(index) + 1) % TWO_32 == Number(index + 1)
  {
    ModAddMultiple(index % TWO_32 + 1, TWO_32, index / TWO_32);
  }
}
