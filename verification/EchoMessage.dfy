/** The message of TCPEchoClient_SingleTasks.c and what its comparison of the reply can tell. */
module EchoMessage {
  import opened Words
  import opened CStrings
  import opened TxData

  const GREETING: string := "TxRx message number "

  function Header(number: Word): string {
    GREETING + Decimal(number)
  }

  /** The terminator that `sprintf` writes is part of what is transmitted. */
  function Message(len: nat, number: Word): (message: string)
    requires len >= MINIMUM_LENGTH
    ensures |message| == len
  {
    HeaderLength(number);
    Header(number) + [NUL] + Filler(len)[|Header(number)| + 1..]
  }

  /** The header always fits in the shortest message, with room for its terminator. */
  lemma HeaderLength(number: Word)
    ensures 21 <= |Header(number)| <= 30 < MINIMUM_LENGTH
    ensures Header(number)[..20] == "TxRx message number " && Header(number)[20..] == Decimal(number)
    ensures forall i: nat :: i < |Header(number)| ==> Header(number)[i] != NUL
  {
    WordDecimalLength(number);
    assert |GREETING| == 20;
    forall i: nat | i < |Header(number)|
      ensures Header(number)[i] != NUL
    {
      if i >= 20 {
        assert Header(number)[i] == Decimal(number)[i - 20];
      }
    }
  }

  /** Closed form: the header, a NUL, then the 79-character cycle. */
  lemma MessageClosedForm(len: nat, number: Word, i: nat)
    requires len >= MINIMUM_LENGTH && i < len
    ensures |Message(len, number)| == len
    ensures
      var h := |Header(number)|;
      Message(len, number)[i] == if i < h then Header(number)[i] else if i == h then '\0' else (48 + i % 79) as char
  {
    HeaderLength(number);
  }

  ghost function Window(number: Word, n: nat): nat {
    if n <= |Header(number)| then n else |Header(number)| + 1
  }

  /** Comparing any bytes with a message looks at the header and its terminator only. */
  lemma ComparisonWindow(received: string, len: nat, number: Word, n: nat)
    requires len >= MINIMUM_LENGTH && n <= len && n <= |received|
    ensures |Message(len, number)| == len
    ensures StrNCmpZero(received, Message(len, number), n)
       <==> AgreeUpTo(received, Message(len, number), Window(number, n))
  {
    var m, h := Message(len, number), |Header(number)|;
    HeaderLength(number);
    MessageClosedForm(len, number, 0);
    forall i: nat | i <= h
      ensures m[i] == if i < h then Header(number)[i] else NUL
    {
      MessageClosedForm(len, number, i);
    }
    StrNCmpWindow(received, m, n, h);
  }

  /** The receive buffer: the bytes received so far on a zero-filled background. */
  function Cleared(got: string, size: nat): (s: string)
    requires |got| <= size
    ensures |s| == size
  {
    got + seq(size - |got|, _ => NUL)
  }

  /** When the first R bytes of the message came back in order, the comparison over the T transmitted
      bytes succeeds exactly when R reaches the end of the header or of what was transmitted. */
  lemma EchoedPrefixVerdict(len: nat, number: Word, size: nat, transmitted: nat, r: nat)
    requires MINIMUM_LENGTH <= len <= size && transmitted <= len && r <= len
    ensures |Message(len, number)| == len
    ensures
      var h := |Header(number)|;
      StrNCmpZero(Cleared(Message(len, number)[..r], size), Message(len, number), transmitted)
      <==> r >= if transmitted <= h then transmitted else h
  {
    var m, h, w := Message(len, number), |Header(number)|, Window(number, transmitted);
    HeaderLength(number);
    MessageClosedForm(len, number, 0);
    var received := Cleared(m[..r], size);
    ComparisonWindow(received, len, number, transmitted);
    forall i: nat | i < w
      ensures received[i] == m[i] <==> i < r || i == h
    {
      MessageClosedForm(len, number, i);
    }
    if r < h && r < transmitted {
      assert received[r] != m[r];
    }
  }

  /** The comparison vouches for every transmitted byte exactly when nothing was transmitted beyond the
      header's terminator; past it, corrupted bytes go unnoticed. */
  lemma ComparisonCoversAll(len: nat, number: Word, transmitted: nat)
    requires len >= MINIMUM_LENGTH && transmitted <= len
    ensures |Message(len, number)| == len
    ensures
      (forall received: string :: |received| == len && StrNCmpZero(received, Message(len, number), transmitted) ==>
        AgreeUpTo(received, Message(len, number), transmitted))
      <==> transmitted <= |Header(number)| + 1
  {
    var m, h := Message(len, number), |Header(number)|;
    HeaderLength(number);
    MessageClosedForm(len, number, 0);
    if transmitted <= h + 1 {
      forall received: string | |received| == len && StrNCmpZero(received, m, transmitted)
        ensures AgreeUpTo(received, m, transmitted)
      {
        ComparisonWindow(received, len, number, transmitted);
      }
    } else {
      MessageClosedForm(len, number, h + 1);
      var received := m[h + 1 := NUL];
      ComparisonWindow(received, len, number, transmitted);
      assert received[h + 1] != m[h + 1];
      assert StrNCmpZero(received, m, transmitted) && !AgreeUpTo(received, m, transmitted);
    }
  }

  /** Comparing beyond the header tells any two different message numbers apart, whatever the lengths. */
  lemma NumbersToldApart(len: nat, number: Word, len': nat, number': Word, n: nat)
    requires len >= MINIMUM_LENGTH && len' >= MINIMUM_LENGTH
    requires |Header(number)| < n <= len && n <= len'
    ensures |Message(len, number)| == len && |Message(len', number')| == len'
    ensures StrNCmpZero(Message(len', number'), Message(len, number), n) ==> number' == number
  {
    var m, m' := Message(len, number), Message(len', number');
    var h, h' := |Header(number)|, |Header(number')|;
    HeaderLength(number);
    HeaderLength(number');
    ComparisonWindow(m', len, number, n);
    MessageClosedForm(len', number', 0);
    if StrNCmpZero(m', m, n) {
      forall i: nat | i <= h
        ensures m'[i] == if i < h then Header(number)[i] else NUL
      {
        MessageClosedForm(len, number, i);
      }
      MessageClosedForm(len', number', h);
      assert h' <= h;
      if h' < h {
        MessageClosedForm(len', number', h');
        assert false;
      }
      forall i: nat | i < h
        ensures Header(number')[i] == Header(number)[i]
      {
        MessageClosedForm(len', number', i);
      }
      assert Header(number') == Header(number);
      assert Decimal(number') == Header(number')[20..] == Header(number)[20..] == Decimal(number);
      DecimalInjective(number', number);
    }
  }
}
