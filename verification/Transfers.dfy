/** Pieces of byte streams: what one call moves, and keeping a prefix of each piece. */
module Transfers {

  function Cut(s: string, limit: nat): (r: string)
    ensures r <= s && |r| <= limit
  {
    s[..if |s| <= limit then |s| else limit]
  }

  /** `a` can be had from `b` by dropping characters. */
  ghost predicate Subsequence(a: string, b: string)
    decreases |b|
  {
    if a == "" then true
    else if b == "" then false
    else (a[|a| - 1] == b[|b| - 1] && Subsequence(a[..|a| - 1], b[..|b| - 1])) || Subsequence(a, b[..|b| - 1])
  }

  lemma {:induction false} SubsequenceAppendSame(a: string, b: string, s: string)
    requires Subsequence(a, b)
    ensures Subsequence(a + s, b + s)
    decreases |s|
  {
    if s == "" {
      assert a + s == a && b + s == b;
    } else {
      SubsequenceAppendSame(a, b, s[..|s| - 1]);
      assert (a + s)[..|a + s| - 1] == a + s[..|s| - 1];
      assert (b + s)[..|b + s| - 1] == b + s[..|s| - 1];
    }
  }

  lemma {:induction false} SubsequenceAppendRight(a: string, b: string, s: string)
    requires Subsequence(a, b)
    ensures Subsequence(a, b + s)
    decreases |s|
  {
    if s == "" {
      assert b + s == b;
    } else {
      SubsequenceAppendRight(a, b, s[..|s| - 1]);
      assert (b + s)[..|b + s| - 1] == b + s[..|s| - 1];
    }
  }

  /** Keeping a prefix of the next piece keeps the subsequence. */
  lemma SubsequencePiece(a: string, b: string, piece: string, k: nat)
    requires Subsequence(a, b) && k <= |piece|
    ensures Subsequence(a + piece[..k], b + piece)
  {
    SubsequenceAppendSame(a, b, piece[..k]);
    SubsequenceAppendRight(a + piece[..k], b + piece[..k], piece[k..]);
    assert b + piece[..k] + piece[k..] == b + piece;
  }

  lemma {:induction false} SubsequencePrefix(prefix: string, a: string, b: string)
    requires prefix <= a && Subsequence(a, b)
    ensures Subsequence(prefix, b)
    decreases |b|
  {
    if prefix == "" || prefix == a {
    } else if Subsequence(a, b[..|b| - 1]) {
      SubsequencePrefix(prefix, a, b[..|b| - 1]);
    } else {
      assert prefix <= a[..|a| - 1];
      SubsequencePrefix(prefix, a[..|a| - 1], b[..|b| - 1]);
    }
  }

  /** Pieces sent one after the other, each in full, or cut to what each send took. */
  ghost function Joined(pieces: seq<string>): string
    decreases |pieces|
  {
    if pieces == [] then "" else Joined(pieces[..|pieces| - 1]) + pieces[|pieces| - 1]
  }

  ghost function JoinedCuts(pieces: seq<string>, taken: seq<int>): string
    requires |pieces| <= |taken| && forall i: nat :: i < |pieces| ==> taken[i] >= 0
    decreases |pieces|
  {
    if pieces == [] then ""
    else
      var n := |pieces| - 1;
      JoinedCuts(pieces[..n], taken) + Cut(pieces[n], taken[n])
  }

  lemma {:induction false} CutsNoLonger(pieces: seq<string>, taken: seq<int>)
    requires |pieces| <= |taken| && forall i: nat :: i < |pieces| ==> taken[i] >= 0
    ensures |JoinedCuts(pieces, taken)| <= |Joined(pieces)|
    ensures |JoinedCuts(pieces, taken)| == |Joined(pieces)| ==> JoinedCuts(pieces, taken) == Joined(pieces)
    ensures |JoinedCuts(pieces, taken)| == |Joined(pieces)| <==>
      forall i: nat :: i < |pieces| ==> taken[i] >= |pieces[i]|
    decreases |pieces|
  {
    if pieces == [] {
    } else {
      CutsNoLonger(pieces[..|pieces| - 1], taken);
    }
  }

  lemma CutsWhole(pieces: seq<string>, taken: seq<int>)
    requires |pieces| <= |taken| && forall i: nat :: i < |pieces| ==> taken[i] >= 0
    ensures JoinedCuts(pieces, taken) == Joined(pieces) <==> forall i: nat :: i < |pieces| ==> taken[i] >= |pieces[i]|
  {
    CutsNoLonger(pieces, taken);
  }
}
