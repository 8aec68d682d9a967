// Bytes, and the loop that memcpy stands for.

module Bytes {
  type byte = x: int | 0 <= x < 256

  const NEWLINE: byte := 10
  const EOF := -1

  lemma Assoc(a: seq<byte>, b: seq<byte>, c: seq<byte>)
    ensures (a + b) + c == a + (b + c)
  {
  }

  lemma TakeMore(a: seq<byte>, data: seq<byte>, i: nat, n: nat)
    requires i + n <= |data|
    ensures (a + data[..i]) + data[i..i + n] == a + data[..i + n]
    ensures data[i..][..n] == data[i..i + n]
  {
    assert data[..i] + data[i..i + n] == data[..i + n];
  }

  function Joined(pieces: seq<seq<byte>>): seq<byte> {
    if pieces == [] then [] else pieces[0] + Joined(pieces[1..])
  }

  lemma {:induction false} JoinedMore(pieces: seq<seq<byte>>, piece: seq<byte>)
    ensures Joined(pieces + [piece]) == Joined(pieces) + piece
  {
    if pieces == [] {
      assert Joined([piece]) == piece;
    } else {
      JoinedMore(pieces[1..], piece);
      assert (pieces + [piece])[0] == pieces[0] && (pieces + [piece])[1..] == pieces[1..] + [piece];
      Assoc(pieces[0], Joined(pieces[1..]), piece);
    }
  }

  // memcpy into a buffer from position at
  method CopyInto(buf: array<byte>, at: nat, data: seq<byte>)
    requires at + |data| <= buf.Length
    modifies buf
    ensures buf[..] == old(buf[..at]) + data + old(buf[at + |data|..])
  {
    var i := 0;
    while i < |data|
      invariant 0 <= i <= |data|
      invariant forall k :: 0 <= k < buf.Length && !(at <= k < at + i) ==> buf[k] == old(buf[k])
      invariant forall k :: 0 <= k < i ==> buf[at + k] == data[k]
    {
      buf[at + i] := data[i];
      i := i + 1;
    }
    forall k | 0 <= k < buf.Length
      ensures buf[k] == (old(buf[..at]) + data + old(buf[at + |data|..]))[k]
    {
      if at <= k < at + |data| {
        assert buf[at + (k - at)] == data[k - at];
      }
    }
  }
}
