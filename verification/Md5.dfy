// encrypt.c: the MD5 context of RFC 1321, fed in pieces. The compression function is a parameter.

module Md5 {
  import opened Bytes
  import opened Sight

  type Word = x: int | 0 <= x < 0x1_0000_0000

  datatype State = State(a: Word, b: Word, c: Word, d: Word)

  const INIT := State(0x67452301, 0xefcdab89, 0x98badcfe, 0x10325476)

  // MD5Transform of one 64-byte block
  type Transform = (State, seq<byte>) -> State

  // The state after all full blocks of a message
  function Blocks(f: Transform, st: State, m: seq<byte>): State
    decreases |m|
  {
    if |m| < 64 then st else Blocks(f, f(st, m[..64]), m[64..])
  }

  // The bytes after the last full block
  function Rest(m: seq<byte>): (r: seq<byte>)
    ensures |r| == |m| % 64
    decreases |m|
  {
    if |m| < 64 then m else Rest(m[64..])
  }

  lemma {:induction false} BlocksConcat(f: Transform, st: State, a: seq<byte>, b: seq<byte>)
    ensures Blocks(f, st, a + b) == Blocks(f, Blocks(f, st, a), Rest(a) + b)
    ensures Rest(a + b) == Rest(Rest(a) + b)
    decreases |a|
  {
    if |a| >= 64 {
      assert (a + b)[..64] == a[..64] && (a + b)[64..] == a[64..] + b;
      BlocksConcat(f, f(st, a[..64]), a[64..], b);
    }
  }

  // ---------- bytes of words, least significant first ----------

  function EncodeWord(w: Word): seq<byte> {
    [w % 256, w / 256 % 256, w / 65536 % 256, w / 16777216 % 256]
  }

  function DecodeWord(b0: byte, b1: byte, b2: byte, b3: byte): Word {
    b0 + 256 * b1 + 65536 * b2 + 16777216 * b3
  }

  function EncodeAll(ws: seq<Word>): (r: seq<byte>)
    ensures |r| == 4 * |ws|
  {
    if ws == [] then [] else EncodeWord(ws[0]) + EncodeAll(ws[1..])
  }

  function DecodeAll(bs: seq<byte>): (r: seq<Word>)
    ensures |r| == |bs| / 4
    decreases |bs|
  {
    if |bs| < 4 then [] else [DecodeWord(bs[0], bs[1], bs[2], bs[3])] + DecodeAll(bs[4..])
  }

  lemma WordRoundTrip(w: Word)
    ensures var b := EncodeWord(w); DecodeWord(b[0], b[1], b[2], b[3]) == w
  {
    var q := w / 256;
    var r := q / 256;
    assert w == 256 * q + w % 256 && q == 256 * r + q % 256 && r == 256 * (r / 256) + r % 256;
    assert w / 65536 == r && w / 16777216 == r / 256;
  }

  lemma BytesRoundTrip(b0: byte, b1: byte, b2: byte, b3: byte)
    ensures EncodeWord(DecodeWord(b0, b1, b2, b3)) == [b0, b1, b2, b3]
  {
    var w := DecodeWord(b0, b1, b2, b3);
    assert w == 256 * (b1 + 256 * b2 + 65536 * b3) + b0;
    assert w / 256 == b1 + 256 * (b2 + 256 * b3);
    assert w / 65536 == b2 + 256 * b3;
    assert w / 16777216 == b3;
  }

  lemma {:induction false} DecodeEncode(ws: seq<Word>)
    ensures DecodeAll(EncodeAll(ws)) == ws
  {
    if ws != [] {
      WordRoundTrip(ws[0]);
      assert EncodeAll(ws)[4..] == EncodeAll(ws[1..]);
      DecodeEncode(ws[1..]);
    }
  }

  lemma EncodeCons(w: Word, ws: seq<Word>)
    ensures EncodeAll([w] + ws) == EncodeWord(w) + EncodeAll(ws)
  {
    assert ([w] + ws)[1..] == ws;
  }

  lemma {:induction false} EncodeDecode(bs: seq<byte>)
    requires |bs| % 4 == 0
    ensures EncodeAll(DecodeAll(bs)) == bs
    decreases |bs|
  {
    if bs != [] {
      var first, rest := bs[..4], bs[4..];
      assert first == [bs[0], bs[1], bs[2], bs[3]] && bs == first + rest;
      var w, ws := DecodeWord(bs[0], bs[1], bs[2], bs[3]), DecodeAll(rest);
      BytesRoundTrip(bs[0], bs[1], bs[2], bs[3]);
      EncodeCons(w, ws);
      EncodeDecode(rest);
      assert DecodeAll(bs) == [w] + ws;
    }
  }

  // Encode
  method Encode(output: array<byte>, input: seq<Word>)
    requires output.Length >= 4 * |input|
    modifies output
    ensures output[..4 * |input|] == EncodeAll(input)
    ensures output[4 * |input|..] == old(output[4 * |input|..])
  {
    var i, j := 0, 0;
    assert input[..0] == [];
    while j < 4 * |input|
      invariant 0 <= i <= |input| && j == 4 * i
      invariant output[..j] == EncodeAll(input[..i])
      invariant output[4 * |input|..] == old(output[4 * |input|..])
    {
      ghost var done := output[..j];
      output[j] := input[i] % 256;
      output[j + 1] := input[i] / 256 % 256;
      output[j + 2] := input[i] / 65536 % 256;
      output[j + 3] := input[i] / 16777216 % 256;
      EncodeMore(input, i);
      assert output[..j + 4] == done + EncodeWord(input[i]);
      i := i + 1;
      j := j + 4;
    }
    assert input[..i] == input;
  }

  lemma EncodeMore(ws: seq<Word>, i: nat)
    requires i < |ws|
    ensures EncodeAll(ws[..i + 1]) == EncodeAll(ws[..i]) + EncodeWord(ws[i])
  {
    assert ws[..i + 1] == ws[..i] + [ws[i]];
    EncodeConcat(ws[..i], [ws[i]]);
    assert EncodeAll([ws[i]]) == EncodeWord(ws[i]);
  }

  lemma {:induction false} EncodeConcat(a: seq<Word>, b: seq<Word>)
    ensures EncodeAll(a + b) == EncodeAll(a) + EncodeAll(b)
  {
    if a == [] {
      assert a + b == b;
    } else {
      assert (a + b)[0] == a[0] && (a + b)[1..] == a[1..] + b;
      EncodeConcat(a[1..], b);
    }
  }

  lemma DecodeNext(bs: seq<byte>, j: nat, before: seq<Word>)
    requires j + 4 <= |bs|
    ensures var w := DecodeWord(bs[j], bs[j + 1], bs[j + 2], bs[j + 3]);
            before + DecodeAll(bs[j..]) == (before + [w]) + DecodeAll(bs[j + 4..])
  {
    var w := DecodeWord(bs[j], bs[j + 1], bs[j + 2], bs[j + 3]);
    assert bs[j..][4..] == bs[j + 4..];
    assert DecodeAll(bs[j..]) == [w] + DecodeAll(bs[j + 4..]);
  }

  // Decode
  method Decode(output: array<Word>, input: seq<byte>)
    requires |input| % 4 == 0 && output.Length >= |input| / 4
    modifies output
    ensures output[..|input| / 4] == DecodeAll(input)
    ensures output[|input| / 4..] == old(output[|input| / 4..])
  {
    var i, j := 0, 0;
    ghost var n, all, todo := |input| / 4, DecodeAll(input), DecodeAll(input);
    assert input[0..] == input;
    while j < |input|
      invariant 0 <= i <= n && j == 4 * i && |input| == 4 * n
      invariant output[..i] + todo == all && todo == DecodeAll(input[j..])
      invariant output[n..] == old(output[n..])
    {
      ghost var done := output[..i];
      var w := DecodeWord(input[j], input[j + 1], input[j + 2], input[j + 3]);
      output[i] := w;
      DecodeNext(input, j, done);
      assert output[..i + 1] == done + [w];
      i := i + 1;
      j := j + 4;
      todo := DecodeAll(input[j..]);
    }
  }

  // ---------- the bit count, in two words ----------

  // The two words as one number
  function Count(c0: Word, c1: Word): nat {
    c0 + 0x1_0000_0000 * c1
  }

  // Eight times the length, modulo 2^64
  function BitCount(length: nat): nat {
    8 * length % 0x1_0000_0000_0000_0000
  }

  // MD5Update adds 8 * n with a 32-bit shift, a carry and a 29-bit shift: modulo 2^64, exactly.
  lemma CountAdd(c0: Word, c1: Word, length: nat, n: Word)
    requires Count(c0, c1) == BitCount(length)
    ensures var lo := 8 * n % 0x1_0000_0000;
            var s0 := (c0 + lo) % 0x1_0000_0000;
            var s1 := ((if s0 < lo then (c1 + 1) % 0x1_0000_0000 else c1) + n / 0x2000_0000) % 0x1_0000_0000;
            Count(s0, s1) == BitCount(length + n)
  {
    var lo, hi := 8 * n % 0x1_0000_0000, n / 0x2000_0000;
    var s0 := (c0 + lo) % 0x1_0000_0000;
    var carry := if s0 < lo then 1 else 0;
    assert 8 * n == lo + 0x1_0000_0000 * hi;
    assert c0 + lo == s0 + 0x1_0000_0000 * carry;
    var s1 := ((if s0 < lo then (c1 + 1) % 0x1_0000_0000 else c1) + hi) % 0x1_0000_0000;
    var k := HighWord(c1, carry, hi);
    var q := 8 * length / 0x1_0000_0000_0000_0000;
    assert 8 * length == Count(c0, c1) + 0x1_0000_0000_0000_0000 * q;
    Remainder(8 * (length + n), Count(s0, s1), k + q);
  }

  lemma HighWord(c1: Word, carry: nat, hi: nat) returns (k: nat)
    requires carry <= 1
    ensures c1 + carry + hi ==
            ((if carry == 1 then (c1 + 1) % 0x1_0000_0000 else c1) + hi) % 0x1_0000_0000 + 0x1_0000_0000 * k
  {
    k := (c1 + carry + hi) / 0x1_0000_0000;
  }

  lemma Remainder(x: nat, r: nat, k: nat)
    requires r < 0x1_0000_0000_0000_0000 && x == r + 0x1_0000_0000_0000_0000 * k
    ensures x % 0x1_0000_0000_0000_0000 == r
  {
  }

  // The low word gives the position in the buffer.
  lemma CountIndex(c0: Word, c1: Word, length: nat)
    requires Count(c0, c1) == BitCount(length)
    ensures c0 / 8 % 64 == length % 64
  {
    var q := 8 * length / 0x1_0000_0000_0000_0000;
    assert 8 * length == c0 + 0x1_0000_0000 * c1 + 0x1_0000_0000_0000_0000 * q;
    var t := 0x2000_0000 * c1 + 0x2000_0000_0000_0000 * q;
    assert c0 == 8 * (length - t);
    assert t == 64 * (0x80_0000 * c1 + 0x80_0000_0000_0000 * q);
  }

  // ---------- the context ----------

  // The 32-bit guard i + 63 < inputLen of MD5Update's loop does not wrap around.
  predicate GuardHolds(length: nat, n: nat) {
    n < 64 - length % 64 || n - (length + n) % 64 + 63 < 0x1_0000_0000
  }

  // Where it does wrap, it lets the loop go on past the end of the input.
  lemma GuardWraps(length: nat, n: nat)
    requires n < 0x1_0000_0000 && !GuardHolds(length, n)
    ensures var i := n - (length + n) % 64;
            0 <= i && (i + 63) % 0x1_0000_0000 < n < i + 64
  {
  }

  class Context {
    const transform: Transform
    const buffer: array<byte>
    var state: State
    var count0: Word
    var count1: Word
    ghost var message: seq<byte>   // everything fed in so far

    ghost predicate Valid()
      reads this, buffer
    {
      && buffer.Length == 64
      && state == Blocks(transform, INIT, message)
      && Count(count0, count1) == BitCount(|message|)
      && buffer[..|message| % 64] == Rest(message)
    }

    // MD5Init
    constructor (transform: Transform)
      ensures Valid() && fresh(buffer) && message == [] && this.transform == transform
    {
      this.transform := transform;
      buffer := new byte[64];
      count0, count1 := 0, 0;
      state := INIT;
      message := [];
    }

    // The first lines of MD5Update: the bit count
    method AddCount(n: Word)
      requires Count(count0, count1) == BitCount(|message|)
      modifies this`count0, this`count1
      ensures Count(count0, count1) == BitCount(|message| + n)
    {
      CountAdd(count0, count1, |message|, n);
      var low: Word := 8 * n % 0x1_0000_0000;
      count0 := (count0 + low) % 0x1_0000_0000;
      if count0 < low {
        count1 := (count1 + 1) % 0x1_0000_0000;
      }
      count1 := (count1 + n / 0x2000_0000) % 0x1_0000_0000;
    }

    // The block part of MD5Update: complete the buffered block, then the whole blocks of input.
    method Absorb(input: seq<byte>, index: nat) returns (i: nat)
      requires buffer.Length == 64 && index == |message| % 64 && buffer[..index] == Rest(message)
      requires state == Blocks(transform, INIT, message)
      requires 64 - index <= |input| < 0x1_0000_0000 && GuardHolds(|message|, |input|)
      modifies this`state, buffer
      ensures i <= |input| && |input| - i < 64 && (|message| + i) % 64 == 0
      ensures state == Blocks(transform, INIT, message + input[..i])
    {
      var partLen := 64 - index;
      FirstBlock(transform, message, input[..partLen]);
      CopyInto(buffer, index, input[..partLen]);
      assert buffer[..] == Rest(message) + input[..partLen];
      state := transform(state, buffer[..]);
      i := partLen;
      while (i + 63) % 0x1_0000_0000 < |input|
        invariant partLen <= i <= |input| && (|message| + i) % 64 == 0
        invariant state == Blocks(transform, INIT, message + input[..i])
        decreases |input| - i
      {
        WholeBlocks(|message|, i, |input|);
        NextBlock(transform, message, input, i);
        state := transform(state, input[i..i + 64]);
        i := i + 64;
      }
      WholeBlocks(|message|, i, |input|);
    }

    // MD5Update
    method Update(input: seq<byte>)
      requires Valid() && |input| < 0x1_0000_0000 && GuardHolds(|message|, |input|)
      modifies this`state, this`count0, this`count1, this`message, buffer
      ensures Valid() && message == old(message) + input
    {
      CountIndex(count0, count1, |message|);
      var index := count0 / 8 % 64;
      AddCount(|input|);
      ghost var grown := message + input;
      BlocksConcat(transform, INIT, message, input);
      if |input| >= 64 - index {
        var i := Absorb(input, index);
        Leftover(transform, message, input, i);
        CopyInto(buffer, 0, input[i..]);
        assert buffer[..|input| - i] == input[i..];
      } else {
        ShortRest(transform, message, input);
        ghost var kept := buffer[..index];
        CopyInto(buffer, index, input);
        assert buffer[..index + |input|] == kept + input;
      }
      message := grown;
    }

    // Any number of updates
    method UpdateAll(pieces: seq<seq<byte>>)
      requires Valid() && forall i :: 0 <= i < |pieces| ==> |pieces[i]| + 63 < 0x1_0000_0000
      modifies this`state, this`count0, this`count1, this`message, buffer
      ensures Valid() && message == old(message) + Joined(pieces)
    {
      assert message == message + [];
      for i := 0 to |pieces|
        invariant Valid() && message + Joined(pieces[i..]) == old(message) + Joined(pieces)
      {
        assert pieces[i..][0] == pieces[i] && pieces[i..][1..] == pieces[i + 1..];
        Assoc(message, pieces[i], Joined(pieces[i + 1..]));
        Update(pieces[i]);
      }
      assert pieces[|pieces|..] == [] && message + [] == message;
    }

    // MD5Final up to the digest
    method Pad()
      requires Valid()
      modifies this`state, this`count0, this`count1, this`message, buffer
      ensures Valid() && message == Padded(old(message))
    {
      var bits := new byte[8];
      Encode(bits, [count0, count1]);
      LengthBytes(count0, count1);
      CountIndex(count0, count1, |message|);
      var index := count0 / 8 % 64;
      var padLen := if index < 56 then 56 - index else 120 - index;
      var field := bits[..8];
      AddPadding(padLen, field);
    }

    method AddPadding(padLen: nat, field: seq<byte>)
      requires Valid() && padLen == PadLength(|message|) && Closes(field, |message|)
      modifies this`state, this`count0, this`count1, this`message, buffer
      ensures Valid() && message == Padded(old(message))
    {
      PaddedIs(message, padLen, field);
      Update(PADDING[..padLen]);
      Update(field);
    }

    // Its last statement
    method Zeroize()
      modifies this`state, this`count0, this`count1, buffer
      ensures state == State(0, 0, 0, 0) && count0 == 0 && count1 == 0
      ensures forall i :: 0 <= i < buffer.Length ==> buffer[i] == 0
    {
      state := State(0, 0, 0, 0);
      count0, count1 := 0, 0;
      for i := 0 to buffer.Length
        modifies buffer
        invariant forall k :: 0 <= k < i ==> buffer[k] == 0
      {
        buffer[i] := 0;
      }
    }

    // MD5Final
    method Final(digest: array<byte>)
      requires Valid() && digest.Length >= 16 && digest != buffer
      modifies this, buffer, digest
      ensures digest[..16] == Digest(transform, old(message))
      ensures state == State(0, 0, 0, 0) && count0 == 0 && count1 == 0
      ensures forall i :: 0 <= i < buffer.Length ==> buffer[i] == 0
    {
      Pad();
      Encode(digest, [state.a, state.b, state.c, state.d]);
      Zeroize();
    }
  }

  // The table PADDING of encrypt.c
  const PADDING: seq<byte> := seq(64, i => if i == 0 then 0x80 else 0)

  function Zeros(n: nat): seq<byte> {
    if n == 0 then [] else [0] + Zeros(n - 1)
  }

  // Section 3.1 of RFC 1321: a single 1 bit, then 0 bits, up to 56 modulo 64; always at least one.
  function PadLength(length: nat): nat {
    var index := length % 64;
    if index < 56 then 56 - index else 120 - index
  }

  // Section 3.2 of RFC 1321: the length before padding, in bits, as two words, low-order word first.
  function LengthField(bits: nat): (r: seq<byte>)
    requires bits < 0x1_0000_0000_0000_0000
    ensures |r| == 8
  {
    EncodeAll([bits % 0x1_0000_0000, bits / 0x1_0000_0000])
  }

  // The number that bytes stand for, least significant first
  function Value(bs: seq<byte>): nat {
    if bs == [] then 0 else bs[0] + 256 * Value(bs[1..])
  }

  // The field that closes a message of some length. Only an assertion of Look unfolds this.
  ghost predicate Closes(field: seq<byte>, length: nat) {
    forall x: int {:trigger Look(x)} :: Look(x) ==> field == LengthField(BitCount(length))
  }

  function Padded(m: seq<byte>): seq<byte> {
    m + ([0x80] + Zeros(PadLength(|m|) - 1)) + LengthField(BitCount(|m|))
  }

  // What RFC 1321 calls the message digest
  function Digest(f: Transform, m: seq<byte>): seq<byte> {
    var s := Blocks(f, INIT, Padded(m));
    EncodeAll([s.a, s.b, s.c, s.d])
  }

  lemma {:induction false} ZerosAre(n: nat)
    ensures |Zeros(n)| == n && forall i :: 0 <= i < n ==> Zeros(n)[i] == 0
  {
    if n > 0 {
      ZerosAre(n - 1);
    }
  }

  lemma PaddingStart(padLen: nat)
    requires 1 <= padLen <= 64
    ensures PADDING[..padLen] == [0x80] + Zeros(padLen - 1)
  {
    ZerosAre(padLen - 1);
  }

  lemma PaddedIs(m: seq<byte>, padLen: nat, field: seq<byte>)
    requires padLen == PadLength(|m|) && Closes(field, |m|)
    ensures 1 <= padLen <= 64 && |field| == 8 && m + PADDING[..padLen] + field == Padded(m)
  {
    assert Look(0);
    PaddingStart(padLen);
  }

  lemma LengthBytes(c0: Word, c1: Word)
    ensures EncodeAll([c0, c1]) == LengthField(Count(c0, c1))
  {
    CountWords(c0, c1);
  }

  lemma CountWords(c0: Word, c1: Word)
    ensures Count(c0, c1) % 0x1_0000_0000 == c0 && Count(c0, c1) / 0x1_0000_0000 == c1
  {
  }

  lemma WordValue(w: Word, rest: seq<byte>)
    ensures Value(EncodeWord(w) + rest) == w + 0x1_0000_0000 * Value(rest)
  {
    var b := EncodeWord(w);
    WordRoundTrip(w);
    assert (b + rest)[1..] == b[1..] + rest && (b[1..] + rest)[1..] == b[2..] + rest;
    assert (b[2..] + rest)[1..] == b[3..] + rest && (b[3..] + rest)[1..] == rest;
    assert Value(b[3..] + rest) == b[3] + 256 * Value(rest);
    assert Value(b[2..] + rest) == b[2] + 256 * Value(b[3..] + rest);
    assert Value(b[1..] + rest) == b[1] + 256 * Value(b[2..] + rest);
    assert Value(b + rest) == b[0] + 256 * Value(b[1..] + rest);
  }

  lemma LengthFieldValue(bits: nat)
    requires bits < 0x1_0000_0000_0000_0000
    ensures Value(LengthField(bits)) == bits
  {
    var lo, hi := bits % 0x1_0000_0000, bits / 0x1_0000_0000;
    EncodeCons(lo, [hi]);
    assert EncodeAll([hi]) == EncodeWord(hi) + [];
    WordValue(hi, []);
    WordValue(lo, EncodeAll([hi]));
  }

  lemma PadAligned(length: nat)
    ensures 1 <= PadLength(length) <= 64 && (length + PadLength(length) + 8) % 64 == 0
  {
    var q := length / 64;
    assert length == 64 * q + length % 64;
  }

  // The padded message is whole blocks; the message and its length can be read back off it.
  lemma PaddedShape(m: seq<byte>)
    ensures |Padded(m)| % 64 == 0 && |m| + 9 <= |Padded(m)| <= |m| + 72
    ensures m <= Padded(m) && Padded(m)[|m|] == 0x80
    ensures forall i :: |m| < i < |Padded(m)| - 8 ==> Padded(m)[i] == 0
    ensures Value(Padded(m)[|Padded(m)| - 8..]) == BitCount(|m|)
    ensures Rest(Padded(m)) == []
  {
    PadAligned(|m|);
    ZerosAre(PadLength(|m|) - 1);
    LengthFieldValue(BitCount(|m|));
    assert |Padded(m)| == |m| + PadLength(|m|) + 8;
    assert Padded(m)[|Padded(m)| - 8..] == LengthField(BitCount(|m|));
  }

  // The digest is the words A, B, C, D of the state after the padded message, each low-order byte first,
  // as section 3.5 of RFC 1321 has it.
  lemma DigestWords(f: Transform, m: seq<byte>)
    ensures var s := Blocks(f, INIT, Padded(m)); |Digest(f, m)| == 16 && DecodeAll(Digest(f, m)) == [s.a, s.b, s.c, s.d]
  {
    var s := Blocks(f, INIT, Padded(m));
    DecodeEncode([s.a, s.b, s.c, s.d]);
  }

  // The words start with the bytes of section 3.3.
  lemma InitialWords()
    ensures DecodeAll([0x01, 0x23, 0x45, 0x67, 0x89, 0xab, 0xcd, 0xef, 0xfe, 0xdc, 0xba, 0x98, 0x76, 0x54, 0x32, 0x10]) ==
            [INIT.a, INIT.b, INIT.c, INIT.d]
  {
    var b: seq<byte> := [0x01, 0x23, 0x45, 0x67, 0x89, 0xab, 0xcd, 0xef, 0xfe, 0xdc, 0xba, 0x98, 0x76, 0x54, 0x32, 0x10];
    assert b[4..] == [0x89, 0xab, 0xcd, 0xef, 0xfe, 0xdc, 0xba, 0x98, 0x76, 0x54, 0x32, 0x10];
    assert b[4..][4..] == [0xfe, 0xdc, 0xba, 0x98, 0x76, 0x54, 0x32, 0x10] && b[4..][4..][4..] == [0x76, 0x54, 0x32, 0x10];
  }

  lemma SameWords(a0: Word, a1: Word, b0: Word, b1: Word)
    requires Count(a0, a1) == Count(b0, b1)
    ensures a0 == b0 && a1 == b1
  {
  }

  // How a message was cut into pieces leaves no trace: contexts that were fed the same bytes agree
  // in state, bit count and buffered bytes.
  lemma PiecesDoNotMatter(x: Context, y: Context)
    requires x.Valid() && y.Valid() && x.transform == y.transform && x.message == y.message
    ensures x.state == y.state && x.count0 == y.count0 && x.count1 == y.count1
    ensures x.count0 / 8 % 64 == |x.message| % 64
    ensures x.buffer[..|x.message| % 64] == y.buffer[..|x.message| % 64]
  {
    SameWords(x.count0, x.count1, y.count0, y.count1);
    CountIndex(x.count0, x.count1, |x.message|);
  }

  lemma Leftover(f: Transform, m: seq<byte>, input: seq<byte>, i: nat)
    requires i <= |input| < i + 64 && (|m| + i) % 64 == 0
    ensures Rest(m + input) == input[i..] && |m + input| % 64 == |input| - i
    ensures Blocks(f, INIT, m + input) == Blocks(f, INIT, m + input[..i])
  {
    var a, b := m + input[..i], input[i..];
    Assoc(m, input[..i], b);
    assert input == input[..i] + b;
    BlocksConcat(f, INIT, a, b);
    assert Rest(a) == [] && [] + b == b;
  }

  lemma ShortRest(f: Transform, m: seq<byte>, input: seq<byte>)
    requires |m| % 64 + |input| < 64
    ensures Rest(m + input) == Rest(m) + input && |m + input| % 64 == |m| % 64 + |input|
    ensures Blocks(f, INIT, m + input) == Blocks(f, INIT, m)
  {
    BlocksConcat(f, INIT, m, input);
    var q := |m| / 64;
    assert |m| + |input| == 64 * q + (|m| % 64 + |input|);
  }

  lemma WholeBlocks(length: nat, i: nat, n: nat)
    requires i <= n && (length + i) % 64 == 0
    ensures i <= n - (length + n) % 64
    ensures n - i >= 64 <==> i < n - (length + n) % 64
    ensures n - i >= 64 ==> i + 64 <= n - (length + n) % 64
    ensures (length + (i + 64)) % 64 == 0
  {
    var q := (length + i) / 64;
    assert length + n == 64 * q + (n - i);
    assert (length + n) % 64 == (n - i) % 64;
  }

  lemma FirstBlock(f: Transform, m: seq<byte>, part: seq<byte>)
    requires |m| % 64 + |part| == 64
    ensures Blocks(f, INIT, m + part) == f(Blocks(f, INIT, m), Rest(m) + part)
    ensures Rest(m + part) == []
  {
    BlocksConcat(f, INIT, m, part);
    OneBlock(f, Blocks(f, INIT, m), Rest(m) + part);
  }

  lemma NextBlock(f: Transform, m: seq<byte>, input: seq<byte>, i: nat)
    requires i + 64 <= |input| && (|m| + i) % 64 == 0
    ensures Blocks(f, INIT, m + input[..i + 64]) == f(Blocks(f, INIT, m + input[..i]), input[i..i + 64])
  {
    TakeMore(m, input, i, 64);
    BlockAfter(f, m + input[..i], input[i..i + 64]);
  }

  lemma BlockAfter(f: Transform, m: seq<byte>, block: seq<byte>)
    requires |m| % 64 == 0 && |block| == 64
    ensures Blocks(f, INIT, m + block) == f(Blocks(f, INIT, m), block)
  {
    FirstBlock(f, m, block);
    assert Rest(m) == [] && [] + block == block;
  }

  // One block is one transformation; with BlocksConcat that says what any number of blocks is.
  lemma OneBlock(f: Transform, st: State, block: seq<byte>)
    requires |block| == 64
    ensures Blocks(f, st, block) == f(st, block) && Rest(block) == []
  {
    assert block[..64] == block && block[64..] == [];
  }
}
