// sockutil.c: the two circular buffers between the program and its socket.

module Rings {
  import opened Bytes
  import opened Sight

  const NET_BUFSIZE: nat := 4096

  function Wrap(pos: nat): nat {
    if pos == NET_BUFSIZE then 0 else pos
  }

  // read_buffer_len and write_buffer_len
  function Length(cur: nat, end: nat): int {
    if end >= cur then end - cur else end + NET_BUFSIZE - cur
  }

  predicate Full(cur: nat, end: nat) {
    cur == end + 1 || (cur == 0 && end == NET_BUFSIZE - 1)
  }

  // The bytes between the read and the write position; one slot always stays free.
  ghost function Live(buf: seq<byte>, cur: nat, end: nat): seq<byte>
    requires |buf| == NET_BUFSIZE && cur < NET_BUFSIZE && end < NET_BUFSIZE
    decreases Length(cur, end)
  {
    if cur == end then [] else [buf[cur]] + Live(buf, Wrap(cur + 1), end)
  }

  lemma {:induction false} LiveSlices(buf: seq<byte>, cur: nat, end: nat)
    requires |buf| == NET_BUFSIZE && cur < NET_BUFSIZE && end < NET_BUFSIZE
    ensures Live(buf, cur, end) == if cur <= end then buf[cur..end] else buf[cur..] + buf[..end]
    decreases Length(cur, end)
  {
    if cur != end {
      LiveSlices(buf, Wrap(cur + 1), end);
      if cur < end {
        assert buf[cur..end] == [buf[cur]] + buf[cur + 1..end];
      } else {
        assert buf[cur..] == [buf[cur]] + buf[cur + 1..];
      }
    }
  }

  lemma LengthOfLive(buf: seq<byte>, cur: nat, end: nat)
    requires |buf| == NET_BUFSIZE && cur < NET_BUFSIZE && end < NET_BUFSIZE
    ensures |Live(buf, cur, end)| == Length(cur, end) < NET_BUFSIZE
    ensures Full(cur, end) <==> |Live(buf, cur, end)| == NET_BUFSIZE - 1
    ensures cur == end <==> Live(buf, cur, end) == []
  {
    LiveSlices(buf, cur, end);
  }

  // Bytes copied in at the write position join the back of the queue.
  lemma PushBack(buf: seq<byte>, cur: nat, end: nat, data: seq<byte>, before: seq<byte>)
    requires |buf| == NET_BUFSIZE && cur < NET_BUFSIZE && end < NET_BUFSIZE
    requires if end < cur then end + |data| < cur else end + |data| <= NET_BUFSIZE && (cur == 0 ==> end + |data| < NET_BUFSIZE)
    ensures var after := buf[..end] + data + buf[end + |data|..];
            before + Live(after, cur, Wrap(end + |data|)) == (before + Live(buf, cur, end)) + data
  {
    var after := buf[..end] + data + buf[end + |data|..];
    LiveSlices(buf, cur, end);
    LiveSlices(after, cur, Wrap(end + |data|));
    Spliced(buf, end, data, cur);
    if end < cur {
      Assoc(buf[cur..], buf[..end], data);
    } else {
      assert end + |data| == NET_BUFSIZE ==> after[cur..] + after[..0] == after[cur..end + |data|];
    }
    Assoc(before, Live(buf, cur, end), data);
  }

  lemma Spliced(buf: seq<byte>, end: nat, data: seq<byte>, cur: nat)
    requires end + |data| <= |buf| && cur <= |buf|
    ensures var after := buf[..end] + data + buf[end + |data|..];
            && |after| == |buf| && after[..end + |data|] == buf[..end] + data
            && (end + |data| <= cur ==> after[cur..] == buf[cur..])
            && (cur <= end ==> after[cur..end + |data|] == buf[cur..end] + data)
  {
  }

  // Bytes taken at the read position leave the front of the queue.
  lemma PopFront(buf: seq<byte>, cur: nat, end: nat, n: nat, before: seq<byte>)
    requires |buf| == NET_BUFSIZE && cur < NET_BUFSIZE && end < NET_BUFSIZE
    requires if cur <= end then cur + n <= end else cur + n <= NET_BUFSIZE
    ensures before + Live(buf, cur, end) == (before + buf[cur..cur + n]) + Live(buf, Wrap(cur + n), end)
  {
    LiveSlices(buf, cur, end);
    LiveSlices(buf, Wrap(cur + n), end);
    if cur <= end {
      Cut(buf, cur, cur + n, end);
    } else {
      Cut(buf, cur, cur + n, |buf|);
      Assoc(buf[cur..cur + n], buf[cur + n..], buf[..end]);
    }
    Assoc(before, buf[cur..cur + n], Live(buf, Wrap(cur + n), end));
  }

  lemma Cut(buf: seq<byte>, i: nat, j: nat, k: nat)
    requires i <= j <= k <= |buf|
    ensures buf[i..k] == buf[i..j] + buf[j..k]
  {
  }

  // ---------- output ----------

  // Where buffered_write's loop stands: the two positions, and the bytes left to queue.
  datatype Out = Out(cur: nat, end: nat, left: nat)

  // The copying of one turn fills the free slots as far as the bytes reach.
  function Filled(p: Out): Out
    requires p.cur < NET_BUFSIZE && p.end < NET_BUFSIZE
  {
    var free := NET_BUFSIZE - 1 - Length(p.cur, p.end);
    var n := if p.left <= free then p.left else free;
    Out(p.cur, if p.end + n < NET_BUFSIZE then p.end + n else p.end + n - NET_BUFSIZE, p.left - n)
  }

  // How much of it one write() can take, and what is left then
  function Contiguous(p: Out): nat {
    if p.cur <= p.end then p.end - p.cur else if p.cur <= NET_BUFSIZE then NET_BUFSIZE - p.cur else 0
  }

  // The guard of the wrapping memcpy holds while the read position is at the start of the buffer:
  // the write position will follow it there and the full ring will look empty.
  predicate Laps(p: Out) {
    p.left > 0 && p.cur == 0 && p.end < NET_BUFSIZE - 1 && p.end + p.left >= NET_BUFSIZE
  }

  // One turn: the copying, then a write() that takes n bytes
  function Turn(p: Out, n: nat): Out
    requires p.cur < NET_BUFSIZE && p.end < NET_BUFSIZE && n <= Contiguous(Filled(p))
  {
    Filled(p).(cur := Wrap(p.cur + n))
  }

  // The socket can bring the loop to that point within so many turns.
  ghost predicate MayLap(p: Out, turns: nat)
    requires p.cur < NET_BUFSIZE && p.end < NET_BUFSIZE
    decreases turns
  {
    Laps(p) ||
    (turns > 0 && p.left > 0 && exists n: nat :: n <= Contiguous(Filled(p)) && MayLap(Turn(p, n), turns - 1))
  }

  // What a caller can check beforehand
  predicate CanQueue(cur: nat, end: nat, left: nat) {
    end + left < if 0 < cur <= end || (cur == 0 && end == NET_BUFSIZE - 1) then 2 * NET_BUFSIZE else NET_BUFSIZE
  }

  lemma FreeSpaceQueues(cur: nat, end: nat, left: nat)
    requires cur < NET_BUFSIZE && end < NET_BUFSIZE && left < NET_BUFSIZE - Length(cur, end)
    ensures CanQueue(cur, end, left)
  {
  }

  // CanQueue is exactly the condition under which no socket behaviour makes the ring lap.
  lemma {:induction false} QueuesForEver(p: Out, turns: nat)
    requires p.cur < NET_BUFSIZE && p.end < NET_BUFSIZE && CanQueue(p.cur, p.end, p.left)
    ensures !MayLap(p, turns)
    decreases turns
  {
    if turns > 0 {
      forall n: nat | n <= Contiguous(Filled(p))
        ensures !MayLap(Turn(p, n), turns - 1)
      {
        QueuesForEver(Turn(p, n), turns - 1);
      }
    }
  }

  lemma QueuesUnlessLapped(p: Out)
    requires p.cur < NET_BUFSIZE && p.end < NET_BUFSIZE && p.left > 0
    ensures CanQueue(p.cur, p.end, p.left) <==> forall turns: nat :: !MayLap(p, turns)
  {
    if CanQueue(p.cur, p.end, p.left) {
      forall turns: nat
        ensures !MayLap(p, turns)
      {
        QueuesForEver(p, turns);
      }
    } else if p.cur != 0 {
      LapsNext(p);
      assert MayLap(p, 1);
    } else if p.end == NET_BUFSIZE - 1 {
      LapsNext(Turn(p, 1));
      assert MayLap(p, 2);
    } else {
      assert MayLap(p, 0);
    }
  }

  lemma LapsNext(p: Out)
    requires 0 < p.cur < NET_BUFSIZE && p.end < NET_BUFSIZE && !CanQueue(p.cur, p.end, p.left)
    ensures p.left > 0 && MayLap(p, 1)
  {
    assert Laps(Turn(p, NET_BUFSIZE - p.cur));
    assert MayLap(Turn(p, NET_BUFSIZE - p.cur), 0);
  }

  class OutRing {
    const netbuf: array<byte>
    var curpos: nat
    var bufend: nat
    var fd: int
    ghost var accepted: seq<byte>   // everything queued so far
    ghost var sent: seq<byte>       // everything given to write()

    ghost predicate Valid()
      reads this, netbuf
    {
      && netbuf.Length == NET_BUFSIZE && curpos < NET_BUFSIZE && bufend < NET_BUFSIZE
      && Conserves()
    }

    // Nothing is lost: what has been accepted has been sent or is live. Only an assertion of Look
    // unfolds this.
    ghost predicate Conserves()
      requires netbuf.Length == NET_BUFSIZE && curpos < NET_BUFSIZE && bufend < NET_BUFSIZE
      reads this, netbuf
    {
      forall x: int {:trigger Look(x)} :: Look(x) ==> accepted == sent + Live(netbuf[..], curpos, bufend)
    }

    constructor ()
      ensures Valid() && fresh(netbuf) && accepted == [] && sent == []
    {
      netbuf := new byte[NET_BUFSIZE];
      curpos, bufend, fd := 0, 0, -1;
      accepted, sent := [], [];
    }

    // flush_write_buffer: the socket takes room bytes of those it is offered, if there are as many; none if it
    // is not ready or fails.
    method FlushWriteBuffer(room: int) returns (nwritten: nat)
      requires Valid()
      modifies this`curpos, this`sent
      ensures Valid() && old(sent) <= sent && |sent| == |old(sent)| + nwritten
      ensures curpos == Wrap(old(curpos) + nwritten)
      ensures if old(curpos) <= bufend then curpos <= bufend else curpos == 0 || bufend < curpos
      ensures nwritten > 0 <==> old(curpos) != bufend && fd != -1 && room > 0
      ensures nwritten > 0 ==> nwritten == room || (nwritten < room && (curpos == bufend || curpos == 0))
    {
      if bufend == curpos || fd == -1 {
        return 0;
      }
      var maxwrite: int;
      if curpos > bufend {
        maxwrite := NET_BUFSIZE - curpos;
      } else if bufend == 0 {
        maxwrite := NET_BUFSIZE - curpos - 1;
      } else {
        maxwrite := bufend - curpos;
      }
      var taken := room;
      if taken > maxwrite {
        taken := maxwrite;
      }
      if taken <= 0 {
        return 0;
      }
      nwritten := taken;
      Advance(nwritten);
    }

    method Advance(n: nat)
      requires Valid() && if curpos <= bufend then curpos + n <= bufend else curpos + n <= NET_BUFSIZE
      modifies this`curpos, this`sent
      ensures Valid() && old(sent) <= sent && |sent| == |old(sent)| + n && curpos == Wrap(old(curpos) + n)
    {
      assert Look(0);
      PopFront(netbuf[..], curpos, bufend, n, sent);
      sent := sent + netbuf[..][curpos..curpos + n];
      curpos := curpos + n;
      if curpos == NET_BUFSIZE {
        curpos := 0;
      }
    }

    // One memcpy of buffered_write
    method Store(data: seq<byte>)
      requires Valid()
      requires if bufend < curpos then bufend + |data| < curpos
               else bufend + |data| <= NET_BUFSIZE && (curpos == 0 ==> bufend + |data| < NET_BUFSIZE)
      modifies this`bufend, this`accepted, netbuf
      ensures Valid() && accepted == old(accepted) + data && bufend == Wrap(old(bufend) + |data|)
    {
      assert Look(0);
      PushBack(netbuf[..], curpos, bufend, data, sent);
      CopyInto(netbuf, bufend, data);
      bufend := Wrap(bufend + |data|);
      accepted := accepted + data;
    }

    // The copying of one turn of buffered_write's loop
    method Pass(data: seq<byte>) returns (n: nat)
      requires Valid() && !Full(curpos, bufend) && data != [] && CanQueue(curpos, bufend, |data|)
      modifies this`bufend, this`accepted, netbuf
      ensures Valid() && 0 < n <= |data| && accepted == old(accepted) + data[..n]
      ensures CanQueue(curpos, bufend, |data| - n)
      ensures Out(curpos, bufend, |data| - n) == Filled(Out(curpos, old(bufend), |data|))
      ensures n == |data| || Full(curpos, bufend)
      ensures |data| < NET_BUFSIZE - Length(curpos, old(bufend)) ==> n == |data|
    {
      n := 0;
      if bufend + |data| >= NET_BUFSIZE && curpos <= bufend {
        n := NET_BUFSIZE - bufend;
        Store(data[..n]);
      }
      var left := |data| - n;
      var more: nat := left;
      if curpos > bufend && curpos - bufend - 1 < left {
        more := curpos - bufend - 1;
      }
      if more > 0 {
        TakeMore(old(accepted), data, n, more);
        Store(data[n..n + more]);
        n := n + more;
      }
    }

    // buffered_write
    method BufferedWrite(writeFd: int, data: seq<byte>) returns (r: int)
      requires Valid() && CanQueue(curpos, bufend, |data|)
      modifies this, netbuf
      ensures Valid() && old(sent) <= sent
      ensures writeFd < 0 ==> r == -1 && accepted == old(accepted)
      ensures writeFd >= 0 ==> 0 <= r <= |data| && accepted == old(accepted) + data[..r]
      ensures writeFd >= 0 && r < |data| ==> Full(curpos, bufend)
      ensures writeFd >= 0 && |data| < 4096 - old(Length(curpos, bufend)) ==> r == |data|
    {
      if writeFd < 0 {
        return -1;
      }
      fd := writeFd;
      var done: nat := 0;
      ghost var fits := |data| < NET_BUFSIZE - Length(curpos, bufend);
      while done < |data|
        invariant Valid() && old(sent) <= sent && done <= |data|
        invariant CanQueue(curpos, bufend, |data| - done)
        invariant accepted == old(accepted) + data[..done]
        invariant fits ==> done == |data| || (done == 0 && bufend == old(bufend) && curpos == old(curpos))
        invariant done == 0 || done == |data| || !Full(curpos, bufend)
        decreases |data| - done, Full(curpos, bufend)
      {
        if !Full(curpos, bufend) {
          var n := Pass(data[done..]);
          TakeMore(old(accepted), data, done, n);
          done := done + n;
        }
        var room: int := *;
        var nwritten := FlushWriteBuffer(room);
        if Full(curpos, bufend) {
          break;
        }
      }
      return done;
    }
  }

  // ---------- input ----------

  // How many of n bytes go into the ring in one piece
  function Piece(cur: nat, end: nat, n: nat): nat {
    var room := if end < cur then cur - 1 - end else NET_BUFSIZE - end - if cur == 0 then 1 else 0;
    if n < room then n else if room > 0 then room else 0
  }

  // Where buffered_read's loop stands: the two positions, and the bytes left to read.
  datatype In = In(cur: nat, end: nat, left: nat)

  // The socket has delivered d more bytes.
  function Supplied(p: In, d: nat): In
    requires p.cur < NET_BUFSIZE && p.end < NET_BUFSIZE && d < NET_BUFSIZE - Length(p.cur, p.end)
  {
    p.(end := if p.end + d < NET_BUFSIZE then p.end + d else p.end + d - NET_BUFSIZE)
  }

  // The copying of one turn takes what is there, as far as it is wanted.
  function Gobbled(p: In): In
    requires p.cur < NET_BUFSIZE && p.end < NET_BUFSIZE
  {
    var n := if p.left <= Length(p.cur, p.end) then p.left else Length(p.cur, p.end);
    In(if p.cur + n < NET_BUFSIZE then p.cur + n else p.cur + n - NET_BUFSIZE, p.end, p.left - n)
  }

  // The write position stands at the start of the buffer and more is wanted than lies before the
  // end: the second memcpy will copy bytes that nobody delivered.
  predicate Overruns(p: In) {
    p.end == 0 < p.cur && p.cur + p.left > NET_BUFSIZE
  }

  // The socket can bring the loop to that point within so many turns.
  ghost predicate MayOverrun(p: In, turns: nat)
    requires p.cur < NET_BUFSIZE && p.end < NET_BUFSIZE
    decreases turns
  {
    exists d: nat :: d < NET_BUFSIZE - Length(p.cur, p.end) &&
      (Overruns(Supplied(p, d)) || (turns > 0 && p.left > 0 && MayOverrun(Gobbled(Supplied(p, d)), turns - 1)))
  }

  // What a caller can check beforehand
  predicate CanRead(cur: nat, end: nat, left: nat) {
    left <= Length(cur, end) || cur + left <= if 0 < end < cur then 2 * NET_BUFSIZE else NET_BUFSIZE
  }

  lemma {:induction false} ReadsForEver(p: In, turns: nat)
    requires p.cur < NET_BUFSIZE && p.end < NET_BUFSIZE && CanRead(p.cur, p.end, p.left)
    ensures !MayOverrun(p, turns)
    decreases turns
  {
    forall d: nat | d < NET_BUFSIZE - Length(p.cur, p.end)
      ensures !Overruns(Supplied(p, d))
      ensures turns > 0 ==> !MayOverrun(Gobbled(Supplied(p, d)), turns - 1)
    {
      if turns > 0 {
        ReadsForEver(Gobbled(Supplied(p, d)), turns - 1);
      }
    }
  }

  lemma OverrunsNext(p: In)
    requires 0 < p.cur < NET_BUFSIZE && p.end < NET_BUFSIZE && !CanRead(p.cur, p.end, p.left)
    requires p.cur <= p.end || p.end == 0
    ensures forall turns :: MayOverrun(p, turns)
  {
    var d := if p.end == 0 then 0 else NET_BUFSIZE - p.end;
    assert Overruns(Supplied(p, d));
  }

  // CanRead is exactly the condition under which no socket behaviour makes the reader overrun.
  lemma ReadsUnlessOverrun(p: In)
    requires p.cur < NET_BUFSIZE && p.end < NET_BUFSIZE
    ensures CanRead(p.cur, p.end, p.left) <==> forall turns: nat :: !MayOverrun(p, turns)
  {
    if CanRead(p.cur, p.end, p.left) {
      forall turns: nat
        ensures !MayOverrun(p, turns)
      {
        ReadsForEver(p, turns);
      }
    } else if 0 < p.cur && (p.cur <= p.end || p.end == 0) {
      OverrunsNext(p);
      assert MayOverrun(p, 0);
    } else {
      var d := if p.cur == p.end then 1 else 0;
      OverrunsNext(Gobbled(Supplied(p, d)));
      assert MayOverrun(p, 1);
    }
  }

  class InRing {
    const netbuf: array<byte>
    var curpos: nat
    var bufend: nat
    var lastchar: int               // pushed back by sungetc, or EOF
    ghost var received: seq<byte>   // everything the socket delivered
    ghost var returned: seq<byte>   // everything the readers have been given

    // What is still to be read
    ghost function Queue(): seq<byte>
      requires netbuf.Length == NET_BUFSIZE && curpos < NET_BUFSIZE && bufend < NET_BUFSIZE
      reads this, netbuf
    {
      var live := Live(netbuf[..], curpos, bufend);
      if 0 <= lastchar < 256 then [lastchar as byte] + live else live
    }

    ghost predicate Valid()
      reads this, netbuf
    {
      && netbuf.Length == NET_BUFSIZE && curpos < NET_BUFSIZE && bufend < NET_BUFSIZE
      && EOF <= lastchar < 256
      && Conserves()
    }

    // Nothing is lost: what has been received has been returned or is queued. Only an assertion of Look
    // unfolds this.
    ghost predicate Conserves()
      requires netbuf.Length == NET_BUFSIZE && curpos < NET_BUFSIZE && bufend < NET_BUFSIZE
      reads this, netbuf
    {
      forall x: int {:trigger Look(x)} :: Look(x) ==> received == returned + Queue()
    }

    constructor ()
      ensures Valid() && fresh(netbuf) && received == [] && lastchar == EOF
    {
      netbuf := new byte[NET_BUFSIZE];
      curpos, bufend, lastchar := 0, 0, EOF;
      received, returned := [], [];
    }

    // The loop that buffered_read and buffered_read_one share: take what the socket has, in one
    // or more pieces, as long as there is room.
    // first is what it has at the beginning, [] if it is not ready.
    method Fill(first: seq<byte>)
      requires Valid() && lastchar == EOF
      modifies this`bufend, this`received, netbuf
      ensures Valid() && old(received) <= received
      ensures Length(curpos, bufend) >= Length(curpos, old(bufend))
      ensures 0 < old(bufend) < curpos ==> 0 < bufend < curpos
      // What is there at first is taken if there is room, as far as it fits in one piece.
      ensures first != [] && !Full(curpos, old(bufend)) ==>
                var n := Piece(curpos, old(bufend), |first|);
                n > 0 && old(received) + first[..n] <= received
      ensures first == [] ==> received == old(received) && bufend == old(bufend)
    {
      var data := first;
      while !Full(curpos, bufend)
        invariant Valid() && old(received) <= received
        invariant (data == first && received == old(received) && bufend == old(bufend)) ||
                  (first != [] && !Full(curpos, old(bufend)) && old(received) + first[..Piece(curpos, old(bufend), |first|)] <= received)
        invariant Length(curpos, bufend) >= Length(curpos, old(bufend))
        invariant 0 < old(bufend) < curpos ==> 0 < bufend < curpos
        decreases NET_BUFSIZE - Length(curpos, bufend)
      {
        var maxread: nat;
        if bufend < curpos {
          maxread := curpos - 1 - bufend;
        } else if curpos == 0 {
          maxread := NET_BUFSIZE - bufend - 1;
        } else {
          maxread := NET_BUFSIZE - bufend;
        }
        if |data| > maxread {
          data := data[..maxread];
        }
        if data == [] {
          break;
        }
        Accept(data);
        data := *;
      }
    }

    // What one read() into the buffer leaves
    method Accept(data: seq<byte>)
      requires Valid() && lastchar == EOF && data != []
      requires if bufend < curpos then bufend + |data| < curpos
               else bufend + |data| <= NET_BUFSIZE && (curpos == 0 ==> bufend + |data| < NET_BUFSIZE)
      modifies this`bufend, this`received, netbuf
      ensures Valid() && received == old(received) + data
      ensures Length(curpos, bufend) == Length(curpos, old(bufend)) + |data|
      ensures bufend == Wrap(old(bufend) + |data|)
    {
      assert Look(0);
      PushBack(netbuf[..], curpos, bufend, data, returned);
      CopyInto(netbuf, bufend, data);
      bufend := bufend + |data|;
      if bufend == NET_BUFSIZE {
        bufend := 0;
      }
      received := received + data;
    }

    // buffered_read_one: the next byte, or EOF when there is none.
    method BufferedReadOne(fd: int) returns (c: int)
      requires Valid() && lastchar == EOF
      modifies this`curpos, this`bufend, this`received, this`returned, netbuf
      ensures Valid() && old(received) <= received
      ensures if c == EOF then returned == old(returned) && (fd >= 0 ==> Queue() == [])
              else 0 <= c < 256 && returned == old(returned) + [c as byte]
      ensures fd >= 0 && old(Queue()) != [] ==> c != EOF
    {
      if fd < 0 {
        return EOF;
      }
      var first: seq<byte> := *;
      Fill(first);
      if curpos == bufend {
        return EOF;
      }
      var front := Take(1);
      c := front[0];
    }

    // One memcpy of buffered_read, or the single byte of buffered_read_one
    method Take(n: nat) returns (data: seq<byte>)
      requires Valid() && lastchar == EOF && if curpos <= bufend then curpos + n <= bufend else curpos + n <= NET_BUFSIZE
      modifies this`curpos, this`returned
      ensures Valid() && |data| == n && returned == old(returned) + data && curpos == Wrap(old(curpos) + n)
    {
      data := netbuf[curpos..curpos + n];
      assert netbuf[..][curpos..curpos + n] == data;
      Conserved();
      PopFront(netbuf[..], curpos, bufend, n, returned);
      returned := returned + data;
      curpos := curpos + n;
      if curpos == NET_BUFSIZE {
        curpos := 0;
      }
    }

    lemma Conserved()
      requires Valid()
      ensures received == returned + Queue()
    {
      assert Look(0);
    }

    // The bytes that leave the queue are its first ones; deliveries join it at the back.
    lemma FirstInFirstOut(received0: seq<byte>, returned0: seq<byte>, queue0: seq<byte>, buf: seq<byte>)
      requires Valid() && received0 == returned0 + queue0 && received0 <= received && returned == returned0 + buf
      ensures queue0 + received[|received0|..] == buf + Queue()
    {
      assert Look(0);
      Assoc(returned0, buf, Queue());
      var delivered := received[|received0|..];
      assert received == received0 + delivered;
      Assoc(returned0, queue0, delivered);
      assert (returned0 + (queue0 + delivered))[|returned0|..] == queue0 + delivered;
      assert (returned0 + (buf + Queue()))[|returned0|..] == buf + Queue();
    }

    // The copying of one turn of buffered_read's loop
    method Gobble(left: nat) returns (data: seq<byte>)
      requires Valid() && lastchar == EOF && curpos != bufend && left > 0 && CanRead(curpos, bufend, left)
      modifies this`curpos, this`returned
      ensures Valid() && 0 < |data| <= left && returned == old(returned) + data
      ensures CanRead(curpos, bufend, left - |data|)
      ensures left <= Length(old(curpos), bufend) ==> |data| == left
      ensures |data| < left ==> curpos == bufend
      ensures In(curpos, bufend, left - |data|) == Gobbled(In(old(curpos), bufend, left))
    {
      data := [];
      if curpos + left >= NET_BUFSIZE && bufend < curpos {
        data := Take(NET_BUFSIZE - curpos);
      }
      var nread: nat := left - |data|;
      if bufend > curpos && bufend - curpos < nread {
        nread := bufend - curpos;
      }
      if nread > 0 {
        var more := Take(nread);
        Assoc(old(returned), data, more);
        data := data + more;
      }
    }

    // buffered_read
    method BufferedRead(fd: int, len: nat) returns (r: int, buf: seq<byte>)
      requires Valid() && lastchar == EOF && CanRead(curpos, bufend, len)
      modifies this`curpos, this`bufend, this`received, this`returned, netbuf
      ensures Valid() && old(received) <= received && returned == old(returned) + buf && |buf| <= len
      ensures fd < 0 ==> r == -1 && buf == []
      ensures fd >= 0 ==> r == |buf| && (r < len ==> Queue() == [])
      ensures fd >= 0 && len <= |old(Queue())| ==> r == len
      ensures old(Queue()) + received[|old(received)|..] == buf + Queue()
    {
      buf := [];
      if fd < 0 {
        assert old(received)[|old(received)|..] == [] && old(Queue()) + [] == [] + Queue();
        return -1, [];
      }
      Conserved();
      LengthOfLive(netbuf[..], curpos, bufend);
      while |buf| < len
        invariant Valid() && old(received) <= received && returned == old(returned) + buf && |buf| <= len
        invariant CanRead(curpos, bufend, len - |buf|)
        invariant len <= |old(Queue())| ==> |buf| == 0 || |buf| == len
        invariant buf == [] ==> curpos == old(curpos) && Length(curpos, bufend) >= old(Length(curpos, bufend))
      {
        var first: seq<byte> := *;
        Fill(first);
        if curpos == bufend {
          break;
        }
        var data := Gobble(len - |buf|);
        Assoc(old(returned), buf, data);
        buf := buf + data;
      }
      r := |buf|;
      LengthOfLive(netbuf[..], curpos, bufend);
      FirstInFirstOut(old(received), old(returned), old(Queue()), buf);
    }

    // The same n bytes, one at a time
    method ReadOneByOne(fd: int, n: nat) returns (buf: seq<byte>)
      requires Valid() && lastchar == EOF && fd >= 0 && n <= |Queue()|
      modifies this`curpos, this`bufend, this`received, this`returned, netbuf
      ensures Valid() && old(received) <= received && |buf| == n
      ensures old(Queue()) + received[|old(received)|..] == buf + Queue()
    {
      buf := [];
      Conserved();
      while |buf| < n
        invariant Valid() && |buf| <= n && returned == old(returned) + buf && old(received) <= received
      {
        FirstInFirstOut(old(received), old(returned), old(Queue()), buf);
        var c := BufferedReadOne(fd);
        Assoc(old(returned), buf, [c as byte]);
        buf := buf + [c as byte];
      }
      FirstInFirstOut(old(received), old(returned), old(Queue()), buf);
    }

    // ---------- lines ----------

    // sgetc
    method Sgetc(fd: int) returns (c: int)
      requires Valid()
      modifies this, netbuf
      ensures Valid() && old(received) <= received && lastchar == EOF
      ensures if c == EOF then returned == old(returned)
              else 0 <= c < 256 && returned == old(returned) + [c as byte]
      ensures fd >= 0 && old(Queue()) != [] ==> c != EOF
    {
      if lastchar != EOF {
        assert Look(0);
        c := lastchar;
        Assoc(returned, [c as byte], Live(netbuf[..], curpos, bufend));
        lastchar := EOF;
        returned := returned + [c as byte];
        return;
      }
      c := BufferedReadOne(fd);
    }

    // sungetc: c is read next, in place of a character pushed back before; EOF takes that back. The byte
    // that was read last is as if it had not been read yet; any other counts as received.
    method Sungetc(c: int) returns (r: int)
      requires Valid() && EOF <= c < 256
      modifies this`lastchar, this`returned, this`received
      ensures Valid() && r == c && lastchar == c
      ensures Queue() == (if c == EOF then [] else [c as byte]) + if old(lastchar) == EOF then old(Queue()) else old(Queue())[1..]
      ensures Unread(old(returned), old(lastchar), c) ==> returned + [c as byte] == old(returned) && received == old(received)
    {
      Conserved();
      ghost var queue, again := Queue(), Unread(returned, lastchar, c);
      lastchar := c;
      if again {
        assert returned == returned[..|returned| - 1] + [c as byte];
        Assoc(returned[..|returned| - 1], [c as byte], queue);
        returned := returned[..|returned| - 1];
      } else {
        received := returned + Queue();
      }
      return c;
    }

    // One character more behind text, all of it from a queue that started with q unless sgetc has failed
    method NextChar(fd: int, ghost returned0: seq<byte>, ghost q: seq<byte>, ghost text: seq<byte>, ghost eof: bool) returns (c: int)
      requires Valid() && returned0 + q <= received && (!eof ==> returned == returned0 + text)
      modifies this, netbuf
      ensures Valid() && old(received) <= received && lastchar == EOF && EOF <= c < 256 && old(returned) <= returned
      ensures c == EOF && !eof && fd >= 0 ==> q <= text
      ensures c != EOF && !eof ==> returned == returned0 + text + [c as byte] && Alike(q, text + [c as byte])
    {
      Conserved();
      if !eof {
        SameStart(returned0, q, text, Queue());
      }
      c := Sgetc(fd);
      if c != EOF && !eof {
        Conserved();
        assert returned0 + text + [c as byte] == returned0 + (text + [c as byte]);
        SameStart(returned0, q, text + [c as byte], Queue());
      }
    }

    // sgets: a line with its newline, or as much of it as fits. eof says that sgetc failed.
    method Sgets(len: nat, fd: int) returns (r: Line, ghost eof: bool)
      requires Valid()
      modifies this, netbuf
      ensures Valid() && old(received) <= received
      ensures r.Text? && !eof ==>
                if IsLine(r.text) then |r.text| < len && returned == old(returned) + r.text
                else |r.text| == len - 1 && NEWLINE !in r.text &&
                     |returned| == |old(returned)| + len && old(returned) + r.text <= returned
      ensures old(returned) <= returned && (r.TimedOut? ==> returned == old(returned) && old(curpos == bufend))
      ensures r.Broken? ==> (len == 0 && returned == old(returned)) || eof
      ensures r.Text? ==> lastchar == EOF
      // What is waiting is returned: a whole line that fits, or as much of a longer one as does.
      ensures fd >= 0 && len > 0 && old(curpos != bufend) ==> Served(old(Queue()), len, r, eof)
    {
      eof := false;
      if len == 0 {
        return Broken, false;
      }
      var silent: bool := *;
      if curpos == bufend && silent {
        return TimedOut, false;
      }
      r, eof := GetText(len, fd);
    }

    // The loop of sgets
    method GetText(len: nat, fd: int) returns (r: Line, ghost eof: bool)
      requires Valid() && len > 0
      modifies this, netbuf
      ensures Valid() && old(received) <= received && old(returned) <= returned && lastchar == EOF && !r.TimedOut?
      ensures r.Text? && !eof ==>
                if IsLine(r.text) then |r.text| < len && returned == old(returned) + r.text
                else |r.text| == len - 1 && NEWLINE !in r.text &&
                     |returned| == |old(returned)| + len && old(returned) + r.text <= returned
      ensures r.Broken? ==> eof
      ensures fd >= 0 ==> Served(old(Queue()), len, r, eof)
    {
      Conserved();
      ghost var q, returned0 := Queue(), returned;
      var text: seq<byte>, room: nat := [], len - 1;
      var c := NextChar(fd, returned0, q, text, false);
      eof := c < 0;
      while room > 0
        invariant Valid() && old(received) <= received && lastchar == EOF && EOF <= c < 256 && room + |text| == len - 1
        invariant old(returned) <= returned
        invariant if eof then fd < 0 || q == [] else c >= 0 && returned == returned0 + text + [c as byte] && Alike(q, text + [c as byte])
        invariant NEWLINE !in text
        decreases room
      {
        room := room - 1;
        var stored: byte := if c < 0 then 255 else c;
        text := text + [stored];
        if stored == NEWLINE {
          LineServed(fd, q, len, text, eof);
          return Text(text), eof;
        }
        assert eof || returned == returned0 + text;
        c := NextChar(fd, returned0, q, text, eof);
        if c < 0 {
          NoneServed(fd, q, len, text);
          return Broken, true;
        }
      }
      if c < 0 {
        NoneServed(fd, q, len, text);
        return Broken, true;
      }
      PartServed(fd, q, len, text, c as byte, eof);
      return Text(text), eof;
    }

    // Successive calls of sgets return the first lines of the stream, that is of what was queued before
    // and has been received since, if every line of it fits. They do return lines while there are any.
    method ReadLines(fd: int, len: nat, calls: nat) returns (lines: seq<seq<byte>>, ghost eof: bool)
      requires Valid() && len > 1
      modifies this, netbuf
      ensures Valid() && old(received) <= received
      ensures var stream := old(Queue()) + received[|old(received)|..];
              !eof && Fits(stream, len - 1) ==> Split(stream) == lines + Split(Queue()) && stream == Joined(lines) + Queue()
      ensures fd >= 0 && old(lastchar) == EOF && Fits(old(Queue()), len - 1) && |Split(old(Queue()))| >= calls ==>
                !eof && lines == Split(old(Queue()))[..calls]
    {
      Conserved();
      ghost var received0, returned0, queue0 := received, returned, Queue();
      lines, eof := TakeLines(fd, len, calls);
      ghost var taken := returned[|returned0|..];
      assert returned == returned0 + taken && (returned0 + Joined(lines))[|returned0|..] == Joined(lines);
      FirstInFirstOut(received0, returned0, queue0, taken);
      if !eof {
        FirstLines(lines, taken, Queue(), len - 1);
      }
    }

    // Of the queue, the lines of todo are next, and all of them fit. Only an assertion of Look unfolds this.
    ghost predicate Waits(todo: seq<byte>, m: nat)
      requires Valid()
      reads this, netbuf
    {
      forall x: int {:trigger Look(x)} :: Look(x) ==> lastchar == EOF && todo <= Queue() && Fits(todo, m)
    }

    // The same, told by what is returned
    method TakeLines(fd: int, len: nat, calls: nat) returns (lines: seq<seq<byte>>, ghost eof: bool)
      requires Valid() && len > 1
      modifies this, netbuf
      ensures Valid() && old(received) <= received && old(returned) <= returned
      ensures !eof ==> AreLines(returned[|old(returned)|..], lines, len - 1)
      ensures fd >= 0 && old(lastchar) == EOF && Fits(old(Queue()), len - 1) && |Split(old(Queue()))| >= calls ==>
                !eof && lines == Split(old(Queue()))[..calls]
    {
      lines, eof := [], false;
      ghost var start, todo, all := |returned|, Queue(), Split(Queue());
      ghost var ready := fd >= 0 && lastchar == EOF && Fits(todo, len - 1) && |all| >= calls;
      for n := 0 to calls
        invariant Valid() && old(received) <= received && old(returned) <= returned
        invariant !eof ==> AreLines(returned[start..], lines, len - 1)
        invariant ready ==> !eof && Waits(todo, len - 1) && IsSplit(all, lines, todo, n)
      {
        var go;
        ghost var before, line, left := lines, [], todo;
        if ready {
          LineLeft(all, lines, todo, n);
        }
        go, lines, eof, line, left := TakeLine(fd, len, start, lines, eof, todo);
        if ready {
          StillSplit(all, before, todo, n, line, left);
        }
        todo := left;
        if !go {
          return;
        }
      }
      if ready {
        AllSplit(all, lines, todo, calls);
      }
    }

    // One of these calls
    method TakeLine(fd: int, len: nat, ghost start: nat, lines: seq<seq<byte>>, ghost eof: bool, ghost todo: seq<byte>)
      returns (go: bool, more: seq<seq<byte>>, ghost failed: bool, ghost line: seq<byte>, ghost left: seq<byte>)
      requires Valid() && len > 1 && start <= |returned| && (!eof ==> AreLines(returned[start..], lines, len - 1))
      modifies this, netbuf
      ensures Valid() && old(received) <= received && old(returned) <= returned
      ensures !failed ==> AreLines(returned[start..], more, len - 1)
      ensures fd >= 0 && !eof && old(Waits(todo, len - 1)) && Find(todo) < |todo| ==>
                go && !failed && more == lines + [line] && IsFirst(todo, line, left) && Waits(left, len - 1)
    {
      ghost var before := returned;
      var r;
      r, failed, line, left := NextLine(fd, len, todo);
      failed := failed || eof;
      match r {
        case TimedOut => return true, lines, failed, line, left;
        case Broken => return false, lines, failed, line, left;
        case Text(text) =>
          if !failed {
            LineTaken(before, returned, start, lines, text, len - 1);
          }
          return true, lines + [text], failed, line, left;
      }
    }

    // sgets, which returns the line that waits
    method NextLine(fd: int, len: nat, ghost todo: seq<byte>)
      returns (r: Line, ghost eof: bool, ghost line: seq<byte>, ghost left: seq<byte>)
      requires Valid() && len > 1
      modifies this, netbuf
      ensures Valid() && old(received) <= received && old(returned) <= returned
      ensures r.Text? && !eof ==>
                if IsLine(r.text) then returned == old(returned) + r.text
                else |r.text| == len - 1 && NEWLINE !in r.text && old(returned) + r.text <= returned
      ensures r.TimedOut? ==> returned == old(returned)
      ensures r.Broken? ==> eof
      ensures fd >= 0 && old(Waits(todo, len - 1)) && Find(todo) < |todo| ==>
                r == Text(line) && !eof && IsFirst(todo, line, left) && Waits(left, len - 1)
    {
      ghost var ready := fd >= 0 && Waits(todo, len - 1) && Find(todo) < |todo|;
      ghost var received0, returned0, queue0 := received, returned, Queue();
      Conserved();
      if ready {
        LineWaits(todo, len - 1);
      }
      r, eof := Sgets(len, fd);
      ghost var k := if Find(todo) < |todo| then Find(todo) + 1 else 0;
      line, left := todo[..k], todo[k..];
      if ready {
        ServedFirst(queue0, todo, len, r, eof);
        FirstInFirstOut(received0, returned0, queue0, r.text);
        WhatIsLeft(queue0, received[|received0|..], r.text, Queue(), todo, len - 1);
      }
    }

    lemma LineWaits(todo: seq<byte>, m: nat)
      requires Valid() && Waits(todo, m) && Find(todo) < |todo|
      ensures lastchar == EOF && todo <= Queue() && Fits(todo, m) && curpos != bufend
    {
      assert Look(0);
      LengthOfLive(netbuf[..], curpos, bufend);
    }
  }

  lemma FindPrefix(a: seq<byte>, b: seq<byte>)
    requires a <= b && Find(a) < |a|
    ensures Find(b) == Find(a) && b[..Find(b) + 1] == a[..Find(a) + 1]
  {
    var k := Find(a);
    SlicePrefix(a, b, k);
    SlicePrefix(a, b, k + 1);
    FindAt(b, k);
  }

  lemma SlicePrefix(a: seq<byte>, b: seq<byte>, k: nat)
    requires a <= b && k <= |a|
    ensures b[..k] == a[..k]
  {
  }

  lemma FirstIsLine(a: seq<byte>)
    requires Find(a) < |a|
    ensures IsLine(a[..Find(a) + 1])
  {
    assert a[..Find(a) + 1][..Find(a)] == a[..Find(a)];
  }

  // The first line of a stream that fits is no longer than that.
  lemma FirstFits(a: seq<byte>, m: nat)
    requires Fits(a, m) && Find(a) < |a|
    ensures Find(a) < m
  {
    if |a| >= m {
      assert EndsWithin(a, 0, m);
      var i :| 0 <= i < m && a[0..m][i] == NEWLINE;
      assert forall j :: 0 <= j < Find(a) ==> a[..Find(a)][j] == a[j];
    }
  }

  lemma ServedFirst(q: seq<byte>, todo: seq<byte>, len: nat, r: Line, eof: bool)
    requires todo <= q && Find(todo) < |todo| && len > 1 && Fits(todo, len - 1) && Served(q, len, r, eof)
    ensures r == Text(todo[..Find(todo) + 1]) && !eof && IsLine(r.text)
  {
    FindPrefix(todo, q);
    FirstFits(todo, len - 1);
    FirstIsLine(todo);
    ServedLine(q, len, r, eof);
  }

  lemma ServedLine(q: seq<byte>, len: nat, r: Line, eof: bool)
    requires Served(q, len, r, eof) && Find(q) < |q| && Find(q) + 1 < len
    ensures r == Text(q[..Find(q) + 1]) && !eof
  {
    assert Look(0);
  }

  lemma WhatIsLeft(queue0: seq<byte>, delivered: seq<byte>, line: seq<byte>, queue: seq<byte>, todo: seq<byte>, m: nat)
    requires queue0 + delivered == line + queue && todo <= queue0 && line <= todo && Fits(todo, m)
    ensures todo[|line|..] <= queue && Fits(todo[|line|..], m)
  {
    SuffixFits(todo, |line|, m);
    StartsBehind(queue0 + delivered, line, queue, todo);
  }

  lemma StartsBehind(all: seq<byte>, line: seq<byte>, queue: seq<byte>, todo: seq<byte>)
    requires all == line + queue && todo <= all && line <= todo
    ensures todo[|line|..] <= queue
  {
    assert all[|line|..] == queue && all[..|todo|][|line|..] == queue[..|todo| - |line|];
  }

  lemma SuffixFits(todo: seq<byte>, k: nat, m: nat)
    requires k <= |todo| && Fits(todo, m)
    ensures Fits(todo[k..], m)
  {
    var left := todo[k..];
    forall i: nat | i + m <= |left|
      ensures EndsWithin(left, i, m)
    {
      assert EndsWithin(todo, k + i, m) && todo[k + i..k + i + m] == left[i..i + m];
    }
  }

  // The first n lines of all, and a text with the others. Only an assertion of Look unfolds this.
  ghost predicate IsSplit(all: seq<seq<byte>>, lines: seq<seq<byte>>, todo: seq<byte>, n: nat) {
    forall x: int {:trigger Look(x)} :: Look(x) ==> |lines| == n && lines + Split(todo) == all
  }

  lemma LineLeft(all: seq<seq<byte>>, lines: seq<seq<byte>>, todo: seq<byte>, n: nat)
    requires IsSplit(all, lines, todo, n) && n < |all|
    ensures Find(todo) < |todo|
  {
    assert Look(0);
  }

  // The first line of a stream, and what is behind it. Only an assertion of Look unfolds this.
  ghost predicate IsFirst(todo: seq<byte>, line: seq<byte>, left: seq<byte>) {
    forall x: int {:trigger Look(x)} :: Look(x) ==>
      Find(todo) < |todo| && line == todo[..Find(todo) + 1] && left == todo[Find(todo) + 1..]
  }

  lemma StillSplit(all: seq<seq<byte>>, lines: seq<seq<byte>>, todo: seq<byte>, n: nat, line: seq<byte>, left: seq<byte>)
    requires IsSplit(all, lines, todo, n) && n < |all| && IsFirst(todo, line, left)
    ensures IsSplit(all, lines + [line], left, n + 1)
  {
    assert Look(0);
    assert lines + ([line] + Split(left)) == (lines + [line]) + Split(left);
  }

  lemma AllSplit(all: seq<seq<byte>>, lines: seq<seq<byte>>, todo: seq<byte>, n: nat)
    requires IsSplit(all, lines, todo, n) && n <= |all|
    ensures lines == all[..n]
  {
    assert Look(0);
  }

  ghost predicate Unread(returned: seq<byte>, lastchar: int, c: int) {
    lastchar == EOF && returned != [] && returned[|returned| - 1] == c
  }

  // The one is the start of the other.
  ghost predicate Alike(q: seq<byte>, t: seq<byte>) {
    q <= t || t <= q
  }

  lemma SameStart(before: seq<byte>, q: seq<byte>, t: seq<byte>, rest: seq<byte>)
    requires before + q <= before + t + rest
    ensures Alike(q, t) && (rest == [] ==> q <= t)
  {
    var all := before + t + rest;
    assert all[|before|..] == t + rest && (before + q)[|before|..] == q;
    assert q == all[..|before + q|][|before|..];
    assert q == (t + rest)[..|q|];
    if |q| <= |t| {
      assert q == t[..|q|];
    } else {
      assert t == q[..|t|];
    }
  }

  // What a reader of lines gets of a queue that starts with q. Only an assertion of Look unfolds this.
  ghost predicate Served(q: seq<byte>, len: nat, r: Line, eof: bool)
  {
    forall x: int {:trigger Look(x)} :: Look(x) ==>
      && (Find(q) < |q| && Find(q) + 1 < len ==> r == Text(q[..Find(q) + 1]) && !eof)
      && (0 < len <= |q| && Find(q) + 1 >= len ==> r == Text(q[..len - 1]) && !eof)
  }

  lemma LineServed(fd: int, q: seq<byte>, len: nat, text: seq<byte>, eof: bool)
    requires IsLine(text) && |text| < len && if eof then fd < 0 || q == [] else Alike(q, text)
    ensures fd >= 0 ==> Served(q, len, Text(text), eof)
  {
    var k := |text| - 1;
    if !eof && |text| <= |q| {
      assert q[..k] == text[..k] && q[k] == text[k];
      FindAt(q, k);
      assert q[..k + 1] == text;
    }
  }

  lemma NoneServed(fd: int, q: seq<byte>, len: nat, text: seq<byte>)
    requires NEWLINE !in text && |text| < len && (fd < 0 || q <= text)
    ensures fd >= 0 ==> Served(q, len, Broken, true)
  {
  }

  lemma PartServed(fd: int, q: seq<byte>, len: nat, text: seq<byte>, c: byte, eof: bool)
    requires NEWLINE !in text && |text| + 1 == len && if eof then fd < 0 || q == [] else Alike(q, text + [c])
    ensures fd >= 0 ==> Served(q, len, Text(text), eof)
  {
    var t := text + [c];
    if !eof {
      assert forall i :: 0 <= i < |text| && i < |q| ==> q[i] == t[i] && t[i] in text;
      if len <= |q| {
        assert t == q[..len] && q[..len - 1] == text;
      }
    }
  }

  datatype Line = TimedOut | Broken | Text(text: seq<byte>)

  // A newline at the end and nowhere else
  predicate IsLine(text: seq<byte>) {
    text != [] && text[|text| - 1] == '\n' as int && NEWLINE !in text[..|text| - 1]
  }

  // No line of the stream is longer than m bytes, its newline included.
  ghost predicate Fits(stream: seq<byte>, m: nat) {
    forall i: nat :: i + m <= |stream| ==> EndsWithin(stream, i, m)
  }

  ghost predicate EndsWithin(stream: seq<byte>, i: nat, m: nat)
    requires i + m <= |stream|
  {
    NEWLINE in stream[i..i + m]
  }

  // What is taken are these lines, if all of its lines fit. Only an assertion of Look unfolds this.
  ghost predicate AreLines(taken: seq<byte>, lines: seq<seq<byte>>, m: nat) {
    forall x: int {:trigger Look(x)} :: Look(x) ==>
      (Fits(taken, m) ==> taken == Joined(lines) && forall i :: 0 <= i < |lines| ==> IsLine(lines[i]))
  }

  lemma FitsPrefix(a: seq<byte>, b: seq<byte>, m: nat)
    requires a <= b && Fits(b, m)
    ensures Fits(a, m)
  {
    forall i: nat | i + m <= |a|
      ensures EndsWithin(a, i, m)
    {
      assert EndsWithin(b, i, m) && a[i..i + m] == b[i..i + m];
    }
  }

  lemma TooLong(a: seq<byte>, i: nat, m: nat)
    requires i + m <= |a| && NEWLINE !in a[i..i + m]
    ensures !Fits(a, m)
  {
    assert !EndsWithin(a, i, m);
  }

  // One line more, or as much of it as the buffer takes
  lemma LineTaken(before: seq<byte>, after: seq<byte>, start: nat, lines: seq<seq<byte>>, text: seq<byte>, m: nat)
    requires start <= |before| && AreLines(before[start..], lines, m)
    requires if IsLine(text) then after == before + text
             else |text| == m && NEWLINE !in text && before + text <= after
    ensures AreLines(after[start..], lines + [text], m)
  {
    var b, a := before[start..], after[start..];
    assert b + text <= a && (IsLine(text) ==> a == b + text);
    assert Look(0);
    if !IsLine(text) {
      assert a[|b|..|b| + m] == text;
      TooLong(a, |b|, m);
    } else if Fits(a, m) {
      FitsPrefix(b, a, m);
      JoinedMore(lines, text);
    }
  }

  // Where the first newline is, or the length if there is none
  function Find(s: seq<byte>): (k: nat)
    ensures k <= |s| && NEWLINE !in s[..k] && (k < |s| ==> s[k] == NEWLINE)
  {
    if s == [] || s[0] == NEWLINE then 0
    else
      var k := Find(s[1..]);
      assert s[..k + 1] == [s[0]] + s[1..][..k];
      k + 1
  }

  // The complete lines of a stream
  function Split(s: seq<byte>): seq<seq<byte>>
    decreases |s|
  {
    var k := Find(s);
    if k == |s| then [] else [s[..k + 1]] + Split(s[k + 1..])
  }

  // Lines at the start of a stream are its own first lines.
  lemma {:induction false} LinesAreTheLines(lines: seq<seq<byte>>, rest: seq<byte>)
    requires forall i :: 0 <= i < |lines| ==> IsLine(lines[i])
    ensures Split(Joined(lines) + rest) == lines + Split(rest)
  {
    if lines == [] {
      assert Joined(lines) + rest == rest && lines + Split(rest) == Split(rest);
    } else {
      var first, more := lines[0], Joined(lines[1..]) + rest;
      Assoc(first, Joined(lines[1..]), rest);
      LineFirst(first, more);
      LinesAreTheLines(lines[1..], rest);
      HeadFirst(lines, Split(rest));
    }
  }

  lemma HeadFirst<T>(s: seq<T>, t: seq<T>)
    requires s != []
    ensures [s[0]] + (s[1..] + t) == s + t
  {
    assert [s[0]] + s[1..] == s;
  }

  lemma LineFirst(first: seq<byte>, more: seq<byte>)
    requires IsLine(first)
    ensures Split(first + more) == [first] + Split(more)
  {
    var s := first + more;
    assert s[..|first| - 1] == first[..|first| - 1] && s[|first| - 1] == NEWLINE;
    FindAt(s, |first| - 1);
    assert s[..|first|] == first && s[|first|..] == more;
  }

  lemma FirstLines(lines: seq<seq<byte>>, taken: seq<byte>, rest: seq<byte>, m: nat)
    requires AreLines(taken, lines, m)
    ensures Fits(taken + rest, m) ==> Split(taken + rest) == lines + Split(rest) && taken + rest == Joined(lines) + rest
  {
    assert Look(0);
    if Fits(taken + rest, m) {
      FitsPrefix(taken, taken + rest, m);
      LinesAreTheLines(lines, rest);
    }
  }

  lemma {:induction false} FindAt(s: seq<byte>, j: nat)
    requires j < |s| && s[j] == NEWLINE && NEWLINE !in s[..j]
    ensures Find(s) == j
  {
    if j > 0 {
      assert s[0] == s[..j][0];
      assert s[..j] == [s[0]] + s[1..][..j - 1];
      FindAt(s[1..], j - 1);
    }
  }
}
