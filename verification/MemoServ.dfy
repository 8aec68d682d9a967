// memoserv.c: the memos of a nick or channel in an array that SEND, CANCEL and DEL change.

module MemoServ {
  import opened CString
  import opened NumList
  import opened MemoList
  import opened Sight

  datatype DelReply = Syntax | NoMemos | DeletedSeveral(list: string) | DeletedOne(num: int)
                    | DoesNotExist(num: int) | DeletedNone | DeletedAll

  class MemoInfo {
    var memos: array?<Memo>
    var memocount: int
    var memomax: int

    ghost predicate Valid()
      reads this
    {
      0 <= memocount <= 32767 && (memocount > 0 ==> memos != null && memocount <= memos.Length)
    }

    ghost function Contents(): seq<Memo>
      requires Valid()
      reads this, memos
    {
      if memos == null || memocount == 0 then [] else memos[..memocount]
    }

    constructor (memomax: int)
      ensures Valid() && Contents() == [] && this.memomax == memomax
    {
      memos, memocount := null, 0;
      this.memomax := memomax;
    }

    // ---------- SEND ----------

    // srealloc to n memos
    method Resize(n: nat)
      requires Valid() && memocount < n
      modifies this`memos
      ensures Valid() && memos != null && fresh(memos) && memos.Length == n && Contents() == old(Contents())
    {
      var a := new Memo[n];
      var was := memos;
      var i := 0;
      while i < memocount
        invariant 0 <= i <= memocount == old(memocount) && memos == was && (memocount > 0 ==> was != null && memocount <= was.Length)
        invariant i > 0 ==> a[..i] == was[..i]
      {
        a[i] := was[i];
        i := i + 1;
      }
      memos := a;
    }

    // The number of the last memo, whose place is there already
    method Number(m: Memo)
      requires Valid() && memocount < 32767 && memos != null && memos.Length == memocount + 1
      modifies this`memocount, memos
      ensures Valid() && Contents() == Numbered(old(Contents()), m)
    {
      ghost var was := Contents();
      memocount := memocount + 1;
      var last := memocount - 1;
      memos[last] := m.(number := 1);
      if memocount > 1 {
        var number := (memos[last - 1].number + 1) % LIMIT;
        memos[last] := m.(number := number);
        if number < 1 {
          Renumber();
        }
      }
    }

    // All memos are numbered from 1.
    method Renumber()
      requires Valid() && memos != null && memocount > 0
      modifies memos
      ensures Valid() && Contents() == Renumbered(old(Contents()))
    {
      var i := 0;
      while i < memocount
        invariant 0 <= i <= memocount
        invariant forall k :: i <= k < memocount ==> memos[k] == old(memos[k])
        invariant forall k :: 0 <= k < i ==> memos[k] == old(memos[k]).(number := k + 1)
      {
        memos[i] := memos[i].(number := i + 1);
        i := i + 1;
      }
    }

    // do_send, as far as the list goes: a full list takes no more, unless the sender is an administrator.
    method Send(source: string, text: string, now: int, admin: bool) returns (sent: bool)
      requires Valid() && memocount < 32767
      modifies this`memos, this`memocount
      ensures Valid() && (memos == old(memos) || fresh(memos))
      ensures sent == (admin || memomax < 0 || memomax > old(memocount))
      ensures Contents() == if sent then Sent(old(Contents()), source, text, now) else old(Contents())
      ensures Ordered(old(Contents())) ==> Ordered(Contents())
    {
      if Ordered(Contents()) {
        SendKeepsOrder(Contents(), source, text, now);
      }
      if memomax == 0 && !admin {
        return false;
      }
      if memomax > 0 && memocount >= memomax && !admin {
        return false;
      }
      Resize(memocount + 1);
      var sender := if |source| < NICKMAX then source else source[..NICKMAX - 1];
      Number(Memo(1, true, now, sender, text));
      sent := true;
    }

    // ---------- deletion ----------

    // memmove of the memos after the i-th, one place down
    method CloseGap(i: nat)
      requires memos != null && 0 <= i <= memocount < memos.Length
      modifies memos
      ensures memos[..i] == old(memos[..i]) && memos[i..memocount] == old(memos[i + 1..memocount + 1])
    {
      ghost var was := memos[..];
      var k := i;
      while k < memocount
        invariant i <= k <= memocount
        invariant forall j :: 0 <= j < i || k <= j < memos.Length ==> memos[j] == was[j]
        invariant forall j :: i <= j < k ==> memos[j] == was[j + 1]
      {
        memos[k] := memos[k + 1];
        k := k + 1;
      }
      assert memos[i..memocount] == was[i + 1..memocount + 1];
    }

    method FindMemo(num: int) returns (i: nat)
      requires Valid()
      ensures i <= |Contents()| && (i < |Contents()| ==> Contents()[i].number == num)
      ensures forall k :: 0 <= k < i ==> Contents()[k].number != num
    {
      i := 0;
      while i < memocount && memos[i].number != num
        invariant 0 <= i <= memocount
        invariant forall k :: 0 <= k < i ==> Contents()[k].number != num
      {
        i := i + 1;
      }
    }

    // The i-th memo goes, and the array with the last.
    method RemoveMemo(i: nat)
      requires Valid() && i < memocount
      modifies this`memos, this`memocount, memos
      ensures Valid() && Contents() == old(Contents())[..i] + old(Contents())[i + 1..]
      ensures memos == old(memos) || memos == null
    {
      ghost var was := Contents();
      memocount := memocount - 1;
      CloseGap(i);
      assert memos[..memocount] == was[..i] + was[i + 1..];
      if memocount == 0 {
        memos := null;
      }
    }

    // delmemo: the first memo with a number goes.
    method DelMemo(num: int) returns (found: bool)
      requires Valid()
      modifies this`memos, this`memocount, memos
      ensures Valid() && Contents() == RemoveFirst(old(Contents()), num)
      ensures found == (|Contents()| < |old(Contents())|) && (!found ==> Contents() == old(Contents()))
      ensures memos == old(memos) || memos == null
    {
      var i := FindMemo(num);
      RemoveFound(Contents(), i, num);
      if i < memocount {
        RemoveMemo(i);
        return true;
      }
      return false;
    }

    // do_cancel, as far as the list goes: the newest unread memo from a sender goes.
    method Cancel(nick: string) returns (cancelled: bool)
      requires Valid() && Ordered(Contents())
      modifies this`memos, this`memocount, memos
      ensures Valid() && Ordered(Contents()) && cancelled == (Newest(old(Contents()), nick) >= 0)
      ensures Contents() == if cancelled then old(Contents())[..Newest(old(Contents()), nick)]
                                              + old(Contents())[Newest(old(Contents()), nick) + 1..]
                            else old(Contents())
    {
      ghost var was := Contents();
      var i := memocount - 1;
      while i >= 0
        invariant -1 <= i < memocount && Newest(was, nick) == Newest(was[..i + 1], nick)
      {
        assert was[..i + 1][..i] == was[..i];
        if memos[i].unread && SameName(memos[i].sender, nick) {
          RemoveAt(was, i);
          RemoveOne(was, was[i].number);
          WithoutKeepsOrder(was, {was[i].number});
          var found := DelMemo(memos[i].number);
          return true;
        }
        i := i - 1;
      }
      return false;
    }

    // ---------- DEL ----------

    // The variables of do_del
    ghost function State(d: DelVars): DelState
      requires Valid()
      reads this, memos, d
    {
      DelState(Contents(), d.last, d.last0, d.text)
    }

    // del_memo_callback
    method DelMemoCallback(num: int, d: DelVars) returns (res: int)
      requires Valid() && d.Valid()
      modifies this`memos, this`memocount, memos, d, d.buf
      ensures Valid() && d.Valid() && (State(d), res) == DelStep(old(State(d)), num)
      ensures memos == old(memos) || memos == null
    {
      var found := DelMemo(num);
      if !found {
        return 0;
      }
      if num != d.last + 1 {
        if d.last != -1 {
          d.Report();
        }
        d.last0 := num;
      }
      d.last := num;
      return 1;
    }

    // What the calls still to come lead to. Only an assertion of Look unfolds this.
    ghost predicate Leads(d: DelVars, todo: seq<int>, sum: int, count: nat, all: Outcome<DelState>)
      requires Valid()
      reads this, memos, d
    {
      forall x: int {:trigger Look(x)} :: Look(x) ==> Added(sum, count, Calls(DelStep, State(d), todo)) == all
    }

    lemma LeadsAtLast(d: DelVars, sum: int, count: nat, all: Outcome<DelState>)
      requires Valid() && Leads(d, [], sum, count, all)
      ensures all == Outcome(State(d), sum, count)
    {
      assert Look(0);
    }

    // A call of it, with those for other numbers to follow
    method CallOne(num: int, d: DelVars, ghost rest: seq<int>, ghost sum: int, ghost count: nat, ghost all: Outcome<DelState>)
      returns (res: int)
      requires Valid() && d.Valid() && Leads(d, [num] + rest, sum, count, all)
      modifies this`memos, this`memocount, memos, d, d.buf
      ensures Valid() && d.Valid() && (memos == old(memos) || memos == null)
      ensures if res < 0 then all == Outcome(State(d), sum, count + 1) else Leads(d, rest, sum + res, count + 1, all)
    {
      assert Look(0);
      CallsStep(DelStep, State(d), [num] + rest, sum, count);
      assert ([num] + rest)[1..] == rest;
      res := DelMemoCallback(num, d);
    }

    // The second half of process_numlist with this callback
    method DelEach(numflag: array<bool>, min: int, max: int, ghost n: set<int>, d: DelVars)
      returns (retval: int, count: nat)
      requires Valid() && d.Valid() && numflag.Length == MAX_NUMBER + 1 && 0 <= min && max <= MAX_NUMBER
      requires forall i :: min <= i <= max ==> (numflag[i] <==> i in n)
      modifies this`memos, this`memocount, memos, d, d.buf
      ensures Valid() && d.Valid() && Outcome(State(d), retval, count) == Calls(DelStep, old(State(d)), Listed(n, min, max))
    {
      ghost var todo := Listed(n, min, max);
      ghost var all := Calls(DelStep, State(d), todo);
      assert Leads(d, todo, 0, 0, all);
      retval, count := 0, 0;
      var i := min;
      while i <= max
        invariant Valid() && d.Valid() && (memos == old(memos) || memos == null)
        invariant min <= i && todo == Listed(n, i, max) && Leads(d, todo, retval, count, all)
        decreases max - i
      {
        if numflag[i] {
          assert todo == [i] + Listed(n, i + 1, max);
          todo := todo[1..];
          var res := CallOne(i, d, todo, retval, count, all);
          count := count + 1;
          if res < 0 {
            return;
          }
          retval := retval + res;
        }
        i := i + 1;
      }
      LeadsAtLast(d, retval, count, all);
    }

    // DEL with a number list
    method DelNumbers(numstr: string, wide: bool, d: DelVars)
      returns (delcount: int, count: nat, ghost gone: set<int>, ghost report: string)
      requires Valid() && Ordered(Contents()) && d.Valid() && State(d) == Start(Contents())
      modifies this`memos, this`memocount, memos, d, d.buf
      ensures Valid() && Ordered(Contents()) && d.Valid() && d.Awaits(report) && |report| > 0
      ensures KnownToDel(old(Contents()), Contents(), numstr, wide, gone, report, delcount, count, d.last)
    {
      var numflag, min, max := FlagNumbers(numstr, wide);
      ghost var n, ms := Numbers(numstr, wide), Contents();
      ListedWithin(n, 0, MAX_NUMBER, min, max);
      gone := DelMeaning(ms, n, wide);
      WithoutKeepsOrder(ms, n);
      CallsAll(DelStep, Start(ms), Listed(n, 0, MAX_NUMBER));
      delcount, count := DelEach(numflag, min, max, n, d);
      report := Reported(State(d));
      ReportedIsLong(State(d));
    }

    // The same, with the reply that is given
    method DelAndReply(numstr: string, wide: bool) returns (reply: DelReply, ghost gone: set<int>, ghost report: string)
      requires Valid() && Ordered(Contents())
      modifies this`memos, this`memocount, memos
      ensures Valid() && Ordered(Contents()) && Contents() == Without(old(Contents()), Numbers(numstr, wide))
      ensures forall k :: k in gone <==> Has(old(Contents()), k) && k in Numbers(numstr, wide)
      ensures report == Reported(AfterDel(old(Contents()), numstr, wide)) && ReplyMeans(reply, gone, numstr, wide, report)
    {
      ghost var before := Contents();
      var d := new DelVars();
      var delcount, count;
      delcount, count, gone, report := DelNumbers(numstr, wide, d);
      ghost var left, last := Contents(), d.last;
      reply := d.Reply(numstr, wide, delcount, count, report);
      assert Contents() == left;
      ReplyIsRight(before, left, numstr, wide, gone, report, delcount, count, last, reply);
    }

    // do_del once the list is found
    method Del(numstr: Option<string>, wide: bool) returns (reply: DelReply, ghost gone: set<int>)
      requires Valid() && Ordered(Contents())
      modifies this`memos, this`memocount, memos
      ensures Valid() && Ordered(Contents())
      ensures reply == Syntax <==> numstr == None || (!LedByDigit(numstr.value) && !SameName(numstr.value, "ALL"))
      ensures reply == NoMemos <==> reply != Syntax && old(Contents()) == []
      ensures reply == DeletedAll <==> reply != Syntax && reply != NoMemos && !LedByDigit(numstr.value)
      ensures reply == Syntax || reply == NoMemos ==> Contents() == old(Contents())
      ensures reply == DeletedAll ==> Contents() == []
      // With a number list the memos of other numbers are left, and the reply names those that are gone.
      ensures reply !in {Syntax, NoMemos, DeletedAll} ==>
                && Contents() == Without(old(Contents()), Numbers(numstr.value, wide))
                && (forall k :: k in gone <==> Has(old(Contents()), k) && k in Numbers(numstr.value, wide))
                && ReplyMeans(reply, gone, numstr.value, wide, Reported(AfterDel(old(Contents()), numstr.value, wide)))
    {
      gone := {};
      if numstr == None || (!LedByDigit(numstr.value) && !SameName(numstr.value, "ALL")) {
        return Syntax, gone;
      }
      if memocount == 0 {
        return NoMemos, gone;
      }
      if LedByDigit(numstr.value) {
        ghost var report;
        reply, gone, report := DelAndReply(numstr.value, wide);
      } else {
        memos, memocount := null, 0;
        reply := DeletedAll;
      }
    }
  }

  predicate LedByDigit(s: string) {
    s != "" && IsDigit(s[0])
  }

  lemma DigitCodes(s: string)
    ensures LedByDigit(s) <==> s != "" && 48 <= s[0] as int <= 57
  {
  }

  // The variables of do_del after all calls
  ghost function AfterDel(ms: seq<Memo>, numstr: string, wide: bool): DelState {
    Calls(DelStep, Start(ms), Listed(Numbers(numstr, wide), 0, MAX_NUMBER)).state
  }

  lemma ReportedIsLong(s: DelState)
    ensures |Reported(s)| > 0
  {
    RangeTextHasNoNul(s.last0, s.last);
  }

  // The reply on several memos is as much of the report as fits its buffer. It names exactly the numbers
  // that are gone if and only if that is all of it.
  ghost predicate ReplyMeans(reply: DelReply, gone: set<int>, numstr: string, wide: bool, report: string) {
    match reply
    case DeletedSeveral(list) =>
      |gone| > 1 && |report| > 0 && list == Truncated(report, 512)[1..] && (Numbers(list, wide) == gone <==> |report| < 512)
    case DeletedOne(k) => gone == {k}
    case DoesNotExist(k) => gone == {} && |Listed(Numbers(numstr, wide), 0, MAX_NUMBER)| == 1 && k == Strtol(numstr, wide).0
    case DeletedNone => gone == {} && |Listed(Numbers(numstr, wide), 0, MAX_NUMBER)| != 1
    case _ => false
  }

  // What do_del knows before it replies. Only an assertion of Look unfolds this.
  ghost predicate KnownToDel(before: seq<Memo>, after: seq<Memo>, numstr: string, wide: bool, gone: set<int>, report: string,
                          delcount: int, count: nat, last: int)
  {
    forall x: int {:trigger Look(x)} :: Look(x) ==>
      && after == Without(before, Numbers(numstr, wide)) && report == Reported(AfterDel(before, numstr, wide))
      && (forall k :: k in gone <==> Has(before, k) && k in Numbers(numstr, wide))
      && delcount == |gone| == |before| - |after| && count == |Listed(Numbers(numstr, wide), 0, MAX_NUMBER)|
      && (last == -1 <==> gone == {}) && (|gone| == 1 ==> gone == {last})
      && |report| > 0 && (gone != {} ==> (Numbers(Truncated(report, BUFSIZE)[1..], wide) == gone <==> |report| < BUFSIZE))
  }

  lemma ReplyIsRight(before: seq<Memo>, after: seq<Memo>, numstr: string, wide: bool, gone: set<int>, report: string,
                     delcount: int, count: nat, last: int, reply: DelReply)
    requires KnownToDel(before, after, numstr, wide, gone, report, delcount, count, last) && |report| > 0
    requires last == -1 ==> reply == if count == 1 then DoesNotExist(Strtol(numstr, wide).0) else DeletedNone
    requires last != -1 && delcount <= 1 ==> reply == DeletedOne(last)
    requires last != -1 && delcount > 1 ==> reply == DeletedSeveral(Truncated(report, BUFSIZE)[1..])
    ensures after == Without(before, Numbers(numstr, wide))
    ensures forall k :: k in gone <==> Has(before, k) && k in Numbers(numstr, wide)
    ensures report == Reported(AfterDel(before, numstr, wide)) && ReplyMeans(reply, gone, numstr, wide, report)
  {
    assert Look(0);
  }

  const NUL := '\0'

  // What a string and more behind it leave in a buffer
  lemma TruncatedMore(text: string, t: string, n: nat)
    requires n == if |t| < BUFSIZE - |Truncated(text, BUFSIZE)| then |t| else BUFSIZE - |Truncated(text, BUFSIZE)| - 1
    ensures Truncated(text + t, BUFSIZE) == Truncated(text, BUFSIZE) + t[..n]
  {
    if |text| < BUFSIZE {
      assert t[..|t|] == t;
    } else {
      assert t[..0] == "" && (text + t)[..BUFSIZE - 1] == text[..BUFSIZE - 1];
    }
  }

  // The last number deleted, the first of its range, and the text of the ranges before, in a buffer
  class DelVars {
    var last: int
    var last0: int
    const buf: array<char>
    var end: nat
    var left: int
    ghost var text: string   // all that was to be printed

    // The buffer holds as much of the text as fits, and its terminator once there is any. Only an
    // assertion of Look unfolds this.
    ghost predicate Holds()
      requires end < buf.Length == BUFSIZE
      reads this, buf
    {
      forall x: int {:trigger Look(x)} :: Look(x) ==>
        NUL !in text && buf[..end] == Truncated(text, BUFSIZE) && (text != "" ==> buf[end] == NUL)
    }

    // There is always room for the terminator: what snprintf returns is the number of characters that it
    // has written.
    ghost predicate Valid()
      reads this, buf
    {
      end < buf.Length == BUFSIZE && left == BUFSIZE - end && Holds()
    }

    constructor ()
      ensures Valid() && last == -1 && last0 == -1 && text == "" && fresh(buf)
    {
      last, last0 := -1, -1;
      buf := new char[BUFSIZE];
      end, left, text := 0, BUFSIZE, "";
    }

    // A range behind the others
    method Report()
      requires Valid()
      modifies this`end, this`left, this`text, buf
      ensures Valid() && text == old(text) + RangeText(last0, last)
    {
      RangeTextHasNoNul(last0, last);
      var t := RangeText(last0, last);
      var len := Snprintf(t);
      end, left, text := end + len, left - len, text + t;
      assert Look(0);
    }

    // snprintf(end, left, ...), as compat.c has it
    method Snprintf(t: string) returns (len: nat)
      requires Valid() && t != "" && NUL !in t
      modifies buf
      ensures len < left && len == if |t| < left then |t| else left - 1
      ensures buf[..end + len] == Truncated(text + t, BUFSIZE) && buf[end + len] == NUL && NUL !in text + t
    {
      assert Look(0);
      len := if |t| < left then |t| else left - 1;
      assert |buf[..end]| == end;
      TruncatedMore(text, t, len);
      Print(t, len);
    }

    // The first n characters of t at the end of the text, and a terminator
    method Print(t: string, n: nat)
      requires end + n < buf.Length && n <= |t|
      modifies buf
      ensures buf[..end + n] == old(buf[..end]) + t[..n] && buf[end + n] == NUL
    {
      var i := 0;
      while i < n
        invariant 0 <= i <= n && buf[..end] == old(buf[..end]) && buf[end..end + i] == t[..i]
      {
        buf[end + i] := t[i];
        i := i + 1;
      }
      buf[end + n] := NUL;
      assert buf[..end + n] == buf[..end] + buf[end..end + n];
    }

    // The text with the last range still to be printed. Only an assertion of Look unfolds this.
    ghost predicate Awaits(report: string)
      reads this
    {
      forall x: int {:trigger Look(x)} :: Look(x) ==> report == text + RangeText(last0, last)
    }

    // What do_del says in the end
    method Reply(numstr: string, wide: bool, delcount: int, count: nat, ghost report: string) returns (reply: DelReply)
      requires Valid() && Awaits(report) && |report| > 0
      modifies this`end, this`left, this`text, buf
      ensures last == -1 ==> reply == if count == 1 then DoesNotExist(Strtol(numstr, wide).0) else DeletedNone
      ensures last != -1 && delcount <= 1 ==> reply == DeletedOne(last)
      ensures last != -1 && delcount > 1 ==> reply == DeletedSeveral(Truncated(report, BUFSIZE)[1..])
    {
      if last != -1 {
        if delcount > 1 {
          assert Look(0);
          Report();
          var list := List();
          return DeletedSeveral(list);
        }
        return DeletedOne(last);
      }
      if count == 1 {
        return DoesNotExist(Strtol(numstr, wide).0);
      }
      return DeletedNone;
    }

    // The string at buf + 1
    method List() returns (list: string)
      requires Valid() && text != "" && end > 0
      ensures list == Truncated(text, BUFSIZE)[1..]
    {
      assert Look(0);
      ghost var held := Truncated(text, BUFSIZE);
      assert forall k :: 0 <= k < end ==> buf[..end][k] == buf[k] && held[k] in text;
      list := "";
      var p := 1;
      while buf[p] != NUL
        invariant 1 <= p <= end && list == held[1..p]
        decreases end - p
      {
        list := list + [buf[p]];
        p := p + 1;
      }
      assert p == end && held[1..] == held[1..end];
    }
  }
}
