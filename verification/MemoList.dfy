// memoserv.c: what its commands do to a list of memos, as values.

module MemoList {
  import opened CString
  import opened NumList
  import opened NumRanges
  import opened NumCuts
  import opened Sight

  const LIMIT := 0x1_0000_0000   // memo numbers are 32 bits, unsigned

  type MemoNumber = n: int | 0 <= n < LIMIT

  datatype Memo = Memo(number: MemoNumber, unread: bool, time: int, sender: string, text: string)

  ghost predicate Earlier(a: Memo, b: Memo) {
    a.number < b.number
  }

  // Numbers are at least 1 and strictly increasing.
  ghost predicate Ordered(ms: seq<Memo>) {
    && (forall i :: 0 <= i < |ms| ==> ms[i].number >= 1)
    && (forall i, j {:trigger Earlier(ms[i], ms[j])} :: 0 <= i < j < |ms| ==> Earlier(ms[i], ms[j]))
  }

  lemma OrderedTail(ms: seq<Memo>)
    requires Ordered(ms) && ms != []
    ensures Ordered(ms[1..]) && forall i :: 0 <= i < |ms[1..]| ==> ms[0].number < ms[1..][i].number
  {
    var r := ms[1..];
    forall i, j | 0 <= i < j < |r|
      ensures Earlier(r[i], r[j])
    {
      assert Earlier(ms[i + 1], ms[j + 1]);
    }
    forall i | 0 <= i < |r|
      ensures ms[0].number < r[i].number
    {
      assert Earlier(ms[0], ms[i + 1]);
    }
  }

  // ---------- SEND ----------

  function Renumbered(ms: seq<Memo>): (r: seq<Memo>)
    requires |ms| < LIMIT
    ensures |r| == |ms|
    ensures forall i :: 0 <= i < |ms| ==> r[i] == ms[i].(number := i + 1)
  {
    seq(|ms|, i requires 0 <= i < |ms| => ms[i].(number := i + 1))
  }

  // A new memo gets the number after the last, in 32 bits; if that is 0 all are numbered anew.
  function Numbered(ms: seq<Memo>, m: Memo): seq<Memo>
    requires |ms| < 32767
  {
    var number := if ms == [] then 1 else (ms[|ms| - 1].number + 1) % LIMIT;
    var all := ms + [m.(number := number)];
    if number < 1 then Renumbered(all) else all
  }

  // The list after SEND
  function Sent(ms: seq<Memo>, source: string, text: string, now: int): seq<Memo>
    requires |ms| < 32767
  {
    Numbered(ms, Memo(1, true, now, if |source| < NICKMAX then source else source[..NICKMAX - 1], text))
  }

  lemma SendKeepsOrder(ms: seq<Memo>, source: string, text: string, now: int)
    requires |ms| < 32767 && Ordered(ms)
    ensures Ordered(Sent(ms, source, text, now))
  {
    var r := Sent(ms, source, text, now);
    var n := |ms|;
    forall i, j | 0 <= i < j < |r|
      ensures Earlier(r[i], r[j])
    {
      if n > 0 && ms[n - 1].number + 1 < LIMIT {
        assert j < n ==> Earlier(ms[i], ms[j]);
        assert i < n - 1 ==> Earlier(ms[i], ms[n - 1]);
      }
    }
  }

  // The new memo is the last, unread, and as it was sent. The others are as they were, unless the numbers
  // are used up: then they are numbered from 1, and nothing else changes.
  lemma SendMeans(ms: seq<Memo>, source: string, text: string, now: int)
    requires |ms| < 32767 && Ordered(ms)
    ensures var r := Sent(ms, source, text, now);
            && |r| == |ms| + 1
            && r[|ms|].unread && r[|ms|].time == now && r[|ms|].text == text && r[|ms|].sender == Truncated(source, NICKMAX)
            && (if UsedUp(ms) then r[|ms|].number == |ms| + 1 && forall i :: 0 <= i < |ms| ==> r[i] == ms[i].(number := i + 1)
                else r[..|ms|] == ms && r[|ms|].number == if ms == [] then 1 else ms[|ms| - 1].number + 1)
  {
  }

  predicate UsedUp(ms: seq<Memo>) {
    ms != [] && ms[|ms| - 1].number == 0xffff_ffff
  }

  // CANCEL right after SEND puts the list back as it was, exactly if the numbers were not used up.
  lemma CancelUndoesSend(ms: seq<Memo>, source: string, text: string, now: int)
    requires |ms| < 32767 && Ordered(ms) && |source| < NICKMAX
    ensures var r := Sent(ms, source, text, now);
            && Newest(r, source) == |ms|
            && (r[..|ms|] + r[|ms| + 1..] == ms <==> !UsedUp(ms))
  {
    SendMeans(ms, source, text, now);
    var r := Sent(ms, source, text, now);
    assert r[|ms| + 1..] == [] && r[..|ms|] + [] == r[..|ms|];
    assert r[|r| - 1] == r[|ms|];
    if UsedUp(ms) {
      assert r[..|ms|][|ms| - 1].number == |ms|;
    }
  }

  // ---------- deletion ----------

  function RemoveFirst(ms: seq<Memo>, num: int): seq<Memo> {
    if ms == [] then []
    else if ms[0].number == num then ms[1..]
    else [ms[0]] + RemoveFirst(ms[1..], num)
  }

  ghost predicate Has(ms: seq<Memo>, num: int) {
    exists i :: 0 <= i < |ms| && ms[i].number == num
  }

  // The memos whose number is not in a set
  function Without(ms: seq<Memo>, nums: set<int>): (r: seq<Memo>)
    ensures |r| <= |ms|
  {
    if ms == [] then []
    else if ms[0].number in nums then Without(ms[1..], nums)
    else [ms[0]] + Without(ms[1..], nums)
  }

  lemma {:induction false} WithoutOthers(ms: seq<Memo>, nums: set<int>)
    requires forall i :: 0 <= i < |ms| ==> ms[i].number !in nums
    ensures Without(ms, nums) == ms
  {
    if ms != [] {
      WithoutOthers(ms[1..], nums);
    }
  }

  lemma {:induction false} WithoutKeeps(ms: seq<Memo>, nums: set<int>)
    ensures forall m :: m in Without(ms, nums) <==> m in ms && m.number !in nums
  {
    if ms != [] {
      WithoutKeeps(ms[1..], nums);
      assert ms == [ms[0]] + ms[1..];
    }
  }

  lemma {:induction false} WithoutKeepsOrder(ms: seq<Memo>, nums: set<int>)
    requires Ordered(ms)
    ensures Ordered(Without(ms, nums))
  {
    if ms != [] {
      OrderedTail(ms);
      WithoutKeepsOrder(ms[1..], nums);
      WithoutKeeps(ms[1..], nums);
      var rest := Without(ms[1..], nums);
      var all := [ms[0]] + rest;
      forall i, j | 0 <= i < j < |all|
        ensures Earlier(all[i], all[j])
      {
        if i == 0 {
          assert all[j] in rest;
        } else {
          assert Earlier(rest[i - 1], rest[j - 1]);
        }
      }
    }
  }

  lemma {:induction false} WithoutTwice(ms: seq<Memo>, a: set<int>, b: set<int>)
    ensures Without(Without(ms, a), b) == Without(ms, a + b)
  {
    if ms != [] {
      WithoutTwice(ms[1..], a, b);
    }
  }

  // In an ordered list a number stands for one memo.
  lemma {:induction false} RemoveOne(ms: seq<Memo>, num: int)
    requires Ordered(ms)
    ensures RemoveFirst(ms, num) == Without(ms, {num})
    ensures |RemoveFirst(ms, num)| == |ms| - if Has(ms, num) then 1 else 0
  {
    if ms != [] {
      OrderedTail(ms);
      if ms[0].number == num {
        WithoutOthers(ms[1..], {num});
      } else {
        RemoveOne(ms[1..], num);
        assert Has(ms, num) <==> Has(ms[1..], num) by {
          if i :| 0 <= i < |ms| && ms[i].number == num {
            assert ms[1..][i - 1] == ms[i];
          }
          if i :| 0 <= i < |ms[1..]| && ms[1..][i].number == num {
            assert ms[i + 1] == ms[1..][i];
          }
        }
      }
    }
  }

  lemma {:induction false} RemoveFound(ms: seq<Memo>, i: nat, num: int)
    requires i <= |ms| && (i < |ms| ==> ms[i].number == num) && forall k :: 0 <= k < i ==> ms[k].number != num
    ensures RemoveFirst(ms, num) == if i < |ms| then ms[..i] + ms[i + 1..] else ms
  {
    if i > 0 {
      var r := ms[1..];
      RemoveFound(r, i - 1, num);
      if i < |ms| {
        assert ms[..i] == [ms[0]] + r[..i - 1] && ms[i + 1..] == r[i..];
      }
    }
  }

  // ---------- CANCEL ----------

  // The newest unread memo from a sender, or -1
  function Newest(ms: seq<Memo>, nick: string): (i: int)
    ensures -1 <= i < |ms|
    ensures i >= 0 ==> ms[i].unread && SameName(ms[i].sender, nick)
    ensures forall k :: i < k < |ms| ==> !(ms[k].unread && SameName(ms[k].sender, nick))
  {
    if ms == [] then -1
    else
      var n := |ms| - 1;
      if ms[n].unread && SameName(ms[n].sender, nick) then n else Newest(ms[..n], nick)
  }

  lemma {:induction false} RemoveAt(ms: seq<Memo>, i: nat)
    requires Ordered(ms) && i < |ms|
    ensures RemoveFirst(ms, ms[i].number) == ms[..i] + ms[i + 1..]
  {
    OrderedTail(ms);
    if i > 0 {
      assert ms[1..][i - 1] == ms[i];
      RemoveAt(ms[1..], i - 1);
      assert ms[1..][..i - 1] == ms[1..i] && ms[1..][i..] == ms[i + 1..];
      assert ms[..i] == [ms[0]] + ms[1..i];
    }
  }

  // ---------- DEL ----------

  // The variables of do_del: the list, the last number deleted, where its range began, and all that
  // has been printed for the report, whether or not it fits its buffer.
  datatype DelState = DelState(memos: seq<Memo>, last: int, last0: int, buf: string)

  function RangeItem(a: nat, b: nat): (x: Item)
    ensures WellFormed(x) && Value(x.a) == a && Value(Last(x)) == b
  {
    if a != b then Span(Dec(a), Dec(b)) else One(Dec(a))
  }

  // %d
  function IntText(n: int): string {
    if n < 0 then "-" + Dec(-n) else Dec(n)
  }

  // ",%d-%d" or ",%d"
  function RangeText(a: int, b: int): string {
    if a >= 0 && b >= 0 then "," + ItemText(RangeItem(a, b))
    else if a != b then "," + IntText(a) + "-" + IntText(b) else "," + IntText(b)
  }

  lemma DigitsHaveNoNul(d: string)
    requires AllDigits(d)
    ensures '\0' !in d
  {
  }

  lemma ConcatHasNoNul(a: string, b: string)
    requires '\0' !in a && '\0' !in b
    ensures '\0' !in a + b
  {
  }

  lemma IntTextHasNoNul(n: int)
    ensures '\0' !in IntText(n)
  {
    DigitsHaveNoNul(Dec(if n < 0 then -n else n));
    if n < 0 {
      ConcatHasNoNul("-", Dec(-n));
    }
  }

  lemma RangeTextHasNoNul(a: int, b: int)
    ensures RangeText(a, b) != "" && '\0' !in RangeText(a, b)
  {
    var s, t := IntText(a), IntText(b);
    IntTextHasNoNul(a);
    IntTextHasNoNul(b);
    ConcatHasNoNul(",", t);
    ConcatHasNoNul(",", s);
    ConcatHasNoNul("," + s, "-");
    ConcatHasNoNul("," + s + "-", t);
    assert "," + (s + "-" + t) == "," + s + "-" + t;
  }

  // The report with the current range at its end
  function Reported(s: DelState): string {
    s.buf + RangeText(s.last0, s.last)
  }

  // del_memo_callback
  function DelStep(s: DelState, num: int): (DelState, int) {
    var left := RemoveFirst(s.memos, num);
    if |left| == |s.memos| then (s, 0)
    else
      var begins := num != s.last + 1;
      var buf := if begins && s.last != -1 then Reported(s) else s.buf;
      (DelState(left, num, if begins then num else s.last0, buf), 1)
  }

  // ---------- the report ----------

  lemma {:induction false} AllMeantMore(items: seq<Item>, x: Item)
    requires WellFormed(x) && forall i :: 0 <= i < |items| ==> WellFormed(items[i])
    ensures AllMeant(items + [x]) == AllMeant(items) + Meant(x)
  {
    if items == [] {
      assert AllMeant([x]) == Meant(x) + {};
    } else {
      AllMeantMore(items[1..], x);
      assert (items + [x])[0] == items[0] && (items + [x])[1..] == items[1..] + [x];
    }
  }

  ghost predicate Proper(items: seq<Item>) {
    forall i :: 0 <= i < |items| ==> WellFormed(items[i])
  }

  // Ranges that end before the number m. Only an assertion of Look unfolds this.
  ghost predicate EndBefore(items: seq<Item>, m: int)
    requires Proper(items)
  {
    forall x: int {:trigger Look(x)} :: Look(x) ==>
      forall i :: 0 <= i < |items| ==> Rises(items[i]) && Value(Last(items[i])) < m
  }

  // The report is made of closed ranges and one that is still open; gone are the numbers deleted.
  ghost predicate Reports(s: DelState, closed: seq<Item>, gone: set<int>) {
    && Proper(closed) && EndBefore(closed, s.last0)
    && (forall k :: k in gone ==> k <= s.last)
    && (if s.last == -1 then s.last0 == -1 && s.buf == "" && closed == [] && gone == {}
        else && 1 <= s.last0 <= s.last <= MAX_NUMBER && s.last in gone && s.buf == CommaJoin(ItemText, closed)
             && gone == AllMeant(closed) + Range(s.last0, s.last))
  }

  lemma RangeMore(a: int, b: int)
    requires a <= b + 1
    ensures Range(a, b + 1) == Range(a, b) + {b + 1}
  {
    assert forall k :: k in Range(a, b + 1) <==> k in Range(a, b) || k == b + 1;
  }

  lemma RangeItemMeans(a: nat, b: nat)
    requires a <= MAX_NUMBER && b <= MAX_NUMBER
    ensures Meant(RangeItem(a, b)) == Range(a, b)
  {
  }

  lemma ProperMore(closed: seq<Item>, a: nat, b: nat, next: nat)
    requires Proper(closed) && EndBefore(closed, a) && 1 <= a <= b <= MAX_NUMBER && b < next
    ensures Proper(closed + [RangeItem(a, b)]) && EndBefore(closed + [RangeItem(a, b)], next)
  {
    assert Look(0) && Rises(RangeItem(a, b));
  }

  lemma RisesToLast(closed: seq<Item>, a: nat, b: nat)
    requires Proper(closed) && EndBefore(closed, a) && 1 <= a <= b <= MAX_NUMBER
    ensures RiseTo(closed + [RangeItem(a, b)], b)
  {
    assert Look(0) && Rises(RangeItem(a, b));
  }

  // One deletion
  lemma DelOne(s: DelState, closed: seq<Item>, gone: set<int>, num: int) returns (more: seq<Item>)
    requires Reports(s, closed, gone) && s.last < num && 1 <= num <= MAX_NUMBER
    requires |RemoveFirst(s.memos, num)| != |s.memos|
    ensures DelStep(s, num).1 == 1 && DelStep(s, num).0.memos == RemoveFirst(s.memos, num)
    ensures DelStep(s, num).0.last == num && Reports(DelStep(s, num).0, more, gone + {num})
  {
    RangeOne(num);
    if s.last == -1 {
      more := [];
      assert EndBefore(more, num);
      assert AllMeant(more) == {};
    } else if num == s.last + 1 {
      more := closed;
      RangeMore(s.last0, s.last);
    } else {
      var x := RangeItem(s.last0, s.last);
      more := closed + [x];
      ProperMore(closed, s.last0, s.last, num);
      CommaJoinMore(ItemText, closed, x);
      AllMeantMore(closed, x);
      RangeItemMeans(s.last0, s.last);
    }
  }

  // The numbers of a set from one on
  function UpFrom(n: set<int>, lo: int): set<int> {
    set k | k in n && lo <= k
  }

  lemma UpFromNext(n: set<int>, lo: int)
    ensures UpFrom(n, lo) == if lo in n then {lo} + UpFrom(n, lo + 1) else UpFrom(n, lo + 1)
    ensures (forall k :: k in n ==> k < lo) ==> UpFrom(n, lo) == {}
  {
  }

  // What has become of s after calls for the numbers of n: the memos that are left, how many were
  // deleted, and the report on all numbers deleted so far. Only an assertion of Look unfolds this.
  ghost predicate Deleted(s: DelState, gone: set<int>, n: set<int>, o: Outcome<DelState>, more: seq<Item>, all: set<int>) {
    forall x: int {:trigger Look(x)} :: Look(x) ==>
      && o.state.memos == Without(s.memos, n)
      && o.sum == |s.memos| - |o.state.memos| == |all| - |gone|
      && Reports(o.state, more, all)
      && forall k :: k in all <==> k in gone || (Has(s.memos, k) && k in n)
  }

  lemma DelNone(s: DelState, closed: seq<Item>, gone: set<int>)
    requires Reports(s, closed, gone)
    ensures Deleted(s, gone, {}, Outcome(s, 0, 0), closed, gone)
  {
    WithoutOthers(s.memos, {});
  }

  // A number that no memo has, or that one has, before the numbers of n
  lemma DelFirst(s: DelState, t: DelState, gone: set<int>, num: int, n: set<int>, o: Outcome<DelState>, more: seq<Item>,
                 all: set<int>)
    requires Ordered(s.memos) && t.memos == Without(s.memos, {num})
    requires Has(s.memos, num) ==> num !in gone && Deleted(t, gone + {num}, n, o, more, all)
    requires !Has(s.memos, num) ==> Deleted(t, gone, n, o, more, all)
    ensures Deleted(s, gone, {num} + n, Outcome(o.state, (if Has(s.memos, num) then 1 else 0) + o.sum, 1 + o.count), more, all)
  {
    assert Look(0);
    RemoveOne(s.memos, num);
    WithoutTwice(s.memos, {num}, n);
    HasWithout(s.memos, num);
  }

  // The first call, and what it does to the report
  lemma CallFirst(s: DelState, closed: seq<Item>, gone: set<int>, num: int, rest: seq<int>)
    returns (t: DelState, more: seq<Item>)
    requires Ordered(s.memos) && Reports(s, closed, gone) && s.last < num <= MAX_NUMBER
    ensures t.memos == Without(s.memos, {num}) && Ordered(t.memos) && t.last <= num
    ensures Reports(t, more, if Has(s.memos, num) then gone + {num} else gone)
    ensures var o := Calls(DelStep, t, rest);
            Calls(DelStep, s, [num] + rest) == Outcome(o.state, (if Has(s.memos, num) then 1 else 0) + o.sum, 1 + o.count)
  {
    RemoveOne(s.memos, num);
    WithoutKeepsOrder(s.memos, {num});
    t := DelStep(s, num).0;
    CallsFirst(DelStep, s, num, rest);
    if Has(s.memos, num) {
      more := DelOne(s, closed, gone, num);
    } else {
      WithoutOthers(s.memos, {num});
      more := closed;
    }
  }

  lemma CallsFirst<S>(callback: (S, int) -> (S, int), s: S, num: int, rest: seq<int>)
    requires callback(s, num).1 >= 0
    ensures var o := Calls(callback, callback(s, num).0, rest);
            Calls(callback, s, [num] + rest) == Outcome(o.state, callback(s, num).1 + o.sum, 1 + o.count)
  {
    assert ([num] + rest)[1..] == rest;
  }

  // The calls for all numbers of a set from lo on
  lemma {:induction false} DelAll(s: DelState, closed: seq<Item>, gone: set<int>, n: set<int>, lo: nat)
    returns (more: seq<Item>, all: set<int>)
    requires Ordered(s.memos) && Reports(s, closed, gone) && s.last < lo
    requires forall k :: k in n ==> k <= MAX_NUMBER
    ensures Deleted(s, gone, UpFrom(n, lo), Calls(DelStep, s, Listed(n, lo, MAX_NUMBER)), more, all)
    decreases MAX_NUMBER - lo
  {
    var later, rest := UpFrom(n, lo + 1), Listed(n, lo + 1, MAX_NUMBER);
    UpFromNext(n, lo);
    if lo > MAX_NUMBER {
      more, all := closed, gone;
      DelNone(s, closed, gone);
    } else if lo !in n {
      more, all := DelAll(s, closed, gone, n, lo + 1);
    } else {
      var t, now := CallFirst(s, closed, gone, lo, rest);
      more, all := DelAll(t, now, if Has(s.memos, lo) then gone + {lo} else gone, n, lo + 1);
      DelFirst(s, t, gone, lo, later, Calls(DelStep, t, rest), more, all);
    }
  }

  lemma HasWithout(ms: seq<Memo>, num: int)
    ensures forall k :: Has(Without(ms, {num}), k) <==> Has(ms, k) && k != num
  {
    WithoutKeeps(ms, {num});
    var r := Without(ms, {num});
    forall k
      ensures Has(r, k) <==> Has(ms, k) && k != num
    {
      if i :| 0 <= i < |r| && r[i].number == k {
        assert r[i] in ms;
      }
      if i :| 0 <= i < |ms| && ms[i].number == k && k != num {
        assert ms[i] in r;
      }
    }
  }

  // The report with its last range is a number list that rises to the last number deleted.
  lemma ReportItems(s: DelState, closed: seq<Item>, gone: set<int>) returns (items: seq<Item>)
    requires Reports(s, closed, gone) && s.last != -1
    ensures items != [] && RiseTo(items, s.last) && AllMeant(items) == gone
    ensures Reported(s) == "," + ListText(items)
  {
    var x := RangeItem(s.last0, s.last);
    items := closed + [x];
    RisesToLast(closed, s.last0, s.last);
    CommaJoinMore(ItemText, closed, x);
    CommaJoined(ItemText, items);
    AllMeantMore(closed, x);
    RangeItemMeans(s.last0, s.last);
  }

  // It means the numbers that are gone.
  lemma ReportMeaning(s: DelState, closed: seq<Item>, gone: set<int>, wide: bool)
    requires Reports(s, closed, gone) && s.last != -1
    ensures Reported(s) != "" && Numbers(Reported(s)[1..], wide) == gone
    ensures Numbers(Truncated(Reported(s), BUFSIZE)[1..], wide) == gone <==> |Reported(s)| < BUFSIZE
  {
    var items := ReportItems(s, closed, gone);
    ListInBuffer(items, s.last, gone, wide);
    assert Reported(s)[1..] == ListText(items);
  }

  lemma OnlyOne(all: set<int>, x: int)
    requires x in all && |all| == 1
    ensures all == {x}
  {
    assert |all - {x}| == 0;
    assert all == {x} + (all - {x});
  }

  function Start(ms: seq<Memo>): DelState {
    DelState(ms, -1, -1, "")
  }

  // DEL with a number list: exactly the memos with other numbers are left, as many are counted as
  // have gone, and the report means their numbers.
  lemma DelMeaning(ms: seq<Memo>, n: set<int>, wide: bool) returns (gone: set<int>)
    requires Ordered(ms) && forall k :: k in n ==> 0 <= k <= MAX_NUMBER
    ensures forall k :: k in gone <==> Has(ms, k) && k in n
    ensures var o := Calls(DelStep, Start(ms), Listed(n, 0, MAX_NUMBER));
            && o.state.memos == Without(ms, n)
            && o.sum == |gone| == |ms| - |Without(ms, n)|
            && (o.state.last == -1 <==> gone == {})
            && (|gone| == 1 ==> gone == {o.state.last})
            && (gone != {} ==> |Reported(o.state)| > 0 && Numbers(Reported(o.state)[1..], wide) == gone)
            && (gone != {} ==>
                  (Numbers(Truncated(Reported(o.state), BUFSIZE)[1..], wide) == gone <==> |Reported(o.state)| < BUFSIZE))
  {
    var more;
    more, gone := DelAll(Start(ms), [], {}, n, 0);
    assert UpFrom(n, 0) == n;
    assert Look(0);
    var s := Calls(DelStep, Start(ms), Listed(n, 0, MAX_NUMBER)).state;
    if s.last != -1 {
      ReportMeaning(s, more, gone, wide);
      if |gone| == 1 {
        OnlyOne(gone, s.last);
      }
    }
  }
}
