// misc.c: process_numlist, which calls a routine for each number of a list such as "1-3,7".

module NumList {
  import opened CString

  const MAX_NUMBER := 65536
  const DIGITS := "0123456789"

  // ---------- the C library ----------

  predicate IsDigit(c: char) {
    '0' <= c <= '9'
  }

  function Value(digits: string): nat
    requires AllDigits(digits)
  {
    if digits == "" then 0
    else 10 * Value(digits[..|digits| - 1]) + (digits[|digits| - 1] - '0') as nat
  }

  predicate AllDigits(s: string) {
    forall i :: 0 <= i < |s| ==> IsDigit(s[i])
  }

  // The digits a string starts with
  function Leading(s: string): (d: string)
    ensures d <= s && AllDigits(d) && (|d| == |s| || !IsDigit(s[|d|]))
  {
    if s == "" || !IsDigit(s[0]) then "" else [s[0]] + Leading(s[1..])
  }

  // A long made into an int: a long of 32 bits is cut off at its ends, one of 64 bits wraps round.
  function ToInt(v: int, wide: bool): (r: int)
    ensures -0x8000_0000 <= r < 0x8000_0000
    ensures -0x8000_0000 <= v < 0x8000_0000 ==> r == v
  {
    if wide then
      var long := if v < -0x8000_0000_0000_0000 then -0x8000_0000_0000_0000
                  else if v >= 0x8000_0000_0000_0000 then 0x7fff_ffff_ffff_ffff else v;
      (long + 0x8000_0000) % 0x1_0000_0000 - 0x8000_0000
    else if v < -0x8000_0000 then -0x8000_0000 else if v >= 0x8000_0000 then 0x7fff_ffff else v
  }

  // Without its sign
  function Unsigned(t: string): (u: string)
    ensures |u| <= |t| && (|u| < |t| ==> t != "")
  {
    if t != "" && (t[0] == '+' || t[0] == '-') then t[1..] else t
  }

  // What strtol returns in base 10, as an int, and where it stops. wide tells the size of a long.
  function Strtol(s: string, wide: bool): (r: (int, string))
    ensures |r.1| <= |s|
  {
    var t := SkipSpace(s);
    var u := Unsigned(t);
    var d := Leading(u);
    if d == "" then (0, s)
    else (ToInt(if t[0] == '-' then -(Value(d) as int) else Value(d), wide), u[|d|..])
  }

  // A number is read behind white space, a sign and up to what is no digit.
  lemma StrtolMeans(space: string, sign: string, d: string, rest: string, wide: bool)
    requires forall i :: 0 <= i < |space| ==> IsSpace(space[i])
    requires sign in {"", "+", "-"} && d != "" && AllDigits(d) && (rest == "" || !IsDigit(rest[0]))
    ensures Strtol(space + sign + d + rest, wide) == (ToInt(if sign == "-" then -(Value(d) as int) else Value(d), wide), rest)
  {
    var t := sign + d + rest;
    SignThenDigits(sign, d, rest);
    assert space + sign + d + rest == space + t;
    SpaceBefore(space, t);
    LeadingIs(d, rest);
    StrtolSome(space + t, wide, t, d + rest, d);
    assert (d + rest)[|d|..] == rest;
  }

  lemma StrtolSome(s: string, wide: bool, t: string, u: string, d: string)
    requires t == SkipSpace(s) && u == Unsigned(t) && d == Leading(u) && d != "" && t != ""
    ensures Strtol(s, wide) == (ToInt(if t[0] == '-' then -(Value(d) as int) else Value(d), wide), u[|d|..])
  {
  }

  lemma SignThenDigits(sign: string, d: string, rest: string)
    requires sign in {"", "+", "-"} && d != "" && IsDigit(d[0])
    ensures var t := sign + d + rest; t != "" && !IsSpace(t[0]) && Unsigned(t) == d + rest && (t[0] == '-' <==> sign == "-")
  {
    var t := sign + d + rest;
    if sign == "" {
      assert t == d + rest;
    } else {
      assert t[0] == sign[0] && t[1..] == d + rest;
    }
  }

  lemma {:induction false} SpaceBefore(space: string, t: string)
    requires (forall i :: 0 <= i < |space| ==> IsSpace(space[i])) && t != "" && !IsSpace(t[0])
    ensures SkipSpace(space + t) == t
  {
    if space == "" {
      assert space + t == t;
    } else {
      assert (space + t)[0] == space[0] && (space + t)[1..] == space[1..] + t;
      SpaceBefore(space[1..], t);
    }
  }

  lemma {:induction false} LeadingIs(d: string, rest: string)
    requires AllDigits(d) && (rest == "" || !IsDigit(rest[0]))
    ensures Leading(d + rest) == d
  {
    if d == "" {
      assert d + rest == rest;
    } else {
      assert (d + rest)[0] == d[0] && (d + rest)[1..] == d[1..] + rest;
      LeadingIs(d[1..], rest);
    }
  }

  // A long of 64 bits wraps round, one of 32 bits stops at its ends.
  lemma ToIntMeans(v: int)
    ensures -0x8000_0000_0000_0000 <= v < 0x8000_0000_0000_0000 ==> (ToInt(v, true) - v) % 0x1_0000_0000 == 0
    ensures v >= 0x8000_0000 ==> ToInt(v, false) == 0x7fff_ffff
    ensures v < -0x8000_0000 ==> ToInt(v, false) == -0x8000_0000
  {
  }

  // The string from the first character of a set on: s + strcspn(s, stops)
  function From(s: string, stops: string): (r: string)
    ensures |r| <= |s| && (r == "" || r[0] in stops)
  {
    if s == "" || s[0] in stops then s else From(s[1..], stops)
  }

  // ---------- what a list means ----------

  // The numbers of the first entry, first to last, and the rest of the list
  datatype Entry = Entry(first: int, last: int, rest: string)

  function NextEntry(s: string): (r: string)
    ensures s != "" ==> |r| < |s|
  {
    var t := From(s, ",");
    if t == "" then "" else t[1..]
  }

  // The second number of a range, behind its dash
  function AfterDash(n1: int, t: string, wide: bool): (p: (int, string))
    ensures |p.1| <= |t|
  {
    var r3 := From(t, DIGITS + ",");
    if r3 != "" && IsDigit(r3[0]) then (Strtol(r3, wide).0, From(Strtol(r3, wide).1, DIGITS + ",-")) else (n1, r3)
  }

  // The rest of an entry, once its first number is read
  function LastNumber(n1: int, r2: string, wide: bool): (p: (int, string))
    ensures |p.1| <= |r2|
  {
    if r2 != "" && r2[0] == '-' then AfterDash(n1, r2[1..], wide) else (n1, r2)
  }

  function FirstEntry(s: string, wide: bool): (e: Entry)
    ensures s != "" ==> |e.rest| < |s|
    ensures 0 <= e.first && e.last <= MAX_NUMBER
  {
    var (n1, r1) := Strtol(s, wide);
    var (n2, r) := LastNumber(n1, From(r1, DIGITS + ",-"), wide);
    NextShorter(s, r);
    Entry(if n1 < 0 then 0 else n1, if n2 > MAX_NUMBER then MAX_NUMBER else n2, NextEntry(r))
  }

  lemma NextShorter(s: string, r: string)
    requires |r| <= |s|
    ensures s != "" ==> |NextEntry(r)| < |s|
  {
  }

  function Range(a: int, b: int): (r: set<int>)
    ensures forall k :: k in r <==> a <= k <= b
    decreases b - a
  {
    if a > b then {} else {a} + Range(a + 1, b)
  }

  lemma RangeOne(a: int)
    ensures Range(a, a) == {a}
  {
    assert forall k :: k in Range(a, a) <==> k == a;
  }

  function Numbers(s: string, wide: bool): (n: set<int>)
    ensures forall k :: k in n ==> 0 <= k <= MAX_NUMBER
    decreases |s|
  {
    if s == "" then {}
    else var e := FirstEntry(s, wide); Range(e.first, e.last) + Numbers(e.rest, wide)
  }

  // ---------- the order of the calls ----------

  function Listed(n: set<int>, lo: int, hi: int): seq<int>
    decreases hi - lo
  {
    if lo > hi then []
    else if lo in n then [lo] + Listed(n, lo + 1, hi)
    else Listed(n, lo + 1, hi)
  }

  // Each number once, in ascending order
  lemma {:induction false} ListedOnce(n: set<int>, lo: int, hi: int)
    ensures forall k :: k in Listed(n, lo, hi) <==> k in n && lo <= k <= hi
    ensures forall i, j :: 0 <= i < j < |Listed(n, lo, hi)| ==> Listed(n, lo, hi)[i] < Listed(n, lo, hi)[j]
    decreases hi - lo
  {
    if lo <= hi {
      ListedOnce(n, lo + 1, hi);
      var rest := Listed(n, lo + 1, hi);
      assert forall j :: 0 <= j < |rest| ==> rest[j] in rest;
    }
  }

  // Bounds that leave nothing out may be narrowed.
  lemma {:induction false} ListedWithin(n: set<int>, lo: int, hi: int, min: int, max: int)
    requires lo <= min && max <= hi && forall k :: k in n && lo <= k <= hi ==> min <= k <= max
    ensures Listed(n, lo, hi) == Listed(n, min, max)
    decreases hi - lo
  {
    if lo > hi {
    } else if lo < min {
      ListedWithin(n, lo + 1, hi, min, max);
    } else if max < hi {
      ListedShort(n, lo, hi, max);
    }
  }

  lemma {:induction false} ListedShort(n: set<int>, lo: int, hi: int, max: int)
    requires max <= hi && forall k :: k in n && lo <= k <= hi ==> k <= max
    ensures Listed(n, lo, hi) == Listed(n, lo, max)
    decreases hi - lo
  {
    if lo <= hi {
      ListedShort(n, lo + 1, hi, max);
    }
  }

  datatype Outcome<S> = Outcome(state: S, sum: int, count: nat)

  // The calls, one after the other, up to the first negative result. A callback is a function of
  // its state and a number.
  function Calls<S>(callback: (S, int) -> (S, int), s: S, nums: seq<int>): Outcome<S> {
    if nums == [] then Outcome(s, 0, 0)
    else
      var (t, res) := callback(s, nums[0]);
      if res < 0 then Outcome(t, 0, 1)
      else var o := Calls(callback, t, nums[1..]); Outcome(o.state, res + o.sum, 1 + o.count)
  }

  // Calls that come after others
  function Added<S>(sum: int, count: nat, o: Outcome<S>): Outcome<S> {
    Outcome(o.state, sum + o.sum, count + o.count)
  }

  lemma CallsStep<S>(callback: (S, int) -> (S, int), s: S, nums: seq<int>, sum: int, count: nat)
    requires nums != []
    ensures var (t, res) := callback(s, nums[0]);
            Added(sum, count, Calls(callback, s, nums)) ==
            if res < 0 then Outcome(t, sum, count + 1) else Added(sum + res, count + 1, Calls(callback, t, nums[1..]))
  {
  }

  // No result is negative.
  predicate NoneNegative<S>(callback: (S, int) -> (S, int), s: S, nums: seq<int>) {
    nums == [] || (callback(s, nums[0]).1 >= 0 && NoneNegative(callback, callback(s, nums[0]).0, nums[1..]))
  }

  // The calls for more numbers follow those for the first, unless one of these has ended all.
  lemma {:induction false} CallsConcat<S>(callback: (S, int) -> (S, int), s: S, a: seq<int>, b: seq<int>)
    ensures var o := Calls(callback, s, a);
            Calls(callback, s, a + b) ==
            if NoneNegative(callback, s, a) then Added(o.sum, o.count, Calls(callback, o.state, b)) else o
  {
    if a == [] {
      assert a + b == b;
    } else {
      assert (a + b)[0] == a[0] && (a + b)[1..] == a[1..] + b;
      CallsConcat(callback, callback(s, a[0]).0, a[1..], b);
    }
  }

  // Unless a result is negative there is a call for every number.
  lemma {:induction false} CallsAll<S(!new)>(callback: (S, int) -> (S, int), s: S, nums: seq<int>)
    requires forall t, k :: callback(t, k).1 >= 0
    ensures Calls(callback, s, nums).count == |nums|
  {
    if nums != [] {
      CallsAll(callback, callback(s, nums[0]).0, nums[1..]);
    }
  }

  // ---------- process_numlist ----------

  ghost predicate Within(n: set<int>, min: int, max: int) {
    forall i :: i in n ==> min <= i <= max
  }

  lemma StillWithin(n: set<int>, min: int, max: int, e: Entry)
    requires Within(n, min, max)
    ensures Within(n + Range(e.first, e.last), if e.first < min then e.first else min, if e.last > max then e.last else max)
  {
  }

  // The first half: a flag for each number, and bounds within which all flags lie
  method FlagNumbers(numstr: string, wide: bool) returns (numflag: array<bool>, min: int, max: int)
    ensures fresh(numflag) && numflag.Length == MAX_NUMBER + 1
    ensures forall i :: 0 <= i <= MAX_NUMBER ==> (numflag[i] <==> i in Numbers(numstr, wide))
    ensures 0 <= min <= MAX_NUMBER && 0 <= max <= MAX_NUMBER
    ensures Within(Numbers(numstr, wide), min, max)
  {
    numflag := new bool[MAX_NUMBER + 1](i => false);
    min, max := MAX_NUMBER, 0;
    var s := numstr;
    ghost var done: set<int> := {};
    while s != ""
      invariant Numbers(numstr, wide) == done + Numbers(s, wide)
      invariant forall i :: 0 <= i <= MAX_NUMBER ==> (numflag[i] <==> i in done)
      invariant 0 <= min <= MAX_NUMBER && 0 <= max <= MAX_NUMBER && Within(done, min, max)
      decreases |s|
    {
      var e := TakeEntry(s, wide);
      StillWithin(done, min, max, e);
      if e.first < min {
        min := e.first;
      }
      if e.last > max {
        max := e.last;
      }
      FlagRange(numflag, e.first, e.last);
      done := done + Range(e.first, e.last);
      s := e.rest;
    }
  }

  method TakeEntry(numstr: string, wide: bool) returns (e: Entry)
    requires numstr != ""
    ensures Numbers(numstr, wide) == Range(e.first, e.last) + Numbers(e.rest, wide)
    ensures 0 <= e.first && e.last <= MAX_NUMBER && |e.rest| < |numstr|
  {
    e := ReadEntry(numstr, wide);
    FirstNumbers(numstr, wide);
  }

  lemma FirstNumbers(s: string, wide: bool)
    requires s != ""
    ensures var e := FirstEntry(s, wide); Numbers(s, wide) == Range(e.first, e.last) + Numbers(e.rest, wide)
  {
  }

  method ReadEntry(numstr: string, wide: bool) returns (e: Entry)
    ensures e == FirstEntry(numstr, wide)
  {
    var (n1, s) := Strtol(numstr, wide);
    var n2 := n1;
    s := From(s, DIGITS + ",-");
    if s != "" && s[0] == '-' {
      s := From(s[1..], DIGITS + ",");
      if s != "" && IsDigit(s[0]) {
        var (n, t) := Strtol(s, wide);
        n2 := n;
        s := From(t, DIGITS + ",-");
      }
    }
    if n1 < 0 {
      n1 := 0;
    }
    if n2 > MAX_NUMBER {
      n2 := MAX_NUMBER;
    }
    s := From(s, ",");
    if s != "" {
      s := s[1..];
    }
    e := Entry(n1, n2, s);
  }

  method FlagRange(numflag: array<bool>, first: int, last: int)
    requires numflag.Length == MAX_NUMBER + 1 && 0 <= first && last <= MAX_NUMBER
    modifies numflag
    ensures forall i :: 0 <= i <= MAX_NUMBER ==> (numflag[i] <==> old(numflag[i]) || i in Range(first, last))
  {
    var n := first;
    while n <= last
      invariant first <= n && (n <= last + 1 || n == first)
      invariant forall i :: 0 <= i <= MAX_NUMBER ==> (numflag[i] <==> old(numflag[i]) || first <= i < n)
    {
      numflag[n] := true;
      n := n + 1;
    }
    forall i | 0 <= i <= MAX_NUMBER
      ensures numflag[i] <==> old(numflag[i]) || i in Range(first, last)
    {
      assert i in Range(first, last) <==> first <= i < n;
    }
  }

  // The second half: the calls for the numbers with a flag
  method CallEach<S>(numflag: array<bool>, min: int, max: int, ghost n: set<int>, callback: (S, int) -> (S, int), s: S)
    returns (retval: int, count: nat, t: S)
    requires numflag.Length == MAX_NUMBER + 1 && 0 <= min && max <= MAX_NUMBER
    requires forall i :: min <= i <= max ==> (numflag[i] <==> i in n)
    ensures Outcome(t, retval, count) == Calls(callback, s, Listed(n, min, max))
  {
    ghost var todo := Listed(n, min, max);
    ghost var all := Calls(callback, s, todo);
    retval, count, t := 0, 0, s;
    var i := min;
    while i <= max
      invariant min <= i && todo == Listed(n, i, max)
      invariant Added(retval, count, Calls(callback, t, todo)) == all
      decreases max - i
    {
      if numflag[i] {
        assert todo == [i] + Listed(n, i + 1, max);
        CallsStep(callback, t, todo, retval, count);
        count := count + 1;
        var (u, res) := callback(t, i);
        t := u;
        if res < 0 {
          return;
        }
        retval := retval + res;
        todo := todo[1..];
      }
      i := i + 1;
    }
  }

  method ProcessNumlist<S>(numstr: string, wide: bool, callback: (S, int) -> (S, int), s: S)
    returns (retval: int, count: nat, t: S)
    ensures Outcome(t, retval, count) == Calls(callback, s, Listed(Numbers(numstr, wide), 0, MAX_NUMBER))
  {
    var numflag, min, max := FlagNumbers(numstr, wide);
    ListedWithin(Numbers(numstr, wide), 0, MAX_NUMBER, min, max);
    retval, count, t := CallEach(numflag, min, max, Numbers(numstr, wide), callback, s);
  }
}
