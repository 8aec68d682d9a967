// The entries of any number list whatever, and when process_numlist ignores those that hold no number.

module NumEntries {
  import opened CString
  import opened NumList
  import opened NumRanges

  // ---------- entries ----------

  // The first entry of a list: what stands before the first comma
  function Before(s: string): (e: string)
    ensures |e| <= |s|
  {
    if s == "" || s[0] == ',' then "" else [s[0]] + Before(s[1..])
  }

  lemma BeforeComma(s: string)
    ensures ',' !in Before(s) && s == Before(s) + From(s, ",") && Ends(From(s, ","))
  {
    BeforeFree(s);
    BeforeFrom(s);
  }

  lemma {:induction false} BeforeFree(s: string)
    ensures ',' !in Before(s)
  {
    if s != "" && s[0] != ',' {
      BeforeFree(s[1..]);
    }
  }

  lemma {:induction false} BeforeFrom(s: string)
    ensures Before(s) + From(s, ",") == s
  {
    if s != "" && s[0] != ',' {
      BeforeFrom(s[1..]);
      var first, b, f := [s[0]], Before(s[1..]), From(s[1..], ",");
      assert first + (b + f) == (first + b) + f;
      assert first + s[1..] == s;
    }
  }

  // The entries that the loop takes, in order. Nothing behind a last comma is no entry.
  function Entries(s: string): seq<string>
    decreases |s|
  {
    if s == "" then [] else [Before(s)] + Entries(NextEntry(s))
  }

  // An entry can be read if it starts with a number: spaces, a sign perhaps, a digit.
  predicate Led(e: string) {
    var u := Unsigned(SkipSpace(e));
    u != "" && IsDigit(u[0])
  }

  // That is how strtol decides whether there is anything to convert.
  lemma LedIsTaken(s: string, wide: bool)
    ensures Led(s) <==> Strtol(s, wide).1 != s
    ensures !Led(s) ==> Strtol(s, wide) == (0, s)
  {
  }

  // ---------- an entry is read as if it stood alone ----------

  lemma {:induction false} SkipSpaceAlone(e: string, rest: string)
    requires Ends(rest)
    ensures SkipSpace(e + rest) == SkipSpace(e) + rest
    ensures ',' !in e ==> ',' !in SkipSpace(e)
  {
    if e == "" {
      assert e + rest == rest && SkipSpace(rest) == rest && SkipSpace(e) == e;
    } else {
      assert (e + rest)[0] == e[0] && (e + rest)[1..] == e[1..] + rest;
      SkipSpaceAlone(e[1..], rest);
    }
  }

  lemma {:induction false} LeadingAlone(e: string, rest: string)
    requires Ends(rest)
    ensures Leading(e + rest) == Leading(e)
  {
    if e == "" {
      assert e + rest == rest;
    } else {
      assert (e + rest)[0] == e[0] && (e + rest)[1..] == e[1..] + rest;
      LeadingAlone(e[1..], rest);
    }
  }

  lemma {:induction false} FromAlone(e: string, rest: string, stops: string)
    requires Ends(rest) && ',' in stops
    ensures From(e + rest, stops) == From(e, stops) + rest
    ensures ',' !in e ==> ',' !in From(e, stops)
  {
    if e == "" {
      assert e + rest == rest;
    } else {
      assert (e + rest)[0] == e[0] && (e + rest)[1..] == e[1..] + rest;
      FromAlone(e[1..], rest, stops);
    }
  }

  lemma UnsignedAlone(t: string, rest: string)
    requires Ends(rest)
    ensures Unsigned(t + rest) == Unsigned(t) + rest
    ensures ',' !in t ==> ',' !in Unsigned(t)
  {
    if t == "" {
      assert t + rest == rest;
    } else {
      assert (t + rest)[0] == t[0] && (t + rest)[1..] == t[1..] + rest;
    }
  }

  lemma StrtolAlone(e: string, rest: string, wide: bool)
    requires ',' !in e && Ends(rest)
    ensures Strtol(e + rest, wide) == (Strtol(e, wide).0, Strtol(e, wide).1 + rest)
    ensures ',' !in Strtol(e, wide).1
  {
    var t := SkipSpace(e);
    var u := Unsigned(t);
    var d := Leading(u);
    SkipSpaceAlone(e, rest);
    UnsignedAlone(t, rest);
    LeadingAlone(u, rest);
    if d == "" {
      StrtolNone(e, wide);
      StrtolNone(e + rest, wide);
    } else {
      assert (u + rest)[|d|..] == u[|d|..] + rest;
      assert (t + rest)[0] == t[0];
      StrtolSome(e, wide, t, u, d);
      StrtolSome(e + rest, wide, t + rest, u + rest, d);
    }
  }

  lemma StrtolNone(s: string, wide: bool)
    requires Leading(Unsigned(SkipSpace(s))) == ""
    ensures Strtol(s, wide) == (0, s)
  {
  }

  lemma AfterDashAlone(n1: int, t: string, rest: string, wide: bool)
    requires ',' !in t && Ends(rest)
    ensures AfterDash(n1, t + rest, wide) == (AfterDash(n1, t, wide).0, AfterDash(n1, t, wide).1 + rest)
    ensures ',' !in AfterDash(n1, t, wide).1
  {
    FromAlone(t, rest, DIGITS + ",");
    var r3 := From(t, DIGITS + ",");
    if r3 == "" {
      assert r3 + rest == rest;
    } else {
      assert (r3 + rest)[0] == r3[0];
      StrtolAlone(r3, rest, wide);
      FromAlone(Strtol(r3, wide).1, rest, DIGITS + ",-");
    }
  }

  lemma LastNumberAlone(n1: int, r: string, rest: string, wide: bool)
    requires ',' !in r && Ends(rest)
    ensures LastNumber(n1, r + rest, wide) == (LastNumber(n1, r, wide).0, LastNumber(n1, r, wide).1 + rest)
    ensures ',' !in LastNumber(n1, r, wide).1
  {
    if r == "" {
      assert r + rest == rest;
    } else {
      assert (r + rest)[0] == r[0] && (r + rest)[1..] == r[1..] + rest;
      AfterDashAlone(n1, r[1..], rest, wide);
    }
  }

  lemma EntryAlone(e: string, rest: string, wide: bool)
    requires ',' !in e && Ends(rest)
    ensures FirstEntry(e + rest, wide) == FirstEntry(e, wide).(rest := NextEntry(rest))
    ensures FirstEntry(e, wide).rest == ""
  {
    StrtolAlone(e, rest, wide);
    var (n1, r1) := Strtol(e, wide);
    FromAlone(r1, rest, DIGITS + ",-");
    var r2 := From(r1, DIGITS + ",-");
    LastNumberAlone(n1, r2, rest, wide);
    var r := LastNumber(n1, r2, wide).1;
    FirstEntryIs(e, wide);
    FirstEntryIs(e + rest, wide);
    NextAlone(r, rest);
    NextAlone(r, "");
    assert r + "" == r;
  }

  lemma NextAlone(r: string, rest: string)
    requires ',' !in r && Ends(rest)
    ensures NextEntry(r + rest) == NextEntry(rest)
  {
    FromAlone(r, rest, ",");
    NoComma(r);
    assert "" + rest == rest;
  }

  lemma {:induction false} NoComma(r: string)
    requires ',' !in r
    ensures From(r, ",") == ""
  {
    if r != "" {
      NoComma(r[1..]);
    }
  }

  // ---------- what a list means ----------

  // The numbers of one entry
  function Adds(e: string, wide: bool): set<int> {
    Range(FirstEntry(e, wide).first, FirstEntry(e, wide).last)
  }

  // What some of the entries mean together
  function Sum(adds: (string, bool) -> set<int>, es: seq<string>, wide: bool): set<int> {
    if es == [] then {} else adds(es[0], wide) + Sum(adds, es[1..], wide)
  }

  // A list means what its entries mean, each by itself.
  lemma {:induction false} ListIsSum(s: string, wide: bool)
    ensures Numbers(s, wide) == Sum(Adds, Entries(s), wide)
    decreases |s|
  {
    if s != "" {
      BeforeComma(s);
      var e, rest := Before(s), From(s, ",");
      EntryAlone(e, rest, wide);
      NextAlone(e, rest);
      FirstNumbers(s, wide);
      ListIsSum(NextEntry(s), wide);
    }
  }

  // The entries that start with a number
  function LedOnly(es: seq<string>): seq<string> {
    if es == [] then [] else if Led(es[0]) then [es[0]] + LedOnly(es[1..]) else LedOnly(es[1..])
  }

  ghost predicate Unread(adds: (string, bool) -> set<int>, es: seq<string>, wide: bool, k: int) {
    exists i :: 0 <= i < |es| && !Led(es[i]) && k in adds(es[i], wide)
  }

  lemma {:induction false} SumSplit(adds: (string, bool) -> set<int>, es: seq<string>, wide: bool)
    ensures forall k :: k in Sum(adds, es, wide) <==> k in Sum(adds, LedOnly(es), wide) || Unread(adds, es, wide, k)
  {
    if es != [] {
      SumSplit(adds, es[1..], wide);
      forall k
        ensures Unread(adds, es, wide, k) <==> (!Led(es[0]) && k in adds(es[0], wide)) || Unread(adds, es[1..], wide, k)
      {
        UnreadStep(adds, es, wide, k);
      }
    }
  }

  lemma UnreadStep(adds: (string, bool) -> set<int>, es: seq<string>, wide: bool, k: int)
    requires es != []
    ensures Unread(adds, es, wide, k) <==> (!Led(es[0]) && k in adds(es[0], wide)) || Unread(adds, es[1..], wide, k)
  {
    if Unread(adds, es, wide, k) {
      var i :| 0 <= i < |es| && !Led(es[i]) && k in adds(es[i], wide);
      assert i > 0 ==> es[1..][i - 1] == es[i];
    }
    if Unread(adds, es[1..], wide, k) {
      var i :| 0 <= i < |es[1..]| && !Led(es[1..][i]) && k in adds(es[1..][i], wide);
      assert es[i + 1] == es[1..][i];
    }
  }

  // ---------- what becomes of an entry without a number ----------

  lemma {:induction false} FromNoDash(e: string, stops: string)
    requires '-' !in e
    ensures '-' !in From(e, stops)
  {
    if e != "" {
      FromNoDash(e[1..], stops);
    }
  }

  // The number behind the dash of such an entry, with anything but digits, commas and dashes passed over; 0 if
  // there is none
  function Behind(e: string, wide: bool): int {
    var r := From(e, DIGITS + ",-");
    var d := if r != "" && r[0] == '-' then From(r[1..], DIGITS + ",") else "";
    if d == "" || !IsDigit(d[0]) then 0
    else
      var n := ToInt(Value(Leading(d)), wide);
      if n > MAX_NUMBER then MAX_NUMBER else n
  }

  lemma BehindIsLast(e: string, wide: bool)
    ensures var n := LastNumber(0, From(e, DIGITS + ",-"), wide).0;
            Behind(e, wide) == if n > MAX_NUMBER then MAX_NUMBER else n
  {
    var r := From(e, DIGITS + ",-");
    if r != "" && r[0] == '-' {
      var d := From(r[1..], DIGITS + ",");
      if d != "" && IsDigit(d[0]) {
        StrtolFrom(d, wide);
      }
    }
  }

  // It is taken from 0 to that number, and without a dash for 0 itself.
  lemma UnledIsZero(e: string, wide: bool)
    requires !Led(e)
    ensures FirstEntry(e, wide).first == 0 && Adds(e, wide) == Range(0, Behind(e, wide))
    ensures '-' !in e ==> Adds(e, wide) == {0}
  {
    LedIsTaken(e, wide);
    FirstEntryIs(e, wide);
    BehindIsLast(e, wide);
    if '-' !in e {
      FromNoDash(e, DIGITS + ",-");
      var r := From(e, DIGITS + ",-");
      assert r != "" ==> r[0] in r;
      RangeOne(0);
    }
  }

  // A negative first number counts as 0, any other as it is.
  lemma NegativeIsZero(s: string, wide: bool)
    ensures FirstEntry(s, wide).first == if Strtol(s, wide).0 < 0 then 0 else Strtol(s, wide).0
  {
    FirstEntryIs(s, wide);
  }

  // At the start of a list, or alone in it
  lemma JunkIsZero(junk: string, rest: string, wide: bool)
    requires ',' !in junk && !Led(junk)
    ensures Numbers(junk + "," + rest, wide) == Range(0, Behind(junk, wide)) + Numbers(rest, wide)
    ensures junk != "" ==> Numbers(junk, wide) == Range(0, Behind(junk, wide))
    ensures '-' !in junk ==> Range(0, Behind(junk, wide)) == {0}
  {
    var more := "," + rest;
    var s := junk + more;
    assert s == junk + "," + rest && more[1..] == rest;
    UnledIsZero(junk, wide);
    EntryAlone(junk, more, wide);
    NextEnds(more);
    FirstNumbers(s, wide);
    if junk != "" {
      FirstNumbers(junk, wide);
    }
  }

  // The largest number behind a dash of these entries; -1 if there is no such entry
  function Most(es: seq<string>, wide: bool): int {
    if es == [] then -1
    else
      var most := Most(es[1..], wide);
      if !Led(es[0]) && Behind(es[0], wide) > most then Behind(es[0], wide) else most
  }

  lemma {:induction false} UnreadIsMost(es: seq<string>, wide: bool, k: int)
    ensures Unread(Adds, es, wide, k) <==> 0 <= k <= Most(es, wide)
  {
    if es != [] {
      UnreadStep(Adds, es, wide, k);
      UnreadIsMost(es[1..], wide, k);
      if !Led(es[0]) {
        UnledIsZero(es[0], wide);
      }
    }
  }

  // So a list means what its entries with a number mean, and all from 0 to the largest number behind others.
  lemma WhatIsMeant(s: string, wide: bool)
    ensures Numbers(s, wide) == Sum(Adds, LedOnly(Entries(s)), wide) + Range(0, Most(Entries(s), wide))
  {
    ListIsSum(s, wide);
    SumSplit(Adds, Entries(s), wide);
    forall k
      ensures k in Numbers(s, wide) <==> k in Sum(Adds, LedOnly(Entries(s)), wide) + Range(0, Most(Entries(s), wide))
    {
      UnreadIsMost(Entries(s), wide, k);
    }
  }

  // The others are ignored, in any list, exactly if those that start with a number mean all of that.
  lemma IgnoredExactly(s: string, wide: bool)
    ensures Numbers(s, wide) == Sum(Adds, LedOnly(Entries(s)), wide) <==>
            forall k :: 0 <= k <= Most(Entries(s), wide) ==> k in Sum(Adds, LedOnly(Entries(s)), wide)
  {
    WhatIsMeant(s, wide);
  }

  ghost predicate AllLed(es: seq<string>) {
    forall i :: 0 <= i < |es| ==> Led(es[i])
  }

  // No entry without a number has a dash.
  ghost predicate NoDashes(es: seq<string>) {
    forall i :: 0 <= i < |es| && !Led(es[i]) ==> '-' !in es[i]
  }

  lemma {:induction false} MostWithoutDashes(es: seq<string>, wide: bool)
    requires NoDashes(es)
    ensures Most(es, wide) == if AllLed(es) then -1 else 0
  {
    if es != [] {
      assert forall i :: 0 <= i < |es[1..]| ==> es[1..][i] == es[i + 1];
      assert AllLed(es) <==> Led(es[0]) && AllLed(es[1..]) by {
        assert forall i :: 0 < i < |es| ==> es[i] == es[1..][i - 1];
      }
      MostWithoutDashes(es[1..], wide);
      if !Led(es[0]) {
        UnledIsZero(es[0], wide);
        assert 0 in Range(0, Behind(es[0], wide)) && 1 !in Range(0, Behind(es[0], wide));
      }
    }
  }

  lemma OnlyZero(most: int, led: set<int>)
    requires most == -1 || most == 0
    ensures (forall k :: 0 <= k <= most ==> k in led) <==> most == -1 || 0 in led
  {
  }

  // Without dashes that is if there is no such entry, or 0 is meant anyway.
  lemma IgnoredWithoutDashes(s: string, wide: bool)
    ensures NoDashes(Entries(s)) ==>
              (Numbers(s, wide) == Sum(Adds, LedOnly(Entries(s)), wide) <==>
               AllLed(Entries(s)) || 0 in Sum(Adds, LedOnly(Entries(s)), wide))
  {
    if NoDashes(Entries(s)) {
      MostWithoutDashes(Entries(s), wide);
      OnlyZero(Most(Entries(s), wide), Sum(Adds, LedOnly(Entries(s)), wide));
      IgnoredExactly(s, wide);
    }
  }

  // An entry that holds a number, but does not start with it, loses it. Skipping the characters
  // before it would give the same exactly if the number is 0.
  lemma LostNumber(e: string, wide: bool)
    requires ',' !in e && '-' !in e && !Led(e) && From(e, DIGITS) != ""
    ensures Adds(e, wide) == Adds(From(e, DIGITS), wide) <==> ToInt(Value(Leading(From(e, DIGITS))), wide) == 0
  {
    var f := From(e, DIGITS);
    UnledIsZero(e, wide);
    FromNoDash(e, DIGITS);
    DigitOnly(f[0]);
    StrtolFrom(f, wide);
    var (n, r1) := Strtol(f, wide);
    FromNoDash(r1, DIGITS + ",-");
    var r := From(r1, DIGITS + ",-");
    assert r != "" ==> r[0] in r;
    FirstEntryIs(f, wide);
    assert FirstEntry(f, wide).first == (if n < 0 then 0 else n) && FirstEntry(f, wide).last == if n > MAX_NUMBER then MAX_NUMBER else n;
    assert 0 in Adds(e, wide);
    if n == 0 {
      RangeOne(0);
    } else {
      assert 0 !in Adds(f, wide);
    }
  }

  lemma DigitOnly(c: char)
    requires c in DIGITS
    ensures IsDigit(c)
  {
  }
}
