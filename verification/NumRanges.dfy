// The number lists of misc.c that are well formed, and what process_numlist makes of them.

module NumRanges {
  import opened CString
  import opened NumList

  // ---------- decimal numbers ----------

  function Dec(n: nat): (d: string)
    ensures d != "" && AllDigits(d) && Value(d) == n
  {
    if n < 10 then
      var d := [n as char + '0'];
      assert d[..0] == "";
      d
    else
      var d := Dec(n / 10) + [(n % 10) as char + '0'];
      assert d[..|d| - 1] == Dec(n / 10);
      d
  }

  // ---------- well-formed lists ----------

  // "a" or "a-b"
  datatype Item = One(a: string) | Span(a: string, b: string)

  predicate WellFormed(x: Item) {
    x.a != "" && AllDigits(x.a) && (x.Span? ==> x.b != "" && AllDigits(x.b))
  }

  function Last(x: Item): string {
    if x.One? then x.a else x.b
  }

  function ItemText(x: Item): string {
    match x
    case One(a) => a
    case Span(a, b) => a + "-" + b
  }

  function Join<T>(text: T -> string, items: seq<T>): string {
    if items == [] then ""
    else if |items| == 1 then text(items[0])
    else text(items[0]) + "," + Join(text, items[1..])
  }

  lemma JoinStep<T>(text: T -> string, items: seq<T>)
    requires items != []
    ensures Join(text, items) == text(items[0]) + if |items| == 1 then "" else "," + Join(text, items[1..])
  {
  }

  function ListText(items: seq<Item>): string {
    Join(ItemText, items)
  }

  // The same with a comma before every item
  function CommaJoin<T>(text: T -> string, items: seq<T>): string {
    if items == [] then "" else "," + text(items[0]) + CommaJoin(text, items[1..])
  }

  lemma {:induction false} CommaJoinMore<T>(text: T -> string, items: seq<T>, item: T)
    ensures CommaJoin(text, items + [item]) == CommaJoin(text, items) + ("," + text(item))
  {
    if items == [] {
      assert CommaJoin(text, [item]) == "," + text(item) + "";
    } else {
      CommaJoinMore(text, items[1..], item);
      assert (items + [item])[0] == items[0] && (items + [item])[1..] == items[1..] + [item];
    }
  }

  lemma {:induction false} CommaJoined<T>(text: T -> string, items: seq<T>)
    requires items != []
    ensures CommaJoin(text, items) == "," + Join(text, items)
  {
    if |items| > 1 {
      CommaJoined(text, items[1..]);
    }
  }

  // The numbers an item stands for, up to the largest there can be
  function Meant(x: Item): set<int>
    requires WellFormed(x)
  {
    var b := Value(Last(x));
    Range(Value(x.a), if b > 65536 then 65536 else b)
  }

  function AllMeant(items: seq<Item>): set<int>
    requires forall i :: 0 <= i < |items| ==> WellFormed(items[i])
  {
    if items == [] then {} else Meant(items[0]) + AllMeant(items[1..])
  }

  // What becomes of it: each number is made an int, and the range cut at both ends.
  function Read(x: Item, wide: bool): set<int>
    requires WellFormed(x)
  {
    var e := Clip(ToInt(Value(x.a), wide), ToInt(Value(Last(x)), wide), "");
    Range(e.first, e.last)
  }

  function AllRead(items: seq<Item>, wide: bool): set<int>
    requires forall i :: 0 <= i < |items| ==> WellFormed(items[i])
  {
    if items == [] then {} else Read(items[0], wide) + AllRead(items[1..], wide)
  }

  // That a long of 64 bits wraps round makes no difference: a second number still reaches to the end, or
  // is not changed, and a first one that lies behind the end still makes the range empty.
  predicate Survives(x: Item, wide: bool)
    requires WellFormed(x)
  {
    var a, b := Value(x.a), Value(Last(x));
    if a <= MAX_NUMBER then ToInt(b, wide) == b || ToInt(b, wide) >= MAX_NUMBER
    else ToInt(a, wide) > MAX_NUMBER || ToInt(b, wide) < 0 || ToInt(b, wide) < ToInt(a, wide)
  }

  lemma StrtolDigits(d: string, rest: string, wide: bool)
    requires d != "" && AllDigits(d) && (rest == "" || !IsDigit(rest[0]))
    ensures Strtol(d + rest, wide) == (ToInt(Value(d), wide), rest)
  {
    LeadingIs(d, rest);
    StrtolFrom(d + rest, wide);
    assert (d + rest)[|d|..] == rest;
  }

  lemma StrtolFrom(s: string, wide: bool)
    requires s != "" && IsDigit(s[0])
    ensures Strtol(s, wide) == (ToInt(Value(Leading(s)), wide), s[|Leading(s)|..])
  {
    assert SkipSpace(s) == s;
    assert Unsigned(s) == s;
    assert Leading(s) != "";
  }

  // What follows an item
  predicate Ends(rest: string) {
    rest == "" || rest[0] == ','
  }

  function Clip(first: int, last: int, rest: string): Entry {
    Entry(if first < 0 then 0 else first, if last > MAX_NUMBER then MAX_NUMBER else last, rest)
  }

  lemma FirstEntryIs(s: string, wide: bool)
    ensures var (n1, r1) := Strtol(s, wide);
            var (n2, r) := LastNumber(n1, From(r1, DIGITS + ",-"), wide);
            FirstEntry(s, wide) == Clip(n1, n2, NextEntry(r))
  {
  }

  lemma EntryOne(s: string, wide: bool, n: int, r: string)
    requires Strtol(s, wide) == (n, r) && Ends(r)
    ensures FirstEntry(s, wide) == Clip(n, n, NextEntry(r))
  {
    assert From(r, DIGITS + ",-") == r;
  }

  lemma SpanEnd(n1: int, wide: bool, t: string, n2: int, r: string)
    requires t != "" && IsDigit(t[0]) && Strtol(t, wide) == (n2, r) && Ends(r)
    ensures From("-" + t, DIGITS + ",-") == "-" + t && LastNumber(n1, "-" + t, wide) == (n2, r)
  {
    var dashed := "-" + t;
    assert From(dashed, DIGITS + ",-") == dashed && dashed[1..] == t;
    DigitStops(t[0]);
    assert From(t, DIGITS + ",") == t;
    assert From(r, DIGITS + ",-") == r;
  }

  lemma NextEnds(rest: string)
    requires Ends(rest)
    ensures NextEntry(rest) == if rest == "" then "" else rest[1..]
  {
  }

  lemma ItemEntry(x: Item, rest: string, wide: bool)
    requires WellFormed(x) && Ends(rest)
    ensures FirstEntry(ItemText(x) + rest, wide) == Clip(ToInt(Value(x.a), wide), ToInt(Value(Last(x)), wide), NextEntry(rest))
  {
    var n1 := ToInt(Value(x.a), wide);
    match x
    case One(a) =>
      StrtolDigits(a, rest, wide);
      EntryOne(a + rest, wide, n1, rest);
    case Span(a, b) =>
      var t := b + rest;
      assert ItemText(x) + rest == a + ("-" + t);
      StrtolDigits(a, "-" + t, wide);
      StrtolDigits(b, rest, wide);
      SpanEnd(n1, wide, t, ToInt(Value(b), wide), rest);
      FirstEntryIs(a + ("-" + t), wide);
  }

  // An item is read as it is meant exactly if it survives.
  lemma ReadAsMeant(x: Item, wide: bool)
    requires WellFormed(x)
    ensures Read(x, wide) == Meant(x) <==> Survives(x, wide)
  {
    var a, b := Value(x.a), Value(Last(x));
    var e, last := Clip(ToInt(a, wide), ToInt(b, wide), ""), if b > MAX_NUMBER then MAX_NUMBER else b;
    SameRange(e.first, e.last, a, last);
  }

  lemma SameRange(a: int, b: int, c: int, d: int)
    ensures Range(a, b) == Range(c, d) <==> (a > b && c > d) || (a == c && b == d)
  {
    assert a in Range(a, b) <==> a <= b;
    assert b in Range(a, b) <==> a <= b;
    assert c in Range(c, d) <==> c <= d;
    assert d in Range(c, d) <==> c <= d;
    if a > b && c > d {
      assert Range(a, b) == {} && Range(c, d) == {};
    }
  }

  // Numbers of 31 bits always do, and any number if a long has 32 bits.
  lemma SmallSurvives(x: Item, wide: bool)
    requires WellFormed(x)
    ensures !wide || (Value(x.a) < 0x8000_0000 && Value(Last(x)) < 0x8000_0000) ==> Survives(x, wide)
  {
  }

  // An item adds its own numbers to those of the rest.
  lemma ItemNumbers(x: Item, rest: string, wide: bool)
    requires WellFormed(x) && Ends(rest)
    ensures Numbers(ItemText(x) + rest, wide) == Read(x, wide) + Numbers(NextEntry(rest), wide)
  {
    ItemEntry(x, rest, wide);
    FirstNumbers(ItemText(x) + rest, wide);
  }

  lemma DigitStops(c: char)
    requires IsDigit(c)
    ensures c in DIGITS + ","
  {
    assert DIGITS[c as int - '0' as int] == c;
  }

  // A well-formed list means the union of its ranges as they are read,
  lemma {:induction false} ListIsRead(items: seq<Item>, wide: bool)
    requires forall i :: 0 <= i < |items| ==> WellFormed(items[i])
    ensures Numbers(ListText(items), wide) == AllRead(items, wide)
  {
    if items != [] {
      var tail := ListText(items[1..]);
      var rest := if |items| == 1 then "" else "," + tail;
      JoinStep(ItemText, items);
      ItemNumbers(items[0], rest, wide);
      NextEnds(rest);
      ListIsRead(items[1..], wide);
      assert NextEntry(rest) == tail;
    }
  }

  lemma {:induction false} AllSurvive(items: seq<Item>, wide: bool)
    requires forall i :: 0 <= i < |items| ==> WellFormed(items[i]) && Survives(items[i], wide)
    ensures AllRead(items, wide) == AllMeant(items)
  {
    if items != [] {
      ReadAsMeant(items[0], wide);
      AllSurvive(items[1..], wide);
    }
  }

  // and so the union of its ranges if they survive; with one range exactly then.
  lemma ListMeaning(items: seq<Item>, wide: bool)
    requires forall i :: 0 <= i < |items| ==> WellFormed(items[i])
    ensures (forall i :: 0 <= i < |items| ==> Survives(items[i], wide)) ==> Numbers(ListText(items), wide) == AllMeant(items)
    ensures |items| == 1 ==> (Numbers(ListText(items), wide) == Meant(items[0]) <==> Survives(items[0], wide))
  {
    ListIsRead(items, wide);
    if forall i :: 0 <= i < |items| ==> Survives(items[i], wide) {
      AllSurvive(items, wide);
    }
    if |items| == 1 {
      ReadAsMeant(items[0], wide);
      assert AllRead(items[1..], wide) == {};
    }
  }

  // Not all do: 4294967297, which is 2 to the 32 and 1, is read as 1.
  lemma WrapsRound(n: nat)
    requires n <= MAX_NUMBER
    ensures var x := One(Dec(0x1_0000_0000 + n)); !Survives(x, true) && Meant(x) == {} && Read(x, true) == {n}
  {
    var v := 0x1_0000_0000 + n;
    assert ToInt(v, true) == n;
    assert forall k :: k in Range(n, n) <==> k == n;
  }
}
