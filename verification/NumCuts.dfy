// What is left of a well-formed number list when its text is cut short.

module NumCuts {
  import opened CString
  import opened NumList
  import opened NumRanges

  lemma {:induction false} ValueOfPart(d: string, j: nat)
    requires AllDigits(d) && j < |d|
    ensures AllDigits(d[..j]) && 10 * Value(d[..j]) <= Value(d)
  {
    if j < |d| - 1 {
      var e := d[..|d| - 1];
      ValueOfPart(e, j);
      assert e[..j] == d[..j];
    }
  }

  // A range of numbers from 1 on that is not empty
  predicate Rises(x: Item)
    requires WellFormed(x)
  {
    1 <= Value(x.a) && Value(Last(x)) <= MAX_NUMBER && (x.Span? ==> Value(x.a) < Value(x.b))
  }

  ghost predicate Below(n: set<int>, m: int) {
    forall k :: k in n ==> k < m
  }

  lemma OneItem(x: Item, wide: bool)
    requires WellFormed(x) && Value(x.a) <= MAX_NUMBER && Value(Last(x)) <= MAX_NUMBER
    ensures Numbers(ItemText(x), wide) == Range(Value(x.a), Value(Last(x)))
  {
    assert ListText([x]) == ItemText(x);
    ListMeaning([x], wide);
  }

  lemma Unfinished(a: string, wide: bool)
    requires a != "" && AllDigits(a) && Value(a) <= MAX_NUMBER
    ensures Numbers(a + "-", wide) == Range(Value(a), Value(a))
  {
    var v := Value(a);
    StrtolDigits(a, "-", wide);
    assert From("-", DIGITS + ",-") == "-" && "-"[1..] == "" && From("", DIGITS + ",") == "";
    assert LastNumber(v, "-", wide) == (v, "");
    FirstEntryIs(a + "-", wide);
    FirstNumbers(a + "-", wide);
    assert Numbers("", wide) == {};
  }

  // The first characters of an item mean no number behind its last, and not that if they are not all.
  lemma ItemCut(x: Item, j: nat, wide: bool)
    requires WellFormed(x) && Rises(x) && j <= |ItemText(x)|
    ensures Below(Numbers(ItemText(x)[..j], wide), Value(Last(x)) + if j < |ItemText(x)| then 0 else 1)
  {
    var s, m := ItemText(x), Value(Last(x));
    if j == |s| {
      assert s[..j] == s;
      OneItem(x, wide);
    } else if 0 < j <= |x.a| {
      var d := x.a[..j];
      assert s[..j] == d;
      if j < |x.a| {
        ValueOfPart(x.a, j);
      } else {
        assert d == x.a;
      }
      OneItem(One(d), wide);
    } else if j == |x.a| + 1 {
      assert s[..j] == x.a + "-";
      Unfinished(x.a, wide);
    } else if j > 0 {
      var b := x.b[..j - |x.a| - 1];
      assert s[..j] == x.a + "-" + b;
      ValueOfPart(x.b, |b|);
      OneItem(Span(x.a, b), wide);
    }
  }

  // Such ranges, of which the last ends with m, and the others below
  ghost predicate RiseTo(items: seq<Item>, m: int) {
    forall i :: 0 <= i < |items| ==>
      && WellFormed(items[i]) && Rises(items[i])
      && if i == |items| - 1 then Value(Last(items[i])) == m else Value(Last(items[i])) < m
  }

  // A list of rising ranges that ends with m, cut anywhere, does not mean m.
  lemma {:induction false} ListCut(items: seq<Item>, j: nat, m: int, wide: bool)
    requires items != [] && j < |ListText(items)|
    requires RiseTo(items, m)
    ensures Below(Numbers(ListText(items)[..j], wide), m)
  {
    var x, first := items[0], ItemText(items[0]);
    JoinStep(ItemText, items);
    if j <= |first| {
      assert ListText(items)[..j] == first[..j];
      ItemCut(x, j, wide);
    } else {
      var tail, i := ListText(items[1..]), j - |first| - 1;
      var rest := "," + tail[..i];
      assert ListText(items)[..j] == first + rest;
      ListCut(items[1..], i, m, wide);
      ItemNumbers(x, rest, wide);
      NextEnds(rest);
      assert NextEntry(rest) == tail[..i];
    }
  }

  lemma RisingMeans(items: seq<Item>, m: int, wide: bool)
    requires RiseTo(items, m)
    ensures Numbers(ListText(items), wide) == AllMeant(items)
  {
    assert forall i :: 0 <= i < |items| ==> Survives(items[i], wide);
    ListMeaning(items, wide);
  }

  lemma BehindComma(list: string, n: nat)
    requires n <= |list|
    ensures ("," + list)[..n + 1][1..] == list[..n]
  {
  }

  // So with a comma before it, in a buffer, it means its numbers exactly if there is room for it.
  lemma ListInBuffer(items: seq<Item>, m: int, all: set<int>, wide: bool)
    requires items != [] && RiseTo(items, m) && AllMeant(items) == all && m in all
    ensures Numbers(ListText(items), wide) == all
    ensures var text := "," + ListText(items);
            Numbers(Truncated(text, BUFSIZE)[1..], wide) == all <==> |text| < BUFSIZE
  {
    RisingMeans(items, m, wide);
    var list := ListText(items);
    var text := "," + list;
    if |text| < BUFSIZE {
      assert text[1..] == list;
    } else {
      BehindComma(list, BUFSIZE - 2);
      ListCut(items, BUFSIZE - 2, m, wide);
    }
  }
}
