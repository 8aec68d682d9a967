// news.c: the items of the news list, their numbering, and their form in the database file.

module NewsFormat {
  import opened Bytes
  import opened CString
  import opened Files
  import opened DataFiles
  import opened Records

  const MAX_NEWS := 32767

  // A character array of NICKMAX bytes
  type NickBuffer = w: Contents | |w| == NICKMAX witness seq(NICKMAX, i => 0)

  datatype NewsItem = NewsItem(typ: Int16, num: Int32, text: Str, who: NickBuffer, time: int)

  // ---------- numbering ----------

  // The number of the last item of a type, or 0
  function LastNum(items: seq<NewsItem>, typ: Int16): Int32 {
    if items == [] then 0
    else if items[|items| - 1].typ == typ then items[|items| - 1].num
    else LastNum(items[..|items| - 1], typ)
  }

  // num + 1 in 32 bits
  function NextNum(items: seq<NewsItem>, typ: Int16): Int32 {
    AsInt32(AsUint32(LastNum(items, typ) + 1))
  }

  ghost predicate InOrder(a: NewsItem, b: NewsItem) {
    a.typ == b.typ ==> a.num < b.num
  }

  // Within each type the numbers are positive and strictly increasing.
  ghost predicate Numbered(items: seq<NewsItem>) {
    && (forall i :: 0 <= i < |items| ==> items[i].num > 0)
    && (forall i, j {:trigger InOrder(items[i], items[j])} :: 0 <= i < j < |items| ==> InOrder(items[i], items[j]))
  }

  ghost predicate Has(items: seq<NewsItem>, typ: Int16) {
    exists i :: 0 <= i < |items| && items[i].typ == typ
  }

  // The first number of a type is 1, and each one more than that before it.
  lemma NextIsOneMore(items: seq<NewsItem>, item: NewsItem)
    ensures item.num < 0x7fff_ffff ==> NextNum(items + [item], item.typ) == item.num + 1
    ensures (forall i :: 0 <= i < |items| ==> items[i].typ != item.typ) ==> NextNum(items, item.typ) == 1
    ensures forall typ: Int16 :: typ != item.typ ==> NextNum(items + [item], typ) == NextNum(items, typ)
  {
    assert (items + [item])[..|items|] == items;
    if forall i :: 0 <= i < |items| ==> items[i].typ != item.typ {
      NoneOfType(items, item.typ);
    }
  }

  lemma {:induction false} NoneOfType(items: seq<NewsItem>, typ: Int16)
    requires forall i :: 0 <= i < |items| ==> items[i].typ != typ
    ensures LastNum(items, typ) == 0
  {
    if items != [] {
      NoneOfType(items[..|items| - 1], typ);
    }
  }

  // In a numbered list the last number of a type is its largest.
  lemma {:induction false} LastIsLargest(items: seq<NewsItem>, typ: Int16)
    requires Numbered(items)
    ensures LastNum(items, typ) >= 0 && (Has(items, typ) <==> LastNum(items, typ) > 0)
    ensures forall i :: 0 <= i < |items| && items[i].typ == typ ==> items[i].num <= LastNum(items, typ)
    ensures Has(items, typ) ==> exists i :: 0 <= i < |items| && items[i].typ == typ && items[i].num == LastNum(items, typ)
  {
    if items != [] {
      var n := |items| - 1;
      var front := items[..n];
      assert forall i, j :: 0 <= i < j < n ==> InOrder(items[i], items[j]);
      LastIsLargest(front, typ);
      if items[n].typ == typ {
        forall i | 0 <= i < |items| && items[i].typ == typ
          ensures items[i].num <= items[n].num
        {
          assert i < n ==> InOrder(items[i], items[n]);
        }
      } else if Has(front, typ) {
        var i :| 0 <= i < n && front[i].typ == typ && front[i].num == LastNum(front, typ);
        assert items[i] == front[i];
      }
    }
  }

  // ADD keeps the numbering exactly as long as the last number is not the largest of 32 bits.
  lemma AddKeepsNumbering(items: seq<NewsItem>, item: NewsItem)
    requires Numbered(items) && item.num == NextNum(items, item.typ)
    ensures Numbered(items + [item]) <==> LastNum(items, item.typ) < 0x7fff_ffff
  {
    var more := items + [item];
    LastIsLargest(items, item.typ);
    if LastNum(items, item.typ) < 0x7fff_ffff {
      forall i, j | 0 <= i < j < |more|
        ensures InOrder(more[i], more[j])
      {
        assert j < |items| ==> InOrder(items[i], items[j]);
      }
    } else {
      assert more[|items|].num < 0;
    }
  }

  lemma TailNumbered(items: seq<NewsItem>)
    requires Numbered(items) && items != []
    ensures Numbered(items[1..])
  {
    forall i, j | 0 <= i < j < |items| - 1
      ensures InOrder(items[1..][i], items[1..][j])
    {
      assert InOrder(items[i + 1], items[j + 1]);
    }
  }

  // The list without item num of a type; without all of that type if num is 0
  function Without(items: seq<NewsItem>, num: int, typ: Int16): (r: seq<NewsItem>)
    ensures |r| <= |items|
  {
    if items == [] then []
    else if items[0].typ == typ && (num == 0 || items[0].num == num) then Without(items[1..], num, typ)
    else [items[0]] + Without(items[1..], num, typ)
  }

  // What one round of del_newsitem does to the items passed and the items to come
  lemma WithoutStep(left: seq<NewsItem>, here: seq<NewsItem>, num: int, typ: Int16)
    requires here != []
    ensures left + Without(here, num, typ) ==
            if here[0].typ == typ && (num == 0 || here[0].num == num) then left + Without(here[1..], num, typ)
            else (left + [here[0]]) + Without(here[1..], num, typ)
  {
    var rest := Without(here[1..], num, typ);
    assert left + ([here[0]] + rest) == (left + [here[0]]) + rest;
  }

  lemma {:induction false} WithoutIsSublist(items: seq<NewsItem>, num: int, typ: Int16)
    ensures forall x :: x in Without(items, num, typ) <==> x in items && !(x.typ == typ && (num == 0 || x.num == num))
  {
    if items != [] {
      WithoutIsSublist(items[1..], num, typ);
      assert items == [items[0]] + items[1..];
    }
  }

  // DEL keeps the numbering.
  lemma {:induction false} DelKeepsNumbering(items: seq<NewsItem>, num: int, typ: Int16)
    requires Numbered(items)
    ensures Numbered(Without(items, num, typ))
  {
    if items != [] {
      var rest := items[1..];
      var kept := Without(rest, num, typ);
      TailNumbered(items);
      DelKeepsNumbering(rest, num, typ);
      WithoutIsSublist(rest, num, typ);
      var all := [items[0]] + kept;
      forall i, j | 0 <= i < j < |all|
        ensures InOrder(all[i], all[j])
      {
        if i == 0 {
          assert all[j] in kept;
          var k :| 0 <= k < |rest| && rest[k] == all[j];
          assert InOrder(items[0], items[k + 1]);
        } else {
          assert InOrder(kept[i - 1], kept[j - 1]);
        }
      }
    }
  }

  // By a number, DEL removes one item or none.
  lemma {:induction false} DelOfNumber(items: seq<NewsItem>, num: int, typ: Int16)
    requires Numbered(items) && num != 0
    ensures |items| - |Without(items, num, typ)| ==
            if exists i :: 0 <= i < |items| && items[i].typ == typ && items[i].num == num then 1 else 0
  {
    if items != [] {
      var rest := items[1..];
      TailNumbered(items);
      DelOfNumber(rest, num, typ);
      assert forall i :: 0 <= i < |rest| ==> rest[i] == items[i + 1] && InOrder(items[0], items[i + 1]);
      if i :| 0 <= i < |items| && items[i].typ == typ && items[i].num == num {
        assert i > 0 ==> rest[i - 1] == items[i];
      }
    }
  }

  // ---------- the file ----------

  function NumTextBytes(item: NewsItem): Contents {
    Int32Bytes(AsUint32(item.num)) + StringBytes(item.text)
  }

  function FrontBytes(item: NewsItem): Contents {
    Int16Bytes(AsUint16(item.typ)) + NumTextBytes(item)
  }

  function BackBytes(item: NewsItem): Contents {
    item.who + Int32Bytes(AsUint32(item.time))
  }

  function ItemBytes(item: NewsItem): Contents {
    FrontBytes(item) + BackBytes(item)
  }

  // All that save_news writes
  function NewsBytes(items: seq<NewsItem>): Contents {
    HEADER + (Int16Bytes(AsUint16(|items|)) + AllBytes(ItemBytes, items))
  }

  // The fields of an item in the file: its type in two bytes and its number in four, the text, the nick in 32
  // bytes and the time in four.
  lemma ItemLayout(item: NewsItem)
    ensures var b, n := ItemBytes(item), |StringBytes(item.text)|;
            && |b| == 6 + n + 36
            && BigEndian(b[..2]) == AsUint16(item.typ) && BigEndian(b[2..6]) == AsUint32(item.num)
            && b[6..6 + n] == StringBytes(item.text) && b[6 + n..6 + n + 32] == item.who
            && BigEndian(b[6 + n + 32..]) == AsUint32(item.time)
  {
    var typ, num, text := Int16Bytes(AsUint16(item.typ)), Int32Bytes(AsUint32(item.num)), StringBytes(item.text);
    var time := Int32Bytes(AsUint32(item.time));
    var b, n := ItemBytes(item), |text|;
    WrittenBigEndian(AsUint16(item.typ), AsUint32(item.num));
    WrittenBigEndian(0, AsUint32(item.time));
    assert b == (typ + (num + text)) + (item.who + time);
    assert b[..2] == typ;
    assert b[2..6] == num;
    assert b[6..6 + n] == text;
    assert b[6 + n..6 + n + 32] == item.who;
    assert b[6 + n + 32..] == time;
  }

  // In front of the items stand the version in four bytes and their number in two.
  lemma NewsLayout(items: seq<NewsItem>)
    requires |items| <= MAX_NEWS
    ensures var b := NewsBytes(items);
            && |b| >= 6 && BigEndian(b[..4]) == 8 && BigEndian(b[4..6]) == |items| && b[6..] == AllBytes(ItemBytes, items)
  {
    Small(|items|);
    CountLayout(|items|, AllBytes(ItemBytes, items));
  }

  lemma CountLayout(n: Uint16, all: Contents)
    ensures var b := HEADER + (Int16Bytes(n) + all); |b| >= 6 && BigEndian(b[..4]) == 8 && BigEndian(b[4..6]) == n && b[6..] == all
  {
    WrittenBigEndian(n, 0);
    BigEndianFour(0, 0, 0, FILE_VERSION);
    AfterHeader(HEADER, Int16Bytes(n), all);
  }

  lemma AfterHeader(header: Contents, count: Contents, all: Contents)
    requires |header| == 4 && |count| == 2
    ensures var b := header + (count + all); b[..4] == header && b[4..6] == count && b[6..] == all
  {
  }

  // The fields of an item before who, and those from who on
  datatype Front = Front(typ: Int16, num: Int32, text: Str)
  datatype Back = Back(who: NickBuffer, time: Int32)

  function GetFront(r: Contents): Option<Parsed<Front>> {
    match GetInt16(r) case None => None case Some(typ) =>
    match GetInt32(typ.rest) case None => None case Some(num) =>
    match GetString(num.rest) case None => None case Some(text) =>
    Some(Parsed(Front(AsInt16(typ.value), AsInt32(num.value), text.value), text.rest))
  }

  function GetBack(r: Contents): Option<Parsed<Back>> {
    if |r| < NICKMAX then None else
    match GetInt32(r[NICKMAX..]) case None => None case Some(time) =>
    Some(Parsed(Back(r[..NICKMAX], AsInt32(time.value)), time.rest))
  }

  function GetItem(r: Contents): Option<Parsed<NewsItem>> {
    match GetFront(r) case None => None case Some(Parsed(f, more)) =>
    match GetBack(more) case None => None case Some(Parsed(b, rest)) =>
    Some(Parsed(NewsItem(f.typ, f.num, f.text, b.who, b.time), rest))
  }

  // What the buffer of a nick holds, and how many bytes are read into it
  datatype NickRead = NickRead(was: NickBuffer, n: nat)

  // It keeps the others, and the file is read on from there.
  function GetBackCut(r: Contents, nick: NickRead): Option<Parsed<Back>> {
    if nick.n > NICKMAX || |r| < nick.n then None else
    match GetInt32(r[nick.n..]) case None => None case Some(time) =>
    Some(Parsed(Back(r[..nick.n] + nick.was[nick.n..], AsInt32(time.value)), time.rest))
  }

  function GetItemCut(r: Contents, nick: NickRead): Option<Parsed<NewsItem>> {
    match GetFront(r) case None => None case Some(Parsed(f, more)) =>
    match GetBackCut(more, nick) case None => None case Some(Parsed(b, rest)) =>
    Some(Parsed(NewsItem(f.typ, f.num, f.text, b.who, b.time), rest))
  }

  // How many nicks are cut short
  function Short(nicks: seq<NickRead>): (n: nat)
    ensures n == 0 <==> forall i :: 0 <= i < |nicks| ==> nicks[i].n >= NICKMAX
  {
    if nicks == [] then 0
    else Short(nicks[..|nicks| - 1]) + if nicks[|nicks| - 1].n < NICKMAX then 1 else 0
  }

  lemma GetItemWhole(r: Contents, was: NickBuffer)
    ensures GetItemCut(r, NickRead(was, NICKMAX)) == GetItem(r)
  {
    match GetFront(r)
    case None =>
    case Some(Parsed(f, more)) =>
      assert |more| >= NICKMAX ==> more[..NICKMAX] + was[NICKMAX..] == more[..NICKMAX];
  }

  // If none is, the items are those of the file.
  lemma GetWhole(r: Contents, nicks: seq<NickRead>)
    requires forall i :: 0 <= i < |nicks| ==> nicks[i].n == NICKMAX
    ensures var all := GetAll(GetItem, r, |nicks|);
            match GetEach(GetItemCut, r, nicks)
            case None => |all| < |nicks|
            case Some(p) => p.value == all && |all| == |nicks|
  {
    forall i, x: Contents | 0 <= i < |nicks|
      ensures GetItemCut(x, nicks[i]) == GetItem(x)
    {
      GetItemWhole(x, nicks[i].was);
      assert nicks[i] == NickRead(nicks[i].was, NICKMAX);
    }
    EachIsAll(GetItemCut, GetItem, r, nicks);
  }

  // What a file keeps of an item: a text is cut at 65534 bytes, and a time at 32 bits.
  function Filed(item: NewsItem): NewsItem {
    item.(text := Stored(item.text), time := AsInt32(AsUint32(item.time)))
  }

  lemma ReadBackFront(item: NewsItem, more: Contents)
    ensures GetFront(FrontBytes(item) + more) == Some(Parsed(Front(item.typ, item.num, Stored(item.text)), more))
  {
    var t, n := AsUint16(item.typ), AsUint32(item.num);
    var text := StringBytes(item.text) + more;
    var num := Int32Bytes(n) + text;
    assert FrontBytes(item) + more == Int16Bytes(t) + num;
    ReadBackInt16(t, num);
    ReadBackInt32(n, text);
    ReadBackString(item.text, more);
    Signed(item.typ, item.num);
  }

  lemma ReadBackBack(item: NewsItem, more: Contents)
    ensures GetBack(BackBytes(item) + more) == Some(Parsed(Back(item.who, AsInt32(AsUint32(item.time))), more))
  {
    var r := BackBytes(item) + more;
    var time := Int32Bytes(AsUint32(item.time)) + more;
    assert r[..NICKMAX] == item.who && r[NICKMAX..] == time;
    ReadBackInt32(AsUint32(item.time), more);
  }

  lemma ReadBackItem(item: NewsItem, more: Contents)
    ensures GetItem(ItemBytes(item) + more) == Some(Parsed(Filed(item), more))
  {
    Assoc(FrontBytes(item), BackBytes(item), more);
    ReadBackFront(item, BackBytes(item) + more);
    ReadBackBack(item, more);
  }

  lemma CountReadBack(n: Uint16, body: Contents)
    ensures var c := HEADER + (Int16Bytes(n) + body);
            VersionOf(c) == FILE_VERSION && GetInt16(c[4..]) == Some(Parsed(n, body))
  {
    HeaderVersion(Int16Bytes(n) + body);
    ReadBackInt16(n, body);
  }

  lemma Small(n: int)
    requires 0 <= n < 0x1_0000
    ensures AsUint16(n) == n
  {
  }

  lemma ItemsReadBack(items: seq<NewsItem>)
    ensures GetAll(GetItem, AllBytes(ItemBytes, items), |items|) == Each(Filed, items)
  {
    forall x: NewsItem, after: Contents
      ensures GetItem(ItemBytes(x) + after) == Some(Parsed(Filed(x), after))
    {
      ReadBackItem(x, after);
    }
    var bytes := AllBytes(ItemBytes, items);
    ReadBackAll(ItemBytes, GetItem, Filed, items, []);
    assert bytes + [] == bytes;
  }

  // What save_news writes, load_news reads: the version, the count, and the items in order.
  lemma NewsRoundTrip(items: seq<NewsItem>)
    requires |items| <= MAX_NEWS
    ensures VersionOf(NewsBytes(items)) == FILE_VERSION
    ensures GetInt16(NewsBytes(items)[4..]) == Some(Parsed(|items| as Uint16, AllBytes(ItemBytes, items)))
    ensures GetAll(GetItem, AllBytes(ItemBytes, items), |items|) == Each(Filed, items)
  {
    Small(|items|);
    CountReadBack(AsUint16(|items|), AllBytes(ItemBytes, items));
    ItemsReadBack(items);
  }

  // A text is NULL, or ends with its only zero byte.
  ghost predicate Terminated(s: Str) {
    s == None || (s.value != [] && s.value == Text(s.value) + [0])
  }

  // An item is kept as it is exactly if its text fits a record and its time fits 32 bits.
  lemma FiledExactly(item: NewsItem)
    requires Terminated(item.text)
    ensures Filed(item) == item <==>
            (item.text == None || |item.text.value| <= MAX_TEXT + 1) && -0x8000_0000 <= item.time < 0x8000_0000
  {
  }

  lemma SameNumbers(a: seq<NewsItem>, b: seq<NewsItem>)
    requires |a| == |b| && (forall i :: 0 <= i < |a| ==> a[i].typ == b[i].typ && a[i].num == b[i].num)
    requires Numbered(a)
    ensures Numbered(b)
  {
    forall i, j | 0 <= i < j < |b|
      ensures InOrder(b[i], b[j])
    {
      assert InOrder(a[i], a[j]);
    }
  }

  // Then the whole list is; the numbering survives in any case.
  lemma AllFiledExactly(items: seq<NewsItem>)
    ensures Each(Filed, items) == items <==> forall i :: 0 <= i < |items| ==> Filed(items[i]) == items[i]
    ensures Numbered(items) <==> Numbered(Each(Filed, items))
  {
    EachSame(Filed, items);
    var all := Each(Filed, items);
    if Numbered(items) {
      SameNumbers(items, all);
    }
    if Numbered(all) {
      SameNumbers(all, items);
    }
  }
}
