// news.c: the news list, an array that grows, and its database file.

module News {
  import opened Bytes
  import opened CString
  import opened Files
  import opened DataFiles
  import opened Records
  import opened NewsFormat
  import opened Sight

  // strscpy into a nick buffer: a short string is followed by two zero bytes.
  function Copied(was: NickBuffer, s: Contents): (w: NickBuffer) {
    if |s| < NICKMAX - 1 then s + [0, 0] + was[|s| + 2..] else s[..NICKMAX - 1] + [0]
  }

  lemma CopiedText(was: NickBuffer, s: Contents)
    requires 0 !in s
    ensures Text(Copied(was, s)) == if |s| < NICKMAX then s else s[..NICKMAX - 1]
  {
    if |s| < NICKMAX - 1 {
      TextTerminated(s, [0] + was[|s| + 2..]);
      assert Copied(was, s) == s + [0] + ([0] + was[|s| + 2..]);
    } else {
      TextTerminated(s[..NICKMAX - 1], []);
      assert Copied(was, s) == s[..NICKMAX - 1] + [0] + [];
    }
  }

  ghost predicate IsNew(item: NewsItem, typ: Int16, num: int, nick: Contents, text: Contents, now: int) {
    && item.typ == typ && item.num == num && item.text == Some(text + [0]) && item.time == now
    && Text(item.who) == if |nick| < NICKMAX then nick else nick[..NICKMAX - 1]
  }

  function MakeItem(was: NickBuffer, typ: Int16, num: Int32, nick: Contents, text: Contents, now: int): (item: NewsItem)
    requires 0 !in nick
    ensures IsNew(item, typ, num, nick, text, now)
  {
    CopiedText(was, nick);
    NewsItem(typ, num, Some(text + [0]), Copied(was, nick), now)
  }

  // The first k bytes of two parts, once the first part is written
  lemma UpTo(a: Contents, b: Contents, k: nat)
    requires k <= |b|
    ensures (a + b)[..|a| + k] == a + b[..k]
  {
  }

  method WriteNumText(fs: FileSystem, fp: File, item: NewsItem) returns (ok: bool, ghost n: nat)
    requires AtEnd(fs, fp)
    modifies fs`data, fs`trace, fs`faults, fp`pos, fp`error
    ensures n <= |NumTextBytes(item)| && Grew(fs, fp, NumTextBytes(item)[..n]) && ok == (n == |NumTextBytes(item)|)
    ensures fs.faults == old(fs.faults) + if ok then 0 else 1
  {
    var u := AsUint32(item.num);
    ghost var num, text := Int32Bytes(u), StringBytes(item.text);
    ok, n := WriteInt32(fs, fp, u);
    if !ok {
      assert num[..n] == (num + text)[..n];
      return;
    }
    assert num[..n] == num;
    ghost var k;
    ok, k := WriteString(fs, fp, item.text);
    GrowTwice(old(fs.data), fp.inode, num, text[..k]);
    n := 4 + k;
    UpTo(num, text, k);
  }

  method WriteFront(fs: FileSystem, fp: File, item: NewsItem) returns (ok: bool, ghost n: nat)
    requires AtEnd(fs, fp)
    modifies fs`data, fs`trace, fs`faults, fp`pos, fp`error
    ensures n <= |FrontBytes(item)| && Grew(fs, fp, FrontBytes(item)[..n]) && ok == (n == |FrontBytes(item)|)
    ensures fs.faults == old(fs.faults) + if ok then 0 else 1
  {
    var t := AsUint16(item.typ);
    ghost var typ, more := Int16Bytes(t), NumTextBytes(item);
    ok, n := WriteInt16(fs, fp, t);
    if !ok {
      assert typ[..n] == (typ + more)[..n];
      return;
    }
    assert typ[..n] == typ;
    ghost var k;
    ok, k := WriteNumText(fs, fp, item);
    GrowTwice(old(fs.data), fp.inode, typ, more[..k]);
    n := 2 + k;
    UpTo(typ, more, k);
  }

  // A who that is written in part only goes unnoticed: write_buffer yields 0 then, which is not negative.
  method WriteBack(fs: FileSystem, fp: File, item: NewsItem) returns (ok: bool, ghost written: Contents, ghost missing: nat)
    requires AtEnd(fs, fp)
    modifies fs`data, fs`trace, fs`faults, fp`pos, fp`error
    ensures Grew(fs, fp, written)
    ensures ok ==> |written| + missing == |BackBytes(item)| && (missing == 0 ==> written == BackBytes(item))
    ensures old(fs.faults) <= fs.faults
    ensures if fs.faults == old(fs.faults) then ok && missing == 0 else !ok || missing > 0
  {
    var k := PutSome(fs, fp, item.who);
    missing := NICKMAX - k;
    assert item.who[..NICKMAX] == item.who;
    ghost var n;
    var d := AsUint32(item.time);
    ok, n := WriteInt32(fs, fp, d);
    ghost var time := Int32Bytes(d);
    GrowTwice(old(fs.data), fp.inode, item.who[..k], time[..n]);
    written := item.who[..k] + time[..n];
    assert ok ==> time[..n] == time;
  }

  method WriteItem(fs: FileSystem, fp: File, item: NewsItem) returns (ok: bool, ghost written: Contents, ghost missing: nat)
    requires AtEnd(fs, fp)
    modifies fs`data, fs`trace, fs`faults, fp`pos, fp`error
    ensures Grew(fs, fp, written)
    ensures ok ==> |written| + missing == |ItemBytes(item)| && (missing == 0 ==> written == ItemBytes(item))
    ensures old(fs.faults) <= fs.faults
    ensures if fs.faults == old(fs.faults) then ok && missing == 0 else !ok || missing > 0
  {
    ghost var n;
    ghost var front := FrontBytes(item);
    ok, n := WriteFront(fs, fp, item);
    if !ok {
      return false, front[..n], 0;
    }
    assert front[..n] == front;
    ghost var back;
    ok, back, missing := WriteBack(fs, fp, item);
    GrowTwice(old(fs.data), fp.inode, front, back);
    written := front + back;
  }

  // At every moment some name holds the one or the other.
  ghost predicate EitherSince(trace: Trace, start: nat, a: Contents, b: Contents) {
    forall k {:trigger Holds(trace[k], a)} :: start <= k < |trace| ==> Holds(trace[k], a) || Holds(trace[k], b)
  }

  // What held before f was opened goes on.
  lemma Since(trace1: Trace, trace2: Trace, start: nat, a: Contents, b: Contents, done: bool, undone: bool)
    requires start <= |trace1| && trace1 <= trace2 && HeldSince(trace1, start, a)
    requires done ==> EitherSince(trace2, |trace1|, a, b)
    requires undone ==> |trace2| > |trace1| && HeldSince(trace2[..|trace2| - 1], |trace1|, a)
    ensures done ==> EitherSince(trace2, start, a, b)
    ensures undone ==> HeldSince(trace2[..|trace2| - 1], start, a)
  {
    forall k | start <= k < |trace1|
      ensures Holds(trace2[k], a)
    {
      assert trace2[k] == trace1[k];
    }
  }

  datatype LoadResult = NoFile | Fatal | Loaded

  // The capacity for a count read from the file
  function Capacity(n: Int16): (size: nat)
    ensures size >= 16 && size >= n && (n < 16384 ==> size >= 2 * n) && size <= MAX_NEWS
    ensures size == 16 || size == 2 * n || (size == MAX_NEWS && 2 * n > MAX_NEWS)
  {
    if n < 8 then 16 else if n >= 16384 then 32767 else 2 * n
  }

  // The capacity that takes one item more
  function Grown(n: int, size: nat): (r: nat)
    ensures n <= size ==> r > n
    ensures r != size ==> size <= n && r == if size < 8 then 8 else size + size
  {
    if n < size then size else if size < 8 then 8 else 2 * size
  }

  // The fields of an item, as load_news reads them. After an error the other fields are still
  // read, unless it is fatal.
  method ReadFront(fs: FileSystem, fp: File, was: Front, forceload: bool) returns (ok: bool, front: Front)
    requires Readable(fs, fp)
    modifies fs`faults, fp`pos, fp`error
    ensures Readable(fs, fp) && old(fs.faults) <= fs.faults
    ensures ok ==> GetFront(old(Left(fs, fp))) == Some(Parsed(front, Left(fs, fp))) && fs.faults == old(fs.faults)
    ensures fs.faults == old(fs.faults) && !ok ==> GetFront(old(Left(fs, fp))) == None
  {
    front := was;
    var gotTyp, typ := ReadInt16(fs, fp);
    if gotTyp {
      front := front.(typ := AsInt16(typ));
    } else if !forceload {
      return false, front;
    }
    var gotNum, num := ReadInt32(fs, fp);
    if gotNum {
      front := front.(num := AsInt32(num));
    } else if !forceload {
      return false, front;
    }
    var gotText, text := ReadString(fs, fp);
    if gotText {
      front := front.(text := text);
    }
    ok := gotTyp && gotNum && gotText;
  }

  // That who may be short goes unnoticed: k bytes of it are read, and cut is 1 if a failing call has made it so.
  method ReadBack(fs: FileSystem, fp: File, was: NickBuffer) returns (ok: bool, back: Back, ghost cut: nat, ghost k: nat)
    requires Readable(fs, fp)
    modifies fs`faults, fp`pos, fp`error
    ensures Readable(fs, fp) && old(fs.faults) + cut <= fs.faults
    ensures ok ==> fs.faults == old(fs.faults) + cut
    ensures ok && cut == 0 ==> GetBack(old(Left(fs, fp))) == Some(Parsed(back, Left(fs, fp)))
    ensures ok ==> GetBackCut(old(Left(fs, fp)), NickRead(was, k)) == Some(Parsed(back, Left(fs, fp))) && cut == Missed(k)
    ensures fs.faults == old(fs.faults) && !ok ==> GetBack(old(Left(fs, fp))) == None
  {
    ghost var left := Left(fs, fp);
    var who := fs.Fread(NICKMAX, fp);
    cut, k := fs.faults - old(fs.faults), |who|;
    assert who == left[..k] && Left(fs, fp) == left[k..];
    assert |who| == NICKMAX ==> who == left[..NICKMAX] && who + was[|who|..] == who && Left(fs, fp) == left[NICKMAX..];
    assert |who| < NICKMAX && cut == 0 ==> Left(fs, fp) == [];
    var time;
    ok, time := ReadInt32(fs, fp);
    back := Back(who + was[|who|..], AsInt32(time));
  }

  // An item is read, so much of its nick, and rest is left. Only an assertion of Look unfolds this.
  ghost predicate ReadCut(c: Contents, nick: NickRead, item: NewsItem, rest: Contents) {
    forall x: int {:trigger Look(x)} :: Look(x) ==> GetItemCut(c, nick) == Some(Parsed(item, rest))
  }

  function Missed(k: nat): nat {
    if k < NICKMAX then 1 else 0
  }

  // One round of the loop in load_news
  method ReadItem(fs: FileSystem, fp: File, was: NewsItem, forceload: bool)
    returns (ok: bool, item: NewsItem, ghost cut: nat, ghost k: nat)
    requires Readable(fs, fp)
    modifies fs`faults, fp`pos, fp`error
    ensures Readable(fs, fp) && old(fs.faults) + cut <= fs.faults
    ensures ok ==> fs.faults == old(fs.faults) + cut
    ensures ok && cut == 0 ==> GetItem(old(Left(fs, fp))) == Some(Parsed(item, Left(fs, fp)))
    ensures ok ==> ReadCut(old(Left(fs, fp)), NickRead(was.who, k), item, Left(fs, fp)) && cut == Missed(k)
    ensures fs.faults == old(fs.faults) && !ok ==> GetItem(old(Left(fs, fp))) == None
  {
    var front;
    ok, front := ReadFront(fs, fp, Front(was.typ, was.num, was.text), forceload);
    item, cut, k := was.(typ := front.typ, num := front.num, text := front.text), 0, 0;
    if ok || forceload {
      var got, back;
      got, back, cut, k := ReadBack(fs, fp, was.who);
      item := item.(who := back.who, time := back.time);
      ok := ok && got;
    }
  }

  // The items that are still to come, if n are due. Only an assertion of Look unfolds this.
  ghost predicate ToCome(fs: FileSystem, fp: File, n: nat, items: seq<NewsItem>)
    requires Readable(fs, fp)
    reads fs, fp
  {
    forall x: int {:trigger Look(x)} :: Look(x) ==> items == GetAll(GetItem, Left(fs, fp), n)
  }

  // Of n items due, the next is read.
  method ReadNext(fs: FileSystem, fp: File, was: NewsItem, forceload: bool, ghost n: nat, ghost todo: seq<NewsItem>)
    returns (got: bool, item: NewsItem, ghost m: nat, ghost rest: seq<NewsItem>, ghost cut: nat, ghost k: nat)
    requires n > 0 && Readable(fs, fp)
    modifies fs`faults, fp`pos, fp`error
    ensures Readable(fs, fp) && old(fs.faults) + cut <= fs.faults
    ensures m == (if got then n - 1 else 0) && |rest| <= m && (got ==> fs.faults == old(fs.faults) + cut)
    ensures old(ToCome(fs, fp, n, todo)) && (if got then cut == 0 else fs.faults == old(fs.faults)) ==>
              todo == (if got then [item] + rest else rest) && ToCome(fs, fp, m, rest)
    ensures got ==> ReadCut(old(Left(fs, fp)), NickRead(was.who, k), item, Left(fs, fp)) && cut == Missed(k)
  {
    assert Look(0);
    got, item, cut, k := ReadItem(fs, fp, was, forceload);
    m := if got then n - 1 else 0;
    rest := GetAll(GetItem, Left(fs, fp), m);
  }

  // The items read so far, by how much of each nick was read, and what is left. Only an assertion of Look
  // unfolds this.
  ghost predicate ReadSoFar(c: Contents, nicks: seq<NickRead>, items: seq<NewsItem>, left: Contents) {
    forall x: int {:trigger Look(x)} :: Look(x) ==> GetEach(GetItemCut, c, nicks) == Some(Parsed(items, left))
  }

  lemma ReadOneMore(c: Contents, nicks: seq<NickRead>, items: seq<NewsItem>, left: Contents, nick: NickRead, item: NewsItem,
                    rest: Contents)
    requires ReadSoFar(c, nicks, items, left) && ReadCut(left, nick, item, rest)
    ensures ReadSoFar(c, nicks + [nick], items + [item], rest) && Short(nicks + [nick]) == Short(nicks) + Missed(nick.n)
  {
    assert Look(0) && (nicks + [nick])[..|nicks|] == nicks;
  }

  // close_db, for a file that holds now, while some name has held was from start on
  method Commit(fs: FileSystem, f: DbFile, ghost was: Contents, ghost now: Contents, ghost start: nat)
    requires f.writing && Written(fs, f, now) && (f.backupname != "" ==> f.backupname != f.filename) && start <= |fs.trace|
    modifies fs`names, fs`trace, fs`faults
    ensures fs.Valid() && old(fs.trace) <= fs.trace && f.filename in fs.names && Under(fs, f.filename) == now
    ensures old(fs.faults) <= fs.faults <= old(fs.faults) + Spare(f)
    ensures old(Kept(fs, f, was)) && f.backupname != "" ==>
              fs.faults == old(fs.faults) + (if f.backupname in fs.names then 1 else 0)
    ensures f.backupname != "" && old(HeldSince(fs.trace, start, was)) ==> EitherSince(fs.trace, start, was, now)
  {
    CloseDb(fs, f);
    assert fs.Now()[f.filename] == now;
  }

  // restore_db, while some name has held was from start on
  method Undo(fs: FileSystem, f: DbFile, ghost was: Contents, ghost start: nat) returns (ghost atUnlink: nat)
    requires f.writing && fs.Valid() && f.filename in fs.names && fs.names[f.filename] == f.fp.inode
    requires f.fp.inode in fs.data && f.fp.pos <= |fs.data[f.fp.inode]| && start <= |fs.trace|
    requires (f.backupname != "" ==> f.backupname != f.filename) && (f.backupfp != null ==> Kept(fs, f, was))
    modifies fs`names, fs`data, fs`trace, fs`faults, f.fp`pos, f.fp`error, BackupFile(f)`pos, BackupFile(f)`error
    ensures fs.Valid() && old(fs.trace) <= fs.trace && old(fs.faults) <= atUnlink <= fs.faults <= atUnlink + 1
    ensures old(Kept(fs, f, was)) && f.backupfp != null && atUnlink <= old(fs.faults) + Spare(f) ==> Restored(fs, f.filename, was)
    ensures old(Kept(fs, f, was)) && atUnlink == old(fs.faults) ==> Restored(fs, f.filename, was)
    ensures old(Kept(fs, f, was)) && f.backupname != "" && old(HeldSince(fs.trace, start, was)) ==>
              |fs.trace| > |old(fs.trace)| && HeldSince(fs.trace[..|fs.trace| - 1], start, was)
  {
    ghost var trace := fs.trace;
    ghost var held := Kept(fs, f, was) && f.backupname != "" && HeldSince(trace, start, was);
    atUnlink := RestoreDb(fs, f, was);
    if held {
      HeldJoin(trace, fs.trace[..|fs.trace| - 1], start, was);
    }
  }

  class NewsList {
    var news: array<NewsItem>
    var nnews: int
    var newsSize: nat

    constructor ()
      ensures Valid() && Items() == []
    {
      nnews, newsSize := 0, 0;
      news := new NewsItem[0];
    }

    ghost predicate Valid()
      reads this
    {
      0 <= nnews <= newsSize == news.Length && nnews <= MAX_NEWS
    }

    ghost function Items(): seq<NewsItem>
      requires 0 <= nnews <= news.Length
      reads this, news
    {
      news[..nnews]
    }

    // srealloc
    method Resize(size: nat)
      requires 0 <= nnews <= size && nnews <= news.Length
      modifies this`news, this`newsSize
      ensures fresh(news) && newsSize == news.Length == size && Items() == old(Items())
    {
      var a, was := new NewsItem[size], news;
      var i := 0;
      while i < nnews
        invariant 0 <= i <= nnews <= was.Length && a[..i] == was[..i] && was == news && nnews == old(nnews)
      {
        a[i] := was[i];
        i := i + 1;
      }
      news, newsSize := a, size;
    }

    method FindLastNum(typ: Int16) returns (num: Int32)
      requires Valid()
      ensures num == LastNum(Items(), typ)
    {
      num := 0;
      var i := nnews - 1;
      while i >= 0
        invariant -1 <= i < nnews
        invariant LastNum(Items(), typ) == LastNum(news[..i + 1], typ)
      {
        assert news[..i + 1][..i] == news[..i];
        if news[i].typ == typ {
          return news[i].num;
        }
        i := i - 1;
      }
    }

    // add_newsitem: the new number is one more than the last of the type; -1 if the list is full.
    method AddNewsitem(nick: Contents, text: Contents, typ: Int16, now: int)
      returns (r: int, ghost item: NewsItem)
      requires Valid() && 0 !in nick && 0 !in text
      modifies this, news
      ensures Valid() && (news == old(news) || fresh(news))
      ensures |old(Items())| == 32767 ==> r == -1 && Items() == old(Items())
      ensures |old(Items())| < 32767 ==> r == NextNum(old(Items()), typ) && Items() == old(Items()) + [item]
      ensures |old(Items())| < 32767 ==> IsNew(item, typ, r, nick, text, now)
      ensures newsSize == if |old(Items())| < MAX_NEWS then Grown(old(nnews), old(newsSize)) else old(newsSize)
    {
      if nnews >= MAX_NEWS {
        r, item := -1, *;
        return;
      }
      MakeRoom();
      var num: int := FindLastNum(typ);
      var next := AsInt32(AsUint32(num + 1));
      var made := MakeItem(news[nnews].who, typ, next, nick, text, now);
      Append(made);
      return next, made;
    }

    // The growth of the array: 8 items at first, then twice as many
    method MakeRoom()
      requires Valid() && nnews < MAX_NEWS
      modifies this`news, this`newsSize
      ensures Valid() && nnews < newsSize && Items() == old(Items()) && (news == old(news) || fresh(news))
      ensures newsSize == Grown(old(nnews), old(newsSize))
    {
      if nnews >= newsSize {
        Resize(if newsSize < 8 then 8 else newsSize * 2);
      }
    }

    method Append(item: NewsItem)
      requires Valid() && nnews < newsSize && nnews < MAX_NEWS
      modifies this`nnews, news
      ensures Valid() && Items() == old(Items()) + [item]
    {
      news[nnews] := item;
      nnews := nnews + 1;
    }

    // memcpy of the items after the i-th, one place down
    method CloseGap(i: nat)
      requires 0 <= i <= nnews < news.Length
      modifies news
      ensures news[..i] == old(news[..i]) && news[i..nnews] == old(news[i + 1..nnews + 1])
    {
      ghost var was := news[..];
      var k := i;
      while k < nnews
        invariant i <= k <= nnews
        invariant forall j :: 0 <= j < i || k <= j < news.Length ==> news[j] == was[j]
        invariant forall j :: i <= j < k ==> news[j] == was[j + 1]
      {
        news[k] := news[k + 1];
        k := k + 1;
      }
      assert news[i..nnews] == was[i + 1..nnews + 1];
    }

    // del_newsitem: item num of a type, or all of that type if num is 0
    method DelNewsitem(num: int, typ: Int16) returns (count: nat)
      requires Valid()
      modifies this`nnews, news
      ensures Valid() && Items() == Without(old(Items()), num, typ) && count == |old(Items())| - |Items()|
    {
      ghost var was, left, here := Items(), [], Items();
      count := 0;
      var i := 0;
      while i < nnews
        invariant 0 <= i <= nnews <= |was| <= newsSize == news.Length && count == |was| - nnews
        invariant left == news[..i] && here == news[i..nnews]
        invariant Without(was, num, typ) == left + Without(here, num, typ)
        decreases nnews - i
      {
        WithoutStep(left, here, num, typ);
        assert here[1..] == news[i + 1..nnews];
        if news[i].typ == typ && (num == 0 || news[i].num == num) {
          count := count + 1;
          nnews := nnews - 1;
          CloseGap(i);
        } else {
          assert news[..i + 1] == left + [here[0]];
          i := i + 1;
          left := news[..i];
        }
        here := here[1..];
      }
    }

    // The first i items, behind the version and the count
    ghost function SavedUpTo(i: nat): Contents
      requires 0 <= i <= nnews <= news.Length
      reads this, news
    {
      HEADER + (Int16Bytes(AsUint16(nnews)) + AllBytes(ItemBytes, news[..i]))
    }

    // One round of the loop in save_news
    method SaveItem(fs: FileSystem, f: DbFile, i: nat, ghost was: Contents, ghost so: Contents, ghost gap: nat)
      returns (ok: bool, ghost now: Contents, ghost missing: nat)
      requires 0 <= i < nnews <= news.Length
      requires Written(fs, f, so) && |so| + gap == |SavedUpTo(i)| && (gap == 0 ==> so == SavedUpTo(i))
      requires f.backupfp != null ==> Kept(fs, f, was)
      modifies fs`data, fs`trace, fs`faults, f.fp`pos, f.fp`error
      ensures Written(fs, f, now) && old(fs.trace) <= fs.trace && old(fs.faults) <= fs.faults && fs.names == old(fs.names)
      ensures ok ==> |now| + missing == |SavedUpTo(i + 1)| && (missing == 0 ==> now == SavedUpTo(i + 1))
      ensures if fs.faults == old(fs.faults) then ok && missing == gap else !ok || missing > gap
      ensures old(Kept(fs, f, was)) ==> Kept(fs, f, was)
      ensures old(Kept(fs, f, was)) && f.backupname != "" ==> HeldSince(fs.trace, |old(fs.trace)|, was)
    {
      ghost var bytes, more;
      ghost var kept := Kept(fs, f, was);
      ok, bytes, more := WriteItem(fs, f.fp, news[i]);
      now, missing := so + bytes, gap + more;
      if kept && f.backupname != "" {
        SteadyHeld(fs.names, fs.data, fs.trace, NotTo(fs.names, f.fp.inode), |old(fs.trace)|, f.backupname);
      }
      SavedMore(i);
    }

    lemma SavedMore(i: nat)
      requires 0 <= i < nnews <= news.Length
      ensures SavedUpTo(i + 1) == SavedUpTo(i) + ItemBytes(news[i])
    {
      AllBytesMore(ItemBytes, news[..i], news[i]);
      assert news[..i + 1] == news[..i] + [news[i]];
      var count := Int16Bytes(AsUint16(nnews));
      Assoc(count, AllBytes(ItemBytes, news[..i]), ItemBytes(news[i]));
      Assoc(HEADER, count + AllBytes(ItemBytes, news[..i]), ItemBytes(news[i]));
    }

    // The file that the whole list makes. Only an assertion of Look unfolds this.
    ghost predicate Whole(full: Contents)
      requires Valid()
      reads this, news
    {
      forall x: int {:trigger Look(x)} :: Look(x) ==> full == NewsBytes(Items())
    }

    lemma WholeSaved(full: Contents)
      requires Valid() && Whole(full)
      ensures full == SavedUpTo(nnews)
    {
      assert Look(0) && news[..nnews] == Items();
    }

    method WriteAll(fs: FileSystem, f: DbFile, ghost was: Contents, ghost full: Contents)
      returns (ok: bool, ghost now: Contents, ghost missing: nat)
      requires Valid() && Written(fs, f, HEADER) && Whole(full)
      requires f.backupfp != null ==> Kept(fs, f, was)
      modifies fs`data, fs`trace, fs`faults, f.fp`pos, f.fp`error
      ensures Written(fs, f, now) && old(fs.trace) <= fs.trace && old(fs.faults) <= fs.faults && fs.names == old(fs.names)
      ensures ok ==> |now| + missing == |full| && (missing == 0 ==> now == full)
      ensures if fs.faults == old(fs.faults) then ok && missing == 0 else !ok || missing > 0
      ensures old(Kept(fs, f, was)) ==> Kept(fs, f, was)
      ensures old(Kept(fs, f, was)) && f.backupname != "" ==> HeldSince(fs.trace, |old(fs.trace)|, was)
    {
      WholeSaved(full);
      ghost var kept := Kept(fs, f, was);
      ok, now := WriteCount(fs, f, was);
      missing := 0;
      var i := 0;
      while ok && i < nnews
        invariant 0 <= i <= nnews
        invariant Written(fs, f, now) && old(fs.trace) <= fs.trace && old(fs.faults) <= fs.faults && fs.names == old(fs.names)
        invariant ok ==> |now| + missing == |SavedUpTo(i)| && (missing == 0 ==> now == SavedUpTo(i))
        invariant if fs.faults == old(fs.faults) then ok && missing == 0 else !ok || missing > 0
        invariant kept ==> Kept(fs, f, was)
        invariant kept && f.backupname != "" ==> HeldSince(fs.trace, |old(fs.trace)|, was)
        invariant f.backupfp != null ==> kept
      {
        ghost var trace := fs.trace;
        ok, now, missing := SaveItem(fs, f, i, was, now, missing);
        if kept && f.backupname != "" {
          HeldJoin(trace, fs.trace, |old(fs.trace)|, was);
        }
        i := i + 1;
      }
    }

    // The count, behind the version
    method WriteCount(fs: FileSystem, f: DbFile, ghost was: Contents) returns (ok: bool, ghost now: Contents)
      requires Valid() && Written(fs, f, HEADER)
      requires f.backupfp != null ==> Kept(fs, f, was)
      modifies fs`data, fs`trace, fs`faults, f.fp`pos, f.fp`error
      ensures Written(fs, f, now) && old(fs.trace) <= fs.trace && old(fs.faults) <= fs.faults && fs.names == old(fs.names)
      ensures ok ==> now == SavedUpTo(0)
      ensures ok <==> fs.faults == old(fs.faults)
      ensures old(Kept(fs, f, was)) ==> Kept(fs, f, was)
      ensures old(Kept(fs, f, was)) && f.backupname != "" ==> HeldSince(fs.trace, |old(fs.trace)|, was)
    {
      ghost var kept, n := Kept(fs, f, was), 0;
      ok, n := WriteInt16(fs, f.fp, AsUint16(nnews));
      ghost var count := Int16Bytes(AsUint16(nnews));
      now := HEADER + count[..n];
      if kept && f.backupname != "" {
        SteadyHeld(fs.names, fs.data, fs.trace, NotTo(fs.names, f.fp.inode), |old(fs.trace)|, f.backupname);
      }
      assert count + AllBytes(ItemBytes, news[..0]) == count;
    }

    // save_news once the file is open. missing says how many bytes a committed file lacks all the same,
    // and atClose how many calls have failed before close_db, or before restore_db removes the backup.
    method SaveTo(fs: FileSystem, f: DbFile, ghost was: Contents, ghost full: Contents)
      returns (committed: bool, ghost missing: nat, ghost atClose: nat)
      requires Valid() && f.writing && Written(fs, f, HEADER) && Whole(full)
      requires f.backupname != "" ==> f.backupname != f.filename
      requires f.backupfp != null ==> Kept(fs, f, was)
      modifies fs, f.fp`pos, f.fp`error, BackupFile(f)`pos, BackupFile(f)`error
      ensures fs.Valid() && old(fs.trace) <= fs.trace && old(fs.faults) <= fs.faults
      ensures fs.faults == old(fs.faults) ==> committed && missing == 0
      ensures committed ==> f.filename in fs.names && |Under(fs, f.filename)| + missing == |full|
      ensures committed && missing == 0 ==> Under(fs, f.filename) == full
      // A committed file is the whole list exactly if no call has failed since the opening,
      ensures committed ==> (Under(fs, f.filename) == full <==> atClose == old(fs.faults))
      ensures old(fs.faults) <= atClose <= fs.faults <= atClose + (if committed then Spare(f) else 1)
      ensures committed || atClose > old(fs.faults)
      // other than the removal of the backup, whose failure can be seen.
      ensures committed && old(Kept(fs, f, was)) && f.backupname != "" ==>
                fs.faults == atClose + (if f.backupname in fs.names then 1 else 0)
      ensures old(Kept(fs, f, was)) && !committed && atClose <= old(fs.faults) + 1 ==> Restored(fs, f.filename, was)
      ensures old(Kept(fs, f, was)) && !committed && f.backupfp != null && atClose <= old(fs.faults) + 1 + Spare(f) ==>
                Restored(fs, f.filename, was)
      ensures old(Kept(fs, f, was)) && f.backupname != "" && committed && missing == 0 ==>
                EitherSince(fs.trace, |old(fs.trace)|, was, full)
      ensures old(Kept(fs, f, was)) && f.backupname != "" && !committed ==>
                |fs.trace| > |old(fs.trace)| && HeldSince(fs.trace[..|fs.trace| - 1], |old(fs.trace)|, was)
    {
      ghost var now;
      committed, now, missing := WriteAll(fs, f, was, full);
      atClose := fs.faults;
      if committed {
        Commit(fs, f, was, now, |old(fs.trace)|);
      } else {
        atClose := Undo(fs, f, was, |old(fs.trace)|);
      }
    }

    // save_news, given what the file holds before and should hold after
    method OpenAndSave(fs: FileSystem, name: string, noBackupOkay: bool, ghost was: Contents, ghost full: Contents)
      returns (committed: bool, ghost begun: bool, ghost missing: nat, ghost atOpen: nat, ghost atClose: nat)
      requires Valid() && fs.Valid() && Whole(full)
      requires Path(name) in fs.names ==> was == Under(fs, Path(name))
      modifies fs
      ensures fs.Valid() && old(fs.trace) <= fs.trace && old(fs.faults) <= fs.faults
      ensures fs.faults == old(fs.faults) && |name| < PATH_MAX - 1 ==> committed && missing == 0
      ensures committed ==> Path(name) in fs.names && |Under(fs, Path(name))| + missing == |full|
      ensures committed && missing == 0 ==> Under(fs, Path(name)) == full
      ensures committed ==> (Under(fs, Path(name)) == full <==> atClose == atOpen)
      ensures old(fs.faults) <= atOpen <= atClose <= fs.faults <= atClose + 1
      ensures !committed && Path(name) in old(fs.names) && atClose <= old(fs.faults) + (if begun then 2 else 1) ==>
                Restored(fs, Path(name), was)
      ensures committed && missing == 0 && Path(name) in old(fs.names) && !noBackupOkay ==>
                EitherSince(fs.trace, |old(fs.trace)|, was, full)
      ensures !committed && begun && Path(name) in old(fs.names) && !noBackupOkay ==>
                |fs.trace| > 0 && HeldSince(fs.trace[..|fs.trace| - 1], |old(fs.trace)|, was)
    {
      var f := OpenDbWrite(fs, name, noBackupOkay);
      if f == null {
        return false, false, 0, fs.faults, fs.faults;
      }
      begun := true;
      ghost var trace := fs.trace;
      atOpen := fs.faults;
      committed, missing, atClose := SaveTo(fs, f, was, full);
      if Path(name) in old(fs.names) && !noBackupOkay {
        Since(trace, fs.trace, |old(fs.trace)|, was, full, committed && missing == 0, !committed);
      }
    }

    // save_news
    method SaveNews(fs: FileSystem, name: string, noBackupOkay: bool)
      returns (committed: bool, ghost begun: bool, ghost missing: nat, ghost atOpen: nat, ghost atClose: nat)
      requires Valid() && fs.Valid()
      modifies fs
      ensures fs.Valid() && old(fs.trace) <= fs.trace && old(fs.faults) <= fs.faults
      ensures fs.faults == old(fs.faults) && |name| < PATH_MAX - 1 ==> committed && missing == 0
      // A committed file is the whole list exactly if no call failed between the opening and the closing.
      ensures committed ==> Path(name) in fs.names && |Under(fs, Path(name))| + missing == |NewsBytes(Items())|
      ensures committed ==> (Under(fs, Path(name)) == NewsBytes(Items()) <==> atClose == atOpen)
      ensures old(fs.faults) <= atOpen <= atClose <= fs.faults <= atClose + 1
      ensures committed && missing == 0 ==> Under(fs, Path(name)) == NewsBytes(Items())
      // Otherwise the old file is back; past the opening one more call may have failed than the one that led here,
      // and the last one whatever it does.
      ensures !committed && Path(name) in old(fs.names) && atClose <= old(fs.faults) + (if begun then 2 else 1) ==>
                Restored(fs, Path(name), old(Under(fs, Path(name))))
      // With a backup there is no moment at which neither the old nor the new list has a name,
      ensures committed && missing == 0 && Path(name) in old(fs.names) && !noBackupOkay ==>
                EitherSince(fs.trace, |old(fs.trace)|, old(Under(fs, Path(name))), NewsBytes(Items()))
      // unless the very last call of restore_db removes the only good copy.
      ensures !committed && begun && Path(name) in old(fs.names) && !noBackupOkay ==>
                |fs.trace| > 0 && HeldSince(fs.trace[..|fs.trace| - 1], |old(fs.trace)|, old(Under(fs, Path(name))))
    {
      ghost var was := if Path(name) in fs.names then Under(fs, Path(name)) else [];
      committed, begun, missing, atOpen, atClose := OpenAndSave(fs, name, noBackupOkay, was, NewsBytes(Items()));
    }

    // One round of the loop in load_news, with n items due; done and todo are the items there are.
    method LoadItem(fs: FileSystem, fp: File, i: nat, forceload: bool, ghost n: nat, ghost done: seq<NewsItem>, ghost todo: seq<NewsItem>)
      returns (got: bool, ghost m: nat, ghost rest: seq<NewsItem>, ghost cut: nat, ghost nick: NickRead)
      requires i < news.Length && n > 0 && Readable(fs, fp)
      modifies news, fs`faults, fp`pos, fp`error
      ensures Readable(fs, fp) && old(fs.faults) + cut <= fs.faults && news[..i] == old(news[..i])
      ensures m == (if got then n - 1 else 0) && |rest| <= m && (got ==> fs.faults == old(fs.faults) + cut)
      ensures old(news[..i]) == done && old(ToCome(fs, fp, n, todo)) && (if got then cut == 0 else fs.faults == old(fs.faults)) ==>
                news[..if got then i + 1 else i] + rest == done + todo && ToCome(fs, fp, m, rest)
      ensures got ==> ReadCut(old(Left(fs, fp)), nick, news[i], Left(fs, fp)) && cut == Missed(nick.n)
    {
      var item;
      ghost var k;
      nick := NickRead(news[i].who, 0);
      got, item, m, rest, cut, k := ReadNext(fs, fp, news[i], forceload, n, todo);
      nick := NickRead(nick.was, k);
      news[i] := item;
      ghost var now := news[..i];
      assert now == old(news[..i]) && news[..i + 1] == now + [item];
      assert (now + [item]) + rest == now + ([item] + rest);
    }

    // The loop of load_news: the list ends before the first item that is not there. Calls that fail
    // go unnoticed only where a nick is read; cut is the number of these.
    method LoadItems(fs: FileSystem, fp: File, forceload: bool, ghost all: seq<NewsItem>)
      returns (ok: bool, ghost cut: nat, ghost nicks: seq<NickRead>, ghost left: Contents)
      requires Valid() && Readable(fs, fp) && ToCome(fs, fp, nnews, all) && |all| <= nnews
      modifies this`nnews, news, fs`faults, fp`pos, fp`error
      ensures Readable(fs, fp) && old(fs.faults) + cut <= fs.faults && 0 <= nnews <= old(nnews)
      ensures !ok ==> !forceload
      ensures ok && cut == 0 ==> Items() <= all
      ensures ok && !forceload ==> nnews == old(nnews) && fs.faults == old(fs.faults) + cut && cut == Short(nicks)
      ensures fs.faults == old(fs.faults) && ok ==> Items() == all
      ensures fs.faults == old(fs.faults) && !forceload ==> (ok <==> |all| == old(nnews))
      ensures ok ==> |nicks| == nnews && ReadSoFar(old(Left(fs, fp)), nicks, Items(), left)
    {
      ghost var due, todo := nnews, all;
      ghost var n: nat, k: nat := nnews, 0;
      cut, nicks, left := 0, [], Left(fs, fp);
      var i := 0;
      while i < nnews
        invariant Readable(fs, fp) && old(fs.faults) + cut <= fs.faults && 0 <= nnews <= due <= news.Length
        invariant if i <= nnews then k == i && n == due - i && nnews == due else i == nnews + 1 && k == nnews && n == 0 && forceload
        invariant i <= nnews ==> fs.faults == old(fs.faults) + cut && cut == Short(nicks) && left == Left(fs, fp)
        invariant cut == 0 && (i <= nnews || fs.faults == old(fs.faults)) ==> news[..k] + todo == all && ToCome(fs, fp, n, todo)
        invariant cut == 0 ==> news[..k] <= all
        invariant |nicks| == k && ReadSoFar(old(Left(fs, fp)), nicks, news[..k], left)
        invariant |todo| <= n
        decreases due - i, nnews
      {
        ghost var done, before := news[..i], left;
        var got;
        ghost var short, nick;
        got, n, todo, short, nick := LoadItem(fs, fp, i, forceload, n, done, todo);
        cut := cut + short;
        if got {
          left := Left(fs, fp);
          assert news[..i + 1] == done + [news[i]];
          ReadOneMore(old(Left(fs, fp)), nicks, done, before, nick, news[i], left);
          nicks := nicks + [nick];
          k := i + 1;
        } else {
          if !forceload {
            return false, cut, nicks, left;
          }
          nnews := i;
        }
        i := i + 1;
      }
      ok := true;
    }

    // What loading the bytes behind the version means when no call fails
    ghost predicate LoadedFrom(c: Contents, forceload: bool, r: LoadResult)
      reads this, news
    {
      match GetInt16(c)
      case None => if forceload then r == Loaded && nnews <= 0 else r == Fatal
      case Some(Parsed(count, rest)) =>
        var n := AsInt16(count);
        if n < 0 then r == Loaded && nnews == n
        else if forceload || |GetAll(GetItem, rest, n)| == n then
          r == Loaded && Valid() && Items() == GetAll(GetItem, rest, n) && newsSize == Capacity(n)
        else r == Fatal
    }

    // What a forced load leaves when calls have failed behind the count: the first items of the file
    ghost predicate LoadedSome(c: Contents)
      reads this, news
    {
      match GetInt16(c)
      case None => false
      case Some(Parsed(count, rest)) =>
        var n := AsInt16(count);
        if n < 0 then nnews == n else Valid() && Items() <= GetAll(GetItem, rest, n) && newsSize == Capacity(n)
    }

    // What any load leaves once the count is read: items of whose nicks so much each was read
    ghost predicate LoadedCut(c: Contents, forceload: bool, nicks: seq<NickRead>)
      reads this, news
    {
      match GetInt16(c)
      case None => false
      case Some(Parsed(count, rest)) =>
        var n := AsInt16(count);
        if n < 0 then nnews == n && nicks == []
        else
          && Valid() && newsSize == Capacity(n) && |nicks| == nnews && (if forceload then nnews <= n else nnews == n)
          && match GetEach(GetItemCut, rest, nicks)
             case None => false
             case Some(p) => p.value == Items()
    }

    // The count, and the array for it. An error that is not fatal leaves the count to chance.
    method StartList(fs: FileSystem, fp: File, forceload: bool) returns (go: bool, ghost counted: bool)
      requires Readable(fs, fp)
      modifies this, fs`faults, fp`pos, fp`error
      ensures Readable(fs, fp) && old(fs.faults) <= fs.faults
      ensures go ==> fresh(news) && -0x8000 <= nnews < 0x8000 && newsSize == news.Length == Capacity(nnews)
      ensures go == (counted || forceload)
      ensures counted ==> fs.faults == old(fs.faults) && GetInt16(old(Left(fs, fp))) != None
      ensures counted ==> var p := GetInt16(old(Left(fs, fp))).value; nnews == AsInt16(p.value) && Left(fs, fp) == p.rest
      ensures fs.faults == old(fs.faults) && !counted ==> GetInt16(old(Left(fs, fp))) == None && Left(fs, fp) == []
    {
      var ok, n := ReadInt16(fs, fp);
      counted := ok;
      if !ok {
        if !forceload {
          return false, false;
        }
        n := *;
      }
      nnews := AsInt16(n);
      newsSize := Capacity(nnews);
      news := new NewsItem[newsSize];
      go := true;
    }

    method LoadList(fs: FileSystem, fp: File, forceload: bool)
      returns (r: LoadResult, ghost counted: bool, ghost cut: nat, ghost nicks: seq<NickRead>)
      requires Readable(fs, fp)
      modifies this, fs`faults, fp`pos, fp`error
      ensures Readable(fs, fp) && old(fs.faults) + cut <= fs.faults && r != NoFile && (r == Fatal ==> !forceload)
      ensures fs.faults == old(fs.faults) ==> LoadedFrom(old(Left(fs, fp)), forceload, r)
      ensures r == Loaded && !forceload ==>
                fs.faults == old(fs.faults) + cut && (cut == 0 ==> LoadedFrom(old(Left(fs, fp)), forceload, r)) &&
                counted && cut == Short(nicks)
      ensures r == Loaded && counted ==> LoadedCut(old(Left(fs, fp)), forceload, nicks)
      ensures r == Loaded && counted && cut == 0 ==> LoadedSome(old(Left(fs, fp)))
      ensures fs.faults == old(fs.faults) && GetInt16(old(Left(fs, fp))) != None ==> counted
    {
      var go;
      cut, nicks := 0, [];
      go, counted := StartList(fs, fp, forceload);
      if !go {
        return Fatal, counted, 0, nicks;
      }
      if nnews > 0 {
        assert Look(0);
        var ok;
        ghost var left;
        ok, cut, nicks, left := LoadItems(fs, fp, forceload, GetAll(GetItem, Left(fs, fp), nnews));
        if !ok {
          return Fatal, counted, cut, nicks;
        }
      }
      r := Loaded;
    }

    // load_news: versions 7 and 8 are read. If loading is not forced, a failing call is fatal unless
    // it is one of the cut that read a nick, or closes the file; nicks says how much of each was read.
    method LoadNews(fs: FileSystem, name: string, forceload: bool)
      returns (r: LoadResult, ghost counted: bool, ghost cut: nat, ghost nicks: seq<NickRead>, ghost atClose: nat)
      requires fs.Valid()
      modifies this, fs
      ensures fs.Valid() && fs.names == old(fs.names) && fs.data == old(fs.data) && old(fs.faults) + cut <= atClose <= fs.faults
      ensures r == NoFile ==> nnews == old(nnews) && news == old(news) && newsSize == old(newsSize)
      ensures r == Loaded ==> Path(name) in fs.names && VersionOf(Under(fs, Path(name))) in {7, 8}
      ensures r == Loaded && !forceload ==> counted && atClose == old(fs.faults) + cut && cut == Short(nicks)
      ensures r == Loaded && counted ==> LoadedCut(Under(fs, Path(name))[4..], forceload, nicks)
      ensures r == Loaded && !forceload && cut == 0 ==> LoadedFrom(Under(fs, Path(name))[4..], forceload, r)
      ensures r == Loaded && counted && cut == 0 ==> LoadedSome(Under(fs, Path(name))[4..])
      ensures atClose == old(fs.faults) && r == Loaded && GetInt16(Under(fs, Path(name))[4..]) != None ==> counted
      ensures atClose == old(fs.faults) ==> (r == NoFile <==> Path(name) !in fs.names)
      ensures atClose == old(fs.faults) && r != NoFile && VersionOf(Under(fs, Path(name))) !in {7, 8} ==> r == Fatal
      ensures atClose == old(fs.faults) && r != NoFile && VersionOf(Under(fs, Path(name))) in {7, 8} ==>
                LoadedFrom(Under(fs, Path(name))[4..], forceload, r)
    {
      counted, cut, nicks := false, 0, [];
      var f := OpenDbRead(fs, name);
      if f == null {
        return NoFile, false, 0, [], fs.faults;
      }
      var version := GetFileVersion(fs, f.fp);
      if version != 7 && version != 8 {
        return Fatal, false, 0, [], fs.faults;
      }
      r, counted, cut, nicks := LoadList(fs, f.fp, forceload);
      atClose := fs.faults;
      if r == Loaded {
        CloseDb(fs, f);
      }
    }
  }

  // A restart: the list is saved, and a new process loads it.
  method Restart(fs: FileSystem, name: string, noBackupOkay: bool, forceload: bool, before: NewsList)
    returns (after: NewsList)
    requires fs.Valid() && before.Valid() && |name| < PATH_MAX - 1
    modifies fs
    ensures fresh(after) && old(fs.faults) <= fs.faults
    ensures fs.faults == old(fs.faults) ==>
              after.Valid() && after.Items() == Each(Filed, before.Items()) && after.newsSize == Capacity(before.nnews)
  {
    var saved, begun, missing, atOpen, atClose := before.SaveNews(fs, name, noBackupOkay);
    after := new NewsList();
    var r, counted, cut, nicks, closing := after.LoadNews(fs, name, forceload);
    NewsRoundTrip(before.Items());
  }
}
