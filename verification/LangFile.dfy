// The compiled language file that lang/langcomp.c writes and language.c reads.

module LangFile {
  import opened Bytes
  import opened CString
  import opened LangText
  import R = Records

  // ---------- the compiled file ----------

  // What is written of a string: all but its last newline
  function Kept(s: Option<Text>): Text {
    if s == None || s.value == [] then [] else s.value[..|s.value| - 1]
  }

  function AllKept(strings: seq<Option<Text>>): (texts: seq<Text>)
    ensures |texts| == |strings| && forall i :: 0 <= i < |strings| ==> texts[i] == Kept(strings[i])
  {
    seq(|strings|, i requires 0 <= i < |strings| => Kept(strings[i]))
  }

  function Total(texts: seq<Text>): nat {
    if texts == [] then 0 else |texts[0]| + Total(texts[1..])
  }

  // A way to write an int in four bytes
  ghost predicate FourBytes(put: int -> Text) {
    forall v :: |put(v)| == 4
  }

  // The position and length of each text, the first of them at pos
  ghost function Table(put: int -> Text, texts: seq<Text>, pos: nat): (t: Text)
    requires FourBytes(put)
    ensures |t| == 8 * |texts|
  {
    if texts == [] then []
    else put(pos) + put(|texts[0]|) + Table(put, texts[1..], pos + |texts[0]|)
  }

  function Together(texts: seq<Text>): (t: Text)
    ensures |t| == Total(texts)
  {
    if texts == [] then [] else texts[0] + Together(texts[1..])
  }

  // The steps of the loops that write them
  lemma TableStep(put: int -> Text, texts: seq<Text>, i: nat, pos: nat, done: Text)
    requires FourBytes(put) && i < |texts|
    ensures done + Table(put, texts[i..], pos) ==
            (done + (put(pos) + put(|texts[i]|))) + Table(put, texts[i + 1..], pos + |texts[i]|)
  {
    var here, after := texts[i..], texts[i + 1..];
    assert here[0] == texts[i] && here[1..] == after;
    var entry, more := put(pos) + put(|texts[i]|), Table(put, after, pos + |texts[i]|);
    assert Table(put, here, pos) == entry + more;
    Assoc(done, entry, more);
  }

  lemma TogetherStep(texts: seq<Text>, i: nat, done: Text)
    requires i < |texts|
    ensures done + Together(texts[i..]) == (done + texts[i]) + Together(texts[i + 1..])
  {
    assert texts[i..][1..] == texts[i + 1..];
    Assoc(done, texts[i], Together(texts[i + 1..]));
  }

  // fput32: an int, most significant byte first
  function Put32(val: int): (t: Text)
    ensures |t| == 4
  {
    R.Int32Bytes(R.AsUint32(val))
  }

  ghost function FileOf(put: int -> Text, texts: seq<Text>): Text
    requires FourBytes(put)
  {
    put(|texts|) + (Table(put, texts, 8 * |texts| + 4) + Together(texts))
  }

  ghost function Compiled(texts: seq<Text>): Text {
    FileOf(Put32, texts)
  }

  // The length of the texts before the i-th
  function Before(texts: seq<Text>, i: nat): nat
    requires i <= |texts|
  {
    if i == 0 then 0 else |texts[0]| + Before(texts[1..], i - 1)
  }

  // Where a text begins
  function Position(texts: seq<Text>, i: nat): nat
    requires i <= |texts|
  {
    8 * |texts| + 4 + Before(texts, i)
  }

  // ---------- every text is where the table says ----------

  lemma {:induction false} TableEntry(put: int -> Text, texts: seq<Text>, pos: nat, i: nat)
    requires FourBytes(put) && i < |texts|
    ensures Table(put, texts, pos)[8 * i..8 * i + 8] == put(pos + Before(texts, i)) + put(|texts[i]|)
  {
    var head := put(pos) + put(|texts[0]|);
    var tail := Table(put, texts[1..], pos + |texts[0]|);
    assert Table(put, texts, pos) == head + tail;
    if i == 0 {
      assert (head + tail)[..8] == head;
    } else {
      TableEntry(put, texts[1..], pos + |texts[0]|, i - 1);
      Shift(head, tail, 8 * (i - 1), 8 * i);
    }
  }

  lemma {:induction false} BeforeNext(texts: seq<Text>, i: nat)
    requires i < |texts|
    ensures Before(texts, i) + |texts[i]| == Before(texts, i + 1) <= Total(texts)
  {
    if i > 0 {
      BeforeNext(texts[1..], i - 1);
    }
  }

  lemma Shift(head: Text, tail: Text, a: nat, b: nat)
    requires a <= b <= |tail|
    ensures (head + tail)[|head| + a..|head| + b] == tail[a..b]
  {
  }

  lemma {:induction false} TextAt(texts: seq<Text>, i: nat)
    requires i < |texts| && Before(texts, i) + |texts[i]| <= Total(texts)
    ensures Together(texts)[Before(texts, i)..Before(texts, i) + |texts[i]|] == texts[i]
  {
    var head, tail := texts[0], Together(texts[1..]);
    if i == 0 {
      assert (head + tail)[..|head|] == head;
    } else {
      var a := Before(texts[1..], i - 1);
      TextAt(texts[1..], i - 1);
      Shift(head, tail, a, a + |texts[i]|);
    }
  }

  // All positions fit an int.
  predicate Fits32(texts: seq<Text>) {
    8 * |texts| + 4 + Total(texts) < 0x8000_0000
  }

  // An int that can be read at a place
  predicate IntAt(file: Text, k: nat, v: int) {
    k + 4 <= |file| &&
    match R.GetInt32(file[k..])
    case None => false
    case Some(p) => R.AsInt32(p.value) == v && p.rest == file[k + 4..]
  }

  lemma Read32(file: Text, k: nat, v: int)
    requires k + 4 <= |file| && file[k..k + 4] == Put32(v) && 0 <= v < 0x8000_0000
    ensures IntAt(file, k, v)
  {
    R.ReadBackInt32(R.AsUint32(v), file[k + 4..]);
    assert file[k..] == Put32(v) + file[k + 4..];
    R.Signed(0, v);
  }

  lemma LocatedIn(put: int -> Text, texts: seq<Text>, i: nat)
    requires FourBytes(put) && i < |texts|
    ensures var file, at, len := FileOf(put, texts), Position(texts, i), |texts[i]|;
            && at + len == Position(texts, i + 1) <= |file| && 8 * i + 12 <= |file|
            && file[8 * i + 4..8 * i + 12] == put(at) + put(len) && file[at..at + len] == texts[i]
  {
    var n, len, a := |texts|, |texts[i]|, Before(texts, i);
    var count, table, all := put(n), Table(put, texts, 8 * n + 4), Together(texts);
    BeforeNext(texts, i);
    TableEntry(put, texts, 8 * n + 4, i);
    TextAt(texts, i);
    Glue(count, table, all, 8 * i, a, a + len);
  }

  lemma Glue(count: Text, table: Text, texts: Text, k: nat, a: nat, b: nat)
    requires |count| == 4 && k + 8 <= |table| && a <= b <= |texts|
    ensures var file := count + (table + texts);
            && |file| == 4 + |table| + |texts| && file[k + 4..k + 12] == table[k..k + 8]
            && file[4 + |table| + a..4 + |table| + b] == texts[a..b]
  {
    InMiddle(count, table, texts, k, k + 8);
    InLast(count, table, texts, a, b);
  }

  // Entry i of the table leads to text i.
  lemma Located(texts: seq<Text>, i: nat)
    requires Fits32(texts) && i < |texts|
    ensures var file, at := Compiled(texts), Position(texts, i);
            && IntAt(file, 8 * i + 4, at) && IntAt(file, 8 * i + 8, |texts[i]|)
            && at + |texts[i]| == Position(texts, i + 1) <= |file|
            && file[at..at + |texts[i]|] == texts[i]
  {
    LocatedIn(Put32, texts, i);
    BeforeNext(texts, i);
    EntryAt(Compiled(texts), 8 * i + 4, Position(texts, i), |texts[i]|);
  }

  lemma EntryAt(file: Text, k: nat, at: int, len: int)
    requires k + 8 <= |file| && file[k..k + 8] == Put32(at) + Put32(len)
    requires 0 <= at < 0x8000_0000 && 0 <= len < 0x8000_0000
    ensures IntAt(file, k, at) && IntAt(file, k + 4, len)
  {
    assert file[k..k + 4] == file[k..k + 8][..4] && file[k + 4..k + 8] == file[k..k + 8][4..];
    Read32(file, k, at);
    Read32(file, k + 4, len);
  }

  lemma InMiddle(a: Text, b: Text, c: Text, start: nat, end: nat)
    requires start <= end <= |b|
    ensures (a + (b + c))[|a| + start..|a| + end] == b[start..end]
  {
  }

  lemma InLast(a: Text, b: Text, c: Text, start: nat, end: nat)
    requires start <= end <= |c|
    ensures (a + (b + c))[|a| + |b| + start..|a| + |b| + end] == c[start..end]
  {
  }

  // The texts lie side by side from the end of the table to the end of the file.
  lemma Tiled(texts: seq<Text>)
    ensures Position(texts, 0) == 8 * |texts| + 4 && Position(texts, |texts|) == |Compiled(texts)|
  {
    BeforeAll(texts);
  }

  lemma {:induction false} BeforeAll(texts: seq<Text>)
    ensures Before(texts, |texts|) == Total(texts)
  {
    if texts != [] {
      BeforeAll(texts[1..]);
    }
  }

  lemma CountFirst(texts: seq<Text>)
    requires Fits32(texts)
    ensures IntAt(Compiled(texts), 0, |texts|)
  {
    assert Compiled(texts)[0..4] == Put32(|texts|);
    Read32(Compiled(texts), 0, |texts|);
  }
}
