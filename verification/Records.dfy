// datafiles.c: version numbers, integers and strings in a database file, most significant byte first.

module Records {
  import opened Bytes
  import opened CString
  import opened Files
  import opened DataFiles

  type Uint16 = x: int | 0 <= x < 0x1_0000
  type Uint32 = x: int | 0 <= x < 0x1_0000_0000
  type Int16 = x: int | -0x8000 <= x < 0x8000
  type Int32 = x: int | -0x8000_0000 <= x < 0x8000_0000

  const MAX_TEXT := 65534

  function AsUint16(x: int): Uint16 { x % 0x1_0000 }
  function AsUint32(x: int): Uint32 { x % 0x1_0000_0000 }
  function AsInt16(x: Uint16): Int16 { if x < 0x8000 then x else x - 0x1_0000 }
  function AsInt32(x: Uint32): Int32 { if x < 0x8000_0000 then x else x - 0x1_0000_0000 }

  lemma Signed(x: Int16, y: Int32)
    ensures AsInt16(AsUint16(x)) == x && AsInt32(AsUint32(y)) == y
  {
  }

  // The characters of a C string, without its terminator
  function Text(s: Contents): (t: Contents)
    ensures t <= s && 0 !in t
    ensures t == s || s[|t|] == 0
  {
    if s == [] || s[0] == 0 then [] else [s[0]] + Text(s[1..])
  }

  lemma {:induction false} TextTerminated(t: Contents, more: Contents)
    requires 0 !in t
    ensures Text(t + [0] + more) == t
  {
    if t == [] {
      assert (t + [0] + more)[0] == 0;
    } else {
      TextTerminated(t[1..], more);
      assert (t + [0] + more)[0] == t[0] && (t + [0] + more)[1..] == t[1..] + [0] + more;
      assert t[0] in t;
    }
  }

  // ---------- what is written ----------

  function Int16Bytes(v: Uint16): Contents {
    [v / 256, v % 256]
  }

  function Int32Bytes(v: Uint32): Contents {
    [v / 0x1000000, v / 0x10000 % 256, v / 256 % 256, v % 256]
  }

  // The number that bytes stand for, most significant first
  function BigEndian(bs: Contents): nat {
    if bs == [] then 0 else 256 * BigEndian(bs[..|bs| - 1]) + bs[|bs| - 1]
  }

  lemma BigEndianFour(b0: byte, b1: byte, b2: byte, b3: byte)
    ensures BigEndian([b0]) == b0
    ensures BigEndian([b0, b1]) == 256 * b0 + b1
    ensures BigEndian([b0, b1, b2, b3]) == 256 * (256 * (256 * b0 + b1) + b2) + b3
  {
    assert [b0][..0] == [] && [b0, b1][..1] == [b0] && [b0, b1, b2][..2] == [b0, b1];
    assert [b0, b1, b2, b3][..3] == [b0, b1, b2];
    assert BigEndian([b0, b1, b2]) == 256 * BigEndian([b0, b1]) + b2;
  }

  // Numbers are written most significant byte first,
  lemma WrittenBigEndian(v: Uint16, w: Uint32)
    ensures |Int16Bytes(v)| == 2 && BigEndian(Int16Bytes(v)) == v
    ensures |Int32Bytes(w)| == 4 && BigEndian(Int32Bytes(w)) == w
  {
    var b := Int32Bytes(w);
    BigEndianFour(v / 256, v % 256, 0, 0);
    BigEndianFour(b[0], b[1], b[2], b[3]);
    var q := w / 256;
    var r := q / 256;
    assert w == 256 * q + w % 256 && q == 256 * r + q % 256 && r == 256 * (r / 256) + r % 256;
    assert w / 0x10000 == r && w / 0x1000000 == r / 256;
  }

  // As much of a text as a record takes
  function Clipped(t: Contents): Contents {
    if |t| > MAX_TEXT then t[..MAX_TEXT] else t
  }

  // A string pointer that may be NULL; strings are kept with their terminator.
  type Str = Option<Contents>

  function StringBytes(s: Str): Contents {
    match s
    case None => Int16Bytes(0)
    case Some(b) => var t := Clipped(Text(b)); Int16Bytes(|t| + 1) + t + [0]
  }

  method WriteInt16(fs: FileSystem, fp: File, v: Uint16) returns (ok: bool, ghost n: nat)
    requires AtEnd(fs, fp)
    modifies fs`data, fs`trace, fs`faults, fp`pos, fp`error
    ensures n <= 2 && Grew(fs, fp, Int16Bytes(v)[..n]) && ok == (n == 2)
    ensures fs.faults == old(fs.faults) + if ok then 0 else 1
  {
    ok, n := PutAll(fs, fp, Int16Bytes(v));
  }

  method WriteInt32(fs: FileSystem, fp: File, v: Uint32) returns (ok: bool, ghost n: nat)
    requires AtEnd(fs, fp)
    modifies fs`data, fs`trace, fs`faults, fp`pos, fp`error
    ensures n <= 4 && Grew(fs, fp, Int32Bytes(v)[..n]) && ok == (n == 4)
    ensures fs.faults == old(fs.faults) + if ok then 0 else 1
  {
    ok, n := PutAll(fs, fp, Int32Bytes(v));
  }

  // The text and its terminator
  method WriteText(fs: FileSystem, fp: File, t: Contents) returns (ok: bool, ghost n: nat)
    requires AtEnd(fs, fp)
    modifies fs`data, fs`trace, fs`faults, fp`pos, fp`error
    ensures n <= |t| + 1 && Grew(fs, fp, (t + [0])[..n]) && ok == (n == |t| + 1)
    ensures fs.faults == old(fs.faults) + if ok then 0 else 1
  {
    n := 0;
    GrowNone(fs.data, fp.inode);
    if |t| > 0 {
      var k := PutSome(fs, fp, t);
      n := k;
      assert t[..k] == (t + [0])[..k];
      if k != |t| {
        return false, n;
      }
    }
    ghost var data := fs.data;
    var c := Put(fs, fp, 0);
    GrowNone(data, fp.inode);
    GrowTwice(old(fs.data), fp.inode, t, [0]);
    assert t == (t + [0])[..|t|];
    if c == EOF {
      return false, n;
    }
    assert (t + [0])[..n + 1] == t + [0];
    return true, n + 1;
  }

  // write_string
  method WriteString(fs: FileSystem, fp: File, s: Str) returns (ok: bool, ghost n: nat)
    requires AtEnd(fs, fp)
    modifies fs`data, fs`trace, fs`faults, fp`pos, fp`error
    ensures n <= |StringBytes(s)| && Grew(fs, fp, StringBytes(s)[..n]) && ok == (n == |StringBytes(s)|)
    ensures fs.faults == old(fs.faults) + if ok then 0 else 1
  {
    if s == None {
      ok, n := WriteInt16(fs, fp, 0);
      return;
    }
    var t := Clipped(Text(s.value));
    ghost var len, body := Int16Bytes(|t| + 1), t + [0];
    assert StringBytes(s) == len + body;
    ok, n := WriteInt16(fs, fp, |t| + 1);
    assert len[..n] == (len + body)[..n];
    if !ok {
      return;
    }
    assert len[..n] == len;
    ghost var k;
    ok, k := WriteText(fs, fp, t);
    GrowTwice(old(fs.data), fp.inode, len, body[..k]);
    n := 2 + k;
    assert (len + body)[..n] == len + body[..k];
  }

  // ---------- what is read ----------

  datatype Parsed<T> = Parsed(value: T, rest: Contents)

  function Join16(b0: byte, b1: byte): Uint16 {
    256 * b0 as int + b1 as int
  }

  function Join32(b0: byte, b1: byte, b2: byte, b3: byte): Uint32 {
    0x1000000 * b0 as int + 0x10000 * b1 as int + 256 * b2 as int + b3 as int
  }

  function GetInt16(r: Contents): Option<Parsed<Uint16>> {
    if |r| < 2 then None else Some(Parsed(Join16(r[0], r[1]), r[2..]))
  }

  function GetInt32(r: Contents): Option<Parsed<Uint32>> {
    if |r| < 4 then None else Some(Parsed(Join32(r[0], r[1], r[2], r[3]), r[4..]))
  }

  function GetString(r: Contents): Option<Parsed<Str>> {
    match GetInt16(r)
    case None => None
    case Some(Parsed(len, more)) =>
      if len == 0 then Some(Parsed(None, more))
      else if |more| < len then None
      else Some(Parsed(Some(more[..len]), more[len..]))
  }

  // and so they are read.
  lemma ReadBigEndian(r: Contents)
    ensures match GetInt16(r) case None => |r| < 2 case Some(p) => |r| >= 2 && p == Parsed(BigEndian(r[..2]), r[2..])
    ensures match GetInt32(r) case None => |r| < 4 case Some(p) => |r| >= 4 && p == Parsed(BigEndian(r[..4]), r[4..])
  {
    if |r| >= 2 {
      BigEndianFour(r[0], r[1], 0, 0);
      assert r[..2] == [r[0], r[1]];
    }
    if |r| >= 4 {
      BigEndianFour(r[0], r[1], r[2], r[3]);
      assert r[..4] == [r[0], r[1], r[2], r[3]];
    }
  }

  // A string is its length, with the terminator, in 16 bits, then its bytes and the terminator; NULL is a length of 0.
  lemma StringShape(s: Str)
    ensures var b := StringBytes(s);
            && |b| >= 2 && BigEndian(b[..2]) == |b| - 2 && (s == None <==> |b| == 2)
            && (s != None ==> b[|b| - 1] == 0 && b[2..|b| - 1] == Clipped(Text(s.value)) && 0 !in b[2..|b| - 1])
  {
    match s
    case None => WrittenBigEndian(0, 0);
    case Some(c) =>
      var t := Clipped(Text(c));
      var head := Int16Bytes(|t| + 1);
      WrittenBigEndian(|t| + 1, 0);
      assert StringBytes(s)[..2] == head;
      assert StringBytes(s)[2..|t| + 2] == t;
      assert forall i :: 0 <= i < |t| ==> t[i] == Text(c)[i] && Text(c)[i] in Text(c);
  }

  // A text is cut where its length with the terminator would no longer fit 16 bits.
  lemma LargestText(t: Contents)
    ensures |t| + 1 < 0x1_0000 ==> Clipped(t) == t
    ensures |t| + 1 >= 0x1_0000 ==> Clipped(t) == t[..0xffff - 1] && |Clipped(t)| + 1 == 0xffff
  {
  }

  // A file version is a number from 1 to 8 in the first four bytes.
  lemma VersionMeans(r: Contents, v: nat)
    requires v != 0
    ensures VersionOf(r) == v <==> |r| >= 4 && BigEndian(r[..4]) == v && v <= 8
  {
    ReadBigEndian(r);
  }

  lemma ReadBackInt16(v: Uint16, more: Contents)
    ensures GetInt16(Int16Bytes(v) + more) == Some(Parsed(v, more))
  {
    assert (Int16Bytes(v) + more)[2..] == more;
  }

  lemma ReadBackInt32(v: Uint32, more: Contents)
    ensures GetInt32(Int32Bytes(v) + more) == Some(Parsed(v, more))
  {
    var q := v / 256;
    var r := q / 256;
    assert v == 256 * q + v % 256 && q == 256 * r + q % 256 && r == 256 * (r / 256) + r % 256;
    assert v / 0x10000 == r && v / 0x1000000 == r / 256;
    assert (Int32Bytes(v) + more)[4..] == more;
  }

  // A string comes back as it was, except that a long one has been cut.
  function Stored(s: Str): Str {
    match s
    case None => None
    case Some(b) => Some(Clipped(Text(b)) + [0])
  }

  lemma ReadBackString(s: Str, more: Contents)
    ensures GetString(StringBytes(s) + more) == Some(Parsed(Stored(s), more))
  {
    match s
    case None =>
      ReadBackInt16(0, more);
    case Some(b) =>
      var t := Clipped(Text(b));
      var body := t + [0] + more;
      ReadBackInt16(|t| + 1, body);
      assert StringBytes(s) + more == Int16Bytes(|t| + 1) + body;
      assert body[..|t| + 1] == t + [0] && body[|t| + 1..] == more;
  }

  // What is left to read
  ghost function Left(fs: FileSystem, fp: File): Contents
    requires fp.inode in fs.data && fp.pos <= |fs.data[fp.inode]|
    reads fs, fp
  {
    fs.data[fp.inode][fp.pos..]
  }

  ghost predicate Readable(fs: FileSystem, fp: File)
    reads fs, fp
  {
    fs.Valid() && fp.inode in fs.data && fp.pos <= |fs.data[fp.inode]|
  }

  // read_int16: both bytes are asked for, whether or not the first is there.
  method ReadInt16(fs: FileSystem, fp: File) returns (ok: bool, v: Uint16)
    requires Readable(fs, fp)
    modifies fs`faults, fp`pos, fp`error
    ensures Readable(fs, fp) && old(fs.faults) <= fs.faults
    ensures ok ==> GetInt16(old(Left(fs, fp))) == Some(Parsed(v, Left(fs, fp)))
    ensures ok ==> fs.faults == old(fs.faults)
    ensures fs.faults == old(fs.faults) && !ok ==> GetInt16(old(Left(fs, fp))) == None && Left(fs, fp) == []
  {
    var c1 := fs.Fgetc(fp);
    var c2 := fs.Fgetc(fp);
    if c1 == EOF || c2 == EOF {
      return false, 0;
    }
    return true, Join16(c1, c2);
  }

  method ReadInt32(fs: FileSystem, fp: File) returns (ok: bool, v: Uint32)
    requires Readable(fs, fp)
    modifies fs`faults, fp`pos, fp`error
    ensures Readable(fs, fp) && old(fs.faults) <= fs.faults
    ensures ok ==> GetInt32(old(Left(fs, fp))) == Some(Parsed(v, Left(fs, fp)))
    ensures ok ==> fs.faults == old(fs.faults)
    ensures fs.faults == old(fs.faults) && !ok ==> GetInt32(old(Left(fs, fp))) == None
  {
    var c1 := fs.Fgetc(fp);
    var c2 := fs.Fgetc(fp);
    var c3 := fs.Fgetc(fp);
    var c4 := fs.Fgetc(fp);
    if c1 == EOF || c2 == EOF || c3 == EOF || c4 == EOF {
      return false, 0;
    }
    return true, Join32(c1, c2, c3, c4);
  }

  method ReadString(fs: FileSystem, fp: File) returns (ok: bool, s: Str)
    requires Readable(fs, fp)
    modifies fs`faults, fp`pos, fp`error
    ensures Readable(fs, fp) && old(fs.faults) <= fs.faults
    ensures ok ==> GetString(old(Left(fs, fp))) == Some(Parsed(s, Left(fs, fp)))
    ensures ok ==> fs.faults == old(fs.faults)
    ensures fs.faults == old(fs.faults) && !ok ==> GetString(old(Left(fs, fp))) == None
  {
    var got, len := ReadInt16(fs, fp);
    if !got {
      return false, None;
    }
    if len == 0 {
      return true, None;
    }
    ghost var more := Left(fs, fp);
    var b := fs.Fread(len, fp);
    assert |b| == len ==> b == more[..len] && Left(fs, fp) == more[len..];
    return |b| == len, Some(b);
  }

  // get_file_version: 0 if the number is missing or makes no sense
  function VersionOf(r: Contents): (v: nat)
    ensures v <= FILE_VERSION
  {
    match GetInt32(r)
    case None => 0
    case Some(p) => if 1 <= AsInt32(p.value) <= FILE_VERSION then p.value else 0
  }

  method GetFileVersion(fs: FileSystem, fp: File) returns (version: nat)
    requires Readable(fs, fp) && !fp.error
    modifies fs`faults, fp`pos, fp`error
    ensures Readable(fs, fp) && old(fs.faults) <= fs.faults && version <= FILE_VERSION
    ensures version != 0 ==> version == VersionOf(old(Left(fs, fp))) && Left(fs, fp) == old(Left(fs, fp))[4..]
    ensures version != 0 ==> fs.faults == old(fs.faults)
    ensures fs.faults == old(fs.faults) ==> version == VersionOf(old(Left(fs, fp)))
  {
    var c1 := fs.Fgetc(fp);
    var c2 := fs.Fgetc(fp);
    var c3 := fs.Fgetc(fp);
    var c4 := fs.Fgetc(fp);
    if c1 == EOF || c2 == EOF || c3 == EOF || c4 == EOF {   // ferror or feof
      return 0;
    }
    var v := AsInt32(Join32(c1, c2, c3, c4));
    version := if v > FILE_VERSION || v < 1 then 0 else v;
  }

  // The header that open_db_write wrote is version 8.
  lemma HeaderVersion(more: Contents)
    ensures VersionOf(HEADER + more) == FILE_VERSION && (HEADER + more)[4..] == more
  {
    var r := HEADER + more;
    assert r[0] == 0 && r[1] == 0 && r[2] == 0 && r[3] == FILE_VERSION && r[4..] == more;
    assert Join32(r[0], r[1], r[2], r[3]) == FILE_VERSION;
  }

  // open_db_read
  method OpenDbRead(fs: FileSystem, name: string) returns (f: DbFile?)
    requires fs.Valid()
    modifies fs`faults
    ensures old(fs.faults) <= fs.faults
    ensures f != null ==> fresh(f) && fresh(f.fp) && !f.writing && f.filename == Path(name) && f.backupfp == null && f.backupname == ""
    ensures f != null ==> Path(name) in fs.names && Readable(fs, f.fp) && !f.fp.error
                          && Left(fs, f.fp) == Under(fs, Path(name))
    ensures f != null ==> fs.faults == old(fs.faults)
    ensures fs.faults == old(fs.faults) ==> (f != null <==> Path(name) in fs.names)
  {
    var filename := Path(name);
    var fp := fs.OpenRead(filename);
    if fp == null {
      return null;
    }
    f := new DbFile(false, fp, null, filename, "");
  }

  // ---------- lists of records ----------

  function AllBytes<T>(put: T -> Contents, items: seq<T>): Contents {
    if items == [] then [] else put(items[0]) + AllBytes(put, items[1..])
  }

  // The records that can be read, n at most
  function GetAll<T>(get: Contents -> Option<Parsed<T>>, r: Contents, n: nat): (items: seq<T>)
    ensures |items| <= n
    decreases n
  {
    if n == 0 then []
    else match get(r)
      case None => []
      case Some(p) => [p.value] + GetAll(get, p.rest, n - 1)
  }

  function Each<T>(f: T -> T, items: seq<T>): (r: seq<T>)
    ensures |r| == |items| && forall i :: 0 <= i < |items| ==> r[i] == f(items[i])
  {
    if items == [] then [] else [f(items[0])] + Each(f, items[1..])
  }

  lemma EachSame<T>(f: T -> T, items: seq<T>)
    ensures Each(f, items) == items <==> forall i :: 0 <= i < |items| ==> f(items[i]) == items[i]
  {
  }

  lemma {:induction false} AllBytesMore<T>(put: T -> Contents, items: seq<T>, item: T)
    ensures AllBytes(put, items + [item]) == AllBytes(put, items) + put(item)
  {
    if items == [] {
      assert AllBytes(put, [item]) == put(item) + [];
    } else {
      AllBytesMore(put, items[1..], item);
      assert (items + [item])[0] == items[0] && (items + [item])[1..] == items[1..] + [item];
      Assoc(put(items[0]), AllBytes(put, items[1..]), put(item));
    }
  }

  // If one record comes back as f of it, so does each of a list.
  lemma {:induction false} ReadBackAll<T(!new)>(put: T -> Contents, get: Contents -> Option<Parsed<T>>, f: T -> T,
                                                items: seq<T>, more: Contents)
    requires forall x: T, after: Contents :: get(put(x) + after) == Some(Parsed(f(x), after))
    ensures GetAll(get, AllBytes(put, items) + more, |items|) == Each(f, items)
  {
    if items != [] {
      Assoc(put(items[0]), AllBytes(put, items[1..]), more);
      ReadBackAll(put, get, f, items[1..], more);
    }
  }

  // Records that are read with an argument each
  function GetEach<T, A>(get: (Contents, A) -> Option<Parsed<T>>, r: Contents, args: seq<A>): (p: Option<Parsed<seq<T>>>)
    ensures p.Some? ==> |p.value.value| == |args|
    decreases |args|
  {
    if args == [] then Some(Parsed([], r))
    else
      var k := |args| - 1;
      match GetEach(get, r, args[..k]) case None => None case Some(Parsed(items, more)) =>
      match get(more, args[k]) case None => None case Some(Parsed(item, rest)) =>
      Some(Parsed(items + [item], rest))
  }

  // Behind these records the bytes rest are left.
  ghost predicate Starts<T(!new)>(get: Contents -> Option<Parsed<T>>, r: Contents, items: seq<T>, rest: Contents) {
    forall n: nat :: GetAll(get, r, |items| + n) == items + GetAll(get, rest, n)
  }

  lemma StartsNone<T(!new)>(get: Contents -> Option<Parsed<T>>, r: Contents)
    ensures Starts(get, r, [], r)
  {
    var none: seq<T> := [];
    assert forall n: nat :: GetAll(get, r, |none| + n) == none + GetAll(get, r, n);
  }

  lemma StartsMore<T(!new)>(get: Contents -> Option<Parsed<T>>, r: Contents, items: seq<T>, more: Contents, p: Parsed<T>)
    requires Starts(get, r, items, more) && get(more) == Some(p)
    ensures Starts(get, r, items + [p.value], p.rest)
  {
    forall n: nat
      ensures GetAll(get, r, |items + [p.value]| + n) == (items + [p.value]) + GetAll(get, p.rest, n)
    {
      assert GetAll(get, r, |items| + (1 + n)) == items + GetAll(get, more, 1 + n);
      assert items + ([p.value] + GetAll(get, p.rest, n)) == (items + [p.value]) + GetAll(get, p.rest, n);
    }
  }

  lemma StartsEnd<T(!new)>(get: Contents -> Option<Parsed<T>>, r: Contents, items: seq<T>, more: Contents)
    requires Starts(get, r, items, more) && get(more) == None
    ensures |GetAll(get, r, |items| + 1)| <= |items|
  {
    assert GetAll(get, r, |items| + 1) == items + GetAll(get, more, 1);
  }

  lemma {:induction false} GetAllFewer<T>(get: Contents -> Option<Parsed<T>>, r: Contents, k: nat)
    ensures |GetAll(get, r, k)| < k ==> |GetAll(get, r, k + 1)| < k + 1
    decreases k
  {
    if k > 0 {
      match get(r)
      case None =>
      case Some(p) => GetAllFewer(get, p.rest, k - 1);
    }
  }

  lemma {:induction false} EachStarts<T(!new), A>(each: (Contents, A) -> Option<Parsed<T>>, get: Contents -> Option<Parsed<T>>,
                                                  r: Contents, args: seq<A>)
    requires forall i, x: Contents :: 0 <= i < |args| ==> each(x, args[i]) == get(x)
    ensures match GetEach(each, r, args)
            case None => |GetAll(get, r, |args|)| < |args|
            case Some(p) => Starts(get, r, p.value, p.rest)
    decreases |args|
  {
    if args == [] {
      StartsNone(get, r);
    } else {
      var k := |args| - 1;
      EachStarts(each, get, r, args[..k]);
      match GetEach(each, r, args[..k])
      case None =>
        GetAllFewer(get, r, k);
      case Some(Parsed(items, more)) =>
        assert each(more, args[k]) == get(more);
        match get(more)
        case None => StartsEnd(get, r, items, more);
        case Some(p) => StartsMore(get, r, items, more, p);
    }
  }

  // If the arguments make no difference, they are the records that can be read.
  lemma EachIsAll<T(!new), A>(each: (Contents, A) -> Option<Parsed<T>>, get: Contents -> Option<Parsed<T>>, r: Contents, args: seq<A>)
    requires forall i, x: Contents :: 0 <= i < |args| ==> each(x, args[i]) == get(x)
    ensures var all := GetAll(get, r, |args|);
            match GetEach(each, r, args)
            case None => |all| < |args|
            case Some(p) => p.value == all && |all| == |args|
  {
    EachStarts(each, get, r, args);
    match GetEach(each, r, args)
    case None =>
    case Some(p) =>
      assert GetAll(get, r, |p.value| + 0) == p.value + GetAll(get, p.rest, 0) == p.value;
  }
}
