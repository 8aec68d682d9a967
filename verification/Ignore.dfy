// process.c: the ignore list, hashed by the first character of the nick.

module Ignore {
  import opened CString
  import opened IgnoreMap

  class IgnoreData {
    var next: IgnoreData?
    var time: int
    const who: string
    const servicio: string
    const inbuf: string

    constructor (who: string, grounds: Grounds, next: IgnoreData?)
      ensures this.who == who && this.next == next && GroundsOf(this) == grounds
    {
      this.who, this.next := who, next;
      time, servicio, inbuf := grounds.time, grounds.servicio, grounds.inbuf;
    }
  }

  ghost function KeyOf(n: IgnoreData): string {
    Lower(n.who)
  }

  ghost function GroundsOf(n: IgnoreData): Grounds
    reads n`time
  {
    Grounds(n.time, n.servicio, n.inbuf)
  }

  ghost function At(list: seq<IgnoreData>, i: nat): IgnoreData? {
    if i < |list| then list[i] else null
  }

  // The records of a list are linked from its head on,
  ghost predicate Linked(list: seq<IgnoreData>, head: IgnoreData?)
    reads list`next
  {
    head == At(list, 0) && forall i {:trigger list[i].next} :: 0 <= i < |list| ==> list[i].next == At(list, i + 1)
  }

  // and hold what a bucket does.
  ghost predicate Shows(list: seq<IgnoreData>, bucket: seq<Record>)
    reads list`time
  {
    |list| == |bucket| &&
    forall i {:trigger list[i]} {:trigger bucket[i]} :: 0 <= i < |list| ==> bucket[i] == Record(KeyOf(list[i]), GroundsOf(list[i]))
  }

  // All of that, with the records in a set of known ones
  ghost predicate Stands(list: seq<IgnoreData>, bucket: seq<Record>, head: IgnoreData?, nodes: set<IgnoreData>)
    reads list
  {
    && (forall i {:trigger list[i]} :: 0 <= i < |list| ==> list[i] in nodes)
    && Linked(list, head) && Shows(list, bucket)
  }

  lemma ConsLinked(ign: IgnoreData, list: seq<IgnoreData>, bucket: seq<Record>)
    requires Linked(list, ign.next) && Shows(list, bucket)
    ensures Linked([ign] + list, ign) && Shows([ign] + list, [Record(KeyOf(ign), GroundsOf(ign))] + bucket)
  {
    var l := [ign] + list;
    forall i | 0 <= i < |l|
      ensures l[i].next == At(l, i + 1)
    {
      assert i > 0 ==> list[i - 1].next == At(list, i);
    }
  }

  lemma KnownMore(list: seq<IgnoreData>, bucket: seq<Record>, head: IgnoreData?, nodes: set<IgnoreData>, ign: IgnoreData)
    requires Stands(list, bucket, head, nodes)
    ensures Stands(list, bucket, head, nodes + {ign})
  {
  }

  // A new record, with those of a list behind it
  method NewRecord(who: string, grounds: Grounds, next: IgnoreData?, ghost list: seq<IgnoreData>, ghost bucket: seq<Record>)
    returns (ign: IgnoreData)
    requires Linked(list, next) && Shows(list, bucket)
    ensures fresh(ign) && Linked([ign] + list, ign) && Shows([ign] + list, [Record(Lower(who), grounds)] + bucket)
  {
    ign := new IgnoreData(who, grounds, next);
    ConsLinked(ign, list, bucket);
  }

  // The i-th record is passed over by the link before it.
  lemma CutLinked(list: seq<IgnoreData>, i: nat, head: IgnoreData?)
    requires i < |list| && head == if i == 0 then At(list, 1) else At(list, 0)
    requires forall j {:trigger list[j].next} :: 0 <= j < |list| ==> list[j].next == At(list, if j + 1 == i then i + 1 else j + 1)
    ensures Linked(list[..i] + list[i + 1..], head)
  {
    var l := list[..i] + list[i + 1..];
    forall j | 0 <= j < |l|
      ensures l[j].next == At(l, j + 1)
    {
      var o := if j < i then j else j + 1;
      assert l[j] == list[o] && list[o].next == At(list, if o + 1 == i then i + 1 else o + 1);
    }
  }

  lemma CutShows(list: seq<IgnoreData>, bucket: seq<Record>, i: nat)
    requires Shows(list, bucket) && i < |list|
    ensures Shows(list[..i] + list[i + 1..], bucket[..i] + bucket[i + 1..])
  {
    var l, r := list[..i] + list[i + 1..], bucket[..i] + bucket[i + 1..];
    forall j | 0 <= j < |l|
      ensures r[j] == Record(KeyOf(l[j]), GroundsOf(l[j]))
    {
      var o := if j < i then j else j + 1;
      assert l[j] == list[o] && r[j] == bucket[o];
    }
  }

  ghost function WithTime(r: Record, time: int): Record {
    r.(grounds := r.grounds.(time := time))
  }

  // The search in a list: the i-th record, if it is that of a nick, and the one before it
  method Search(head: IgnoreData?, nick: string, ghost list: seq<IgnoreData>, ghost bucket: seq<Record>)
    returns (ign: IgnoreData?, prev: IgnoreData?, ghost i: nat)
    requires Linked(list, head) && Shows(list, bucket)
    ensures i <= |list| && ign == At(list, i) && prev == if i == 0 then null else list[i - 1]
    ensures forall j :: 0 <= j < i ==> bucket[j].key != Lower(nick)
    ensures i < |list| ==> bucket[i] == Record(Lower(nick), GroundsOf(list[i]))
  {
    ign, prev, i := head, null, 0;
    while ign != null && !SameName(ign.who, nick)
      invariant i <= |list| && ign == At(list, i) && prev == (if i == 0 then null else list[i - 1])
      invariant forall j :: 0 <= j < i ==> bucket[j].key != Lower(nick)
      decreases |list| - i
    {
      assert list[i].next == At(list, i + 1) && bucket[i].key == KeyOf(list[i]);
      prev := ign;
      ign := ign.next;
      i := i + 1;
    }
    assert i < |list| ==> bucket[i] == Record(KeyOf(list[i]), GroundsOf(list[i]));
  }

  class IgnoreTable {
    const heads: array<IgnoreData?>
    ghost var nodes: set<IgnoreData>
    ghost var lists: seq<seq<IgnoreData>>
    ghost var buckets: Buckets
    ghost var contents: Ignored

    constructor ()
      ensures Valid() && contents == map[] && fresh(heads) && nodes == {}
    {
      heads := new IgnoreData?[ALIASES](i => null);
      lists := seq(ALIASES, i => []);
      buckets := seq(ALIASES, i => []);
      contents, nodes := map[], {};
    }

    // The b-th list is the b-th bucket.
    ghost predicate Kept(b: nat)
      requires b < |lists| && b < |buckets| && b < heads.Length
      reads this`lists, this`buckets, this`nodes, heads, nodes
    {
      && (forall i {:trigger lists[b][i]} :: 0 <= i < |lists[b]| ==> lists[b][i] in nodes)
      && Stands(lists[b], buckets[b], heads[b], nodes)
    }

    ghost predicate Valid()
      reads this, heads, nodes
    {
      && heads.Length == |lists| == ALIASES && Represents(buckets, contents)
      && forall b {:trigger Kept(b)} :: 0 <= b < ALIASES ==> Kept(b)
    }

    method Find(nick: string) returns (ign: IgnoreData?, prev: IgnoreData?, ghost i: nat)
      requires Valid()
      ensures i <= |lists[Bucket(nick)]| && ign == At(lists[Bucket(nick)], i)
      ensures prev == if i == 0 then null else lists[Bucket(nick)][i - 1]
      ensures ign != null <==> Lower(nick) in contents
      ensures ign != null ==> i < |buckets[Bucket(nick)]| && buckets[Bucket(nick)][i].key == Lower(nick)
      ensures ign != null ==> contents[Lower(nick)] == GroundsOf(ign) && KeyOf(ign) == Lower(nick)
    {
      var b := Bucket(nick);
      assert Kept(b);
      BucketOfKey(nick);
      ign, prev, i := Search(heads[b], nick, lists[b], buckets[b]);
      Sought(buckets, contents, Lower(nick), i);
    }

    // A record stands in one place only.
    lemma Alone(b: nat, i: nat)
      requires Valid() && b < ALIASES && i < |lists[b]|
      ensures forall c, j :: 0 <= c < ALIASES && 0 <= j < |lists[c]| && (c != b || j != i) ==> lists[c][j] != lists[b][i]
    {
      var v: Buckets, m: Ignored := buckets, contents;
      assert Kept(b);
      forall c, j | 0 <= c < ALIASES && 0 <= j < |lists[c]| && (c != b || j != i)
        ensures lists[c][j] != lists[b][i]
      {
        assert Kept(c) && v[c][j].key == KeyOf(lists[c][j]) && v[b][i].key == KeyOf(lists[b][i]);
        PlacesApart(v, m, b, i, c, j);
      }
    }

    // A new time for the i-th record of a bucket
    method Retime(ign: IgnoreData, time: int, ghost b: nat, ghost i: nat)
      requires Valid() && b < ALIASES && i < |lists[b]| && i < |buckets[b]| && ign == lists[b][i]
      modifies this, nodes`time
      ensures Valid() && contents == old(contents)[old(buckets[b][i].key) := old(buckets[b][i].grounds).(time := time)]
    {
      ghost var v: Buckets, m: Ignored := buckets, contents;
      Retimed(v, m, b, i, v[b][i].grounds.(time := time));
      SetTime(ign, time, b, i);
      contents := m[v[b][i].key := v[b][i].grounds.(time := time)];
    }

    method SetTime(ign: IgnoreData, time: int, ghost b: nat, ghost i: nat)
      requires Valid() && b < ALIASES && i < |lists[b]| && i < |buckets[b]| && ign == lists[b][i]
      modifies this`lists, this`buckets, nodes`time
      ensures |lists| == ALIASES && buckets == old(buckets)[b := old(buckets)[b][i := WithTime(old(buckets)[b][i], time)]]
      ensures forall c {:trigger Kept(c)} :: 0 <= c < ALIASES ==> Kept(c)
    {
      ghost var l, v: Buckets := lists, buckets;
      assert Kept(b);
      Alone(b, i);
      ign.time := time;
      forall c | 0 <= c < ALIASES && c != b
        ensures Stands(l[c], v[c], heads[c], nodes)
      {
        assert old(Kept(c));
      }
      SetBucket(b, l[b], v[b][i := WithTime(v[b][i], time)]);
    }

    // A new record at the head of its list
    method Insert(who: string, grounds: Grounds)
      requires Valid() && Lower(who) !in contents
      modifies this, heads
      ensures Valid() && contents == old(contents)[Lower(who) := grounds]
    {
      var h := Bucket(who);
      ghost var v: Buckets, m: Ignored := buckets, contents;
      BucketOfKey(who);
      Inserted(v, m, Record(Lower(who), grounds));
      Push(who, grounds, h);
      contents := m[Lower(who) := grounds];
    }

    // The same, as far as the list of the bucket goes
    method Push(who: string, grounds: Grounds, h: nat)
      requires Valid() && h < ALIASES
      modifies this`nodes, this`lists, this`buckets, heads
      ensures |lists| == ALIASES && buckets == old(buckets)[h := [Record(Lower(who), grounds)] + old(buckets)[h]]
      ensures forall b {:trigger Kept(b)} :: 0 <= b < ALIASES ==> Kept(b)
    {
      assert Kept(h);
      var ign := NewRecord(who, grounds, heads[h], lists[h], buckets[h]);
      SetHead(ign, h);
      SetBucket(h, [ign] + lists[h], [Record(Lower(who), grounds)] + buckets[h]);
    }

    // A record becomes the head of a list; the others are as they were.
    method SetHead(ign: IgnoreData, h: nat)
      requires Valid() && h < ALIASES
      modifies this`nodes, heads
      ensures heads[h] == ign && nodes == old(nodes) + {ign}
      ensures forall x :: x in lists[h] ==> x in nodes
      ensures forall c {:trigger lists[c]} :: 0 <= c < ALIASES && c != h ==> Stands(lists[c], buckets[c], heads[c], nodes)
    {
      assert Kept(h);
      ghost var known := nodes;
      heads[h] := ign;
      nodes := nodes + {ign};
      forall c | 0 <= c < ALIASES && c != h
        ensures Stands(lists[c], buckets[c], heads[c], nodes)
      {
        assert old(Kept(c));
        KnownMore(lists[c], buckets[c], heads[c], known, ign);
      }
    }

    ghost method SetBucket(h: nat, list: seq<IgnoreData>, bucket: seq<Record>)
      requires h < |lists| == |buckets| == ALIASES == heads.Length && Stands(list, bucket, heads[h], nodes)
      requires forall c {:trigger lists[c]} :: 0 <= c < ALIASES && c != h ==> Stands(lists[c], buckets[c], heads[c], nodes)
      modifies this`lists, this`buckets
      ensures lists == old(lists)[h := list] && buckets == old(buckets)[h := bucket]
      ensures forall b {:trigger Kept(b)} :: 0 <= b < ALIASES ==> Kept(b)
    {
      lists, buckets := lists[h := list], buckets[h := bucket];
    }

    // The i-th record is taken out of a list.
    method Remove(ign: IgnoreData, prev: IgnoreData?, h: nat, ghost i: nat)
      requires Valid() && h < ALIASES && i < |lists[h]| && i < |buckets[h]| && ign == lists[h][i]
      requires prev == if i == 0 then null else lists[h][i - 1]
      modifies this, heads, nodes`next
      ensures Valid() && contents == old(contents) - {old(buckets[h][i].key)}
    {
      ghost var v: Buckets, m: Ignored := buckets, contents;
      Removed(v, m, h, i);
      Unlink(ign, prev, h, i);
      contents := m - {v[h][i].key};
    }

    method Unlink(ign: IgnoreData, prev: IgnoreData?, h: nat, ghost i: nat)
      requires Valid() && h < ALIASES && i < |lists[h]| && i < |buckets[h]| && ign == lists[h][i]
      requires prev == if i == 0 then null else lists[h][i - 1]
      modifies this`lists, this`buckets, heads, nodes`next
      ensures |lists| == ALIASES && buckets == old(buckets)[h := old(buckets)[h][..i] + old(buckets)[h][i + 1..]]
      ensures forall b {:trigger Kept(b)} :: 0 <= b < ALIASES ==> Kept(b)
    {
      ghost var l, v: Buckets := lists, buckets;
      assert Kept(h);
      CutShows(l[h], v[h], i);
      Relink(ign, prev, h, i);
      forall c | 0 <= c < ALIASES && c != h
        ensures Stands(l[c], v[c], heads[c], nodes)
      {
        assert old(Kept(c));
      }
      SetBucket(h, l[h][..i] + l[h][i + 1..], v[h][..i] + v[h][i + 1..]);
    }

    // The links, once the i-th record of bucket h is passed over
    method Relink(ign: IgnoreData, prev: IgnoreData?, h: nat, ghost i: nat)
      requires Valid() && h < ALIASES && i < |lists[h]| && ign == lists[h][i]
      requires prev == if i == 0 then null else lists[h][i - 1]
      modifies heads, nodes`next
      ensures Linked(lists[h][..i] + lists[h][i + 1..], heads[h])
      ensures forall c {:trigger lists[c]} :: 0 <= c < ALIASES && c != h ==> Linked(lists[c], heads[c])
    {
      assert Kept(h);
      if i > 0 {
        Alone(h, i - 1);
      }
      Skip(ign, prev, h, lists[h], i);
      CutLinked(lists[h], i, heads[h]);
      forall c | 0 <= c < ALIASES && c != h
        ensures Linked(lists[c], heads[c])
      {
        assert old(Kept(c));
      }
    }

    // The link before the i-th record passes it over.
    method Skip(ign: IgnoreData, prev: IgnoreData?, h: nat, ghost list: seq<IgnoreData>, ghost i: nat)
      requires h < heads.Length && Linked(list, heads[h]) && i < |list| && ign == list[i]
      requires prev == if i == 0 then null else list[i - 1]
      requires forall j :: 0 <= j < |list| && j != i - 1 ==> list[j] != prev
      modifies heads, (if prev == null then {} else {prev})`next
      ensures heads[h] == if i == 0 then At(list, 1) else At(list, 0)
      ensures forall c :: 0 <= c < heads.Length && c != h ==> heads[c] == old(heads[c])
      ensures forall j {:trigger list[j].next} :: 0 <= j < |list| ==> list[j].next == At(list, if j + 1 == i then i + 1 else j + 1)
    {
      assert list[i].next == At(list, i + 1);
      if prev != null {
        prev.next := ign.next;
      } else {
        heads[h] := ign.next;
      }
    }

    // add_ignore
    method AddIgnore(nick: string, delta: int, servicio: string, inbuf: string, now: int)
      requires Valid()
      modifies this, heads, nodes`time
      ensures Valid() && contents == Added(old(contents), nick, delta, servicio, inbuf, now)
    {
      var who := Cut(nick);
      var ign, prev, i := Find(who);
      if ign == null {
        Insert(who, NewGrounds(delta, servicio, inbuf, now));
      } else {
        Retime(ign, Extended(ign.time, delta, now), Bucket(who), i);
      }
    }

    // get_ignore
    method GetIgnore(nick: string, now: int) returns (ign: IgnoreData?)
      requires Valid()
      modifies this, heads, nodes`next
      ensures Valid() && contents == Flushed(old(contents), nick, now)
      ensures ign != null <==> Until(old(contents), nick, now) != None
      ensures ign != null ==> Until(old(contents), nick, now) == Some(GroundsOf(ign)) && SameName(ign.who, nick)
    {
      var prev;
      ghost var i;
      ign, prev, i := Find(nick);
      if ign != null && ign.time <= now {
        Remove(ign, prev, Bucket(nick), i);
        ign := null;
      }
    }
  }
}
