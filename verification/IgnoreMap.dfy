// process.c: the ignore list as a map from nicks to the time until which they are ignored, and why.

module IgnoreMap {
  import opened CString

  // Nicks are cut to NICKMAX - 1 characters, and their case does not matter.
  function Cut(nick: string): string {
    Truncated(nick, NICKMAX)
  }

  function Key(nick: string): string {
    Lower(Cut(nick))
  }

  // Until when a nick is ignored; the service and the line that were the reason
  datatype Grounds = Grounds(time: int, servicio: string, inbuf: string)

  type Ignored = map<string, Grounds>

  // The grounds of a new record
  function NewGrounds(delta: int, servicio: string, inbuf: string, now: int): Grounds {
    Grounds(now + delta, Truncated(servicio, NICKMAX), Truncated(inbuf, BUFSIZE))
  }

  // The time of a record that is there already; its service and line stay.
  function Extended(time: int, delta: int, now: int): int {
    if time > now then time + delta else now + delta
  }

  // add_ignore: delta seconds more, from now on if the nick is not being ignored
  function Added(m: Ignored, nick: string, delta: int, servicio: string, inbuf: string, now: int): Ignored {
    var k := Key(nick);
    m[k := if k in m then m[k].(time := Extended(m[k].time, delta, now)) else NewGrounds(delta, servicio, inbuf, now)]
  }

  // get_ignore: the grounds on which a nick is being ignored
  function Until(m: Ignored, nick: string, now: int): Option<Grounds> {
    var k := Lower(nick);
    if k in m && m[k].time > now then Some(m[k]) else None
  }

  // What get_ignore leaves: a record that is found out of date goes.
  function Flushed(m: Ignored, nick: string, now: int): Ignored {
    var k := Lower(nick);
    if k in m && m[k].time <= now then m - {k} else m
  }

  // add_ignore cuts a nick, get_ignore does not.
  ghost predicate ShortKeys(m: Ignored) {
    forall k :: k in m ==> |k| < NICKMAX
  }

  // So a nick is found again exactly if it is not cut.
  lemma LongNickMissed(m: Ignored, nick: string, delta: int, servicio: string, inbuf: string, now: int)
    requires ShortKeys(m) && delta > 0
    ensures Until(Added(m, nick, delta, servicio, inbuf, now), nick, now) != None <==> |nick| < 32
    ensures ShortKeys(Added(m, nick, delta, servicio, inbuf, now)) && ShortKeys(Flushed(m, nick, now))
  {
  }

  // A nick that is added is ignored for delta seconds more than it was, or from now on, and so up to one
  // moment; all other nicks are as before.
  lemma AddMeans(m: Ignored, nick: string, delta: nat, servicio: string, inbuf: string, now: int, other: string, t: int)
    requires |nick| < 32
    ensures var n := Added(m, nick, delta, servicio, inbuf, now);
            && (Until(m, nick, now) == None ==> (Until(n, nick, t) != None <==> t < now + delta))
            && (Until(m, nick, now) != None ==> (Until(n, nick, t) != None <==> t < Until(m, nick, now).value.time + delta))
            && (Key(nick) !in m && t < now + delta ==> Until(n, nick, t).value.servicio == Truncated(servicio, 32))
            && (Key(nick) !in m && t < now + delta ==> Until(n, nick, t).value.inbuf == Truncated(inbuf, 512))
            && (!SameName(nick, other) ==> Until(n, other, t) == Until(m, other, t))
            && (SameName(nick, other) ==> Until(n, other, t) == Until(n, nick, t))
  {
  }

  // Asking changes nothing that is asked from then on.
  lemma AskMeans(m: Ignored, nick: string, now: int, other: string, t: int)
    requires now <= t
    ensures Until(Flushed(m, nick, now), other, t) == Until(m, other, t)
  {
  }

  // ---------- lazy removal ----------

  datatype Op =
    | Add(nick: string, delta: int, servicio: string, inbuf: string, now: int)
    | Get(nick: string, now: int)

  // The answers to the Gets of a run on a map from which nothing is ever removed
  function Answers(m: Ignored, ops: seq<Op>): seq<Option<Grounds>>
    decreases ops
  {
    if ops == [] then []
    else match ops[0]
      case Add(nick, delta, servicio, inbuf, now) => Answers(Added(m, nick, delta, servicio, inbuf, now), ops[1..])
      case Get(nick, now) => [Until(m, nick, now)] + Answers(m, ops[1..])
  }

  // The same when records out of date are removed as they are found
  function LazyAnswers(m: Ignored, ops: seq<Op>): seq<Option<Grounds>>
    decreases ops
  {
    if ops == [] then []
    else match ops[0]
      case Add(nick, delta, servicio, inbuf, now) => LazyAnswers(Added(m, nick, delta, servicio, inbuf, now), ops[1..])
      case Get(nick, now) => [Until(m, nick, now)] + LazyAnswers(Flushed(m, nick, now), ops[1..])
  }

  // Until when each answer says that the nick is ignored
  function Times(answers: seq<Option<Grounds>>): seq<Option<int>> {
    if answers == [] then []
    else [match answers[0] case None => None case Some(g) => Some(g.time)] + Times(answers[1..])
  }

  // The clock does not go back, and starts at clock or later.
  predicate Forward(ops: seq<Op>, clock: int) {
    ops == [] || (clock <= ops[0].now && Forward(ops[1..], ops[0].now))
  }

  // The lazy map lacks some records, all of them out of date.
  ghost predicate Agrees(lazily: Ignored, all: Ignored, clock: int) {
    forall k {:trigger k in lazily} {:trigger k in all} ::
      (k in lazily ==> k in all && lazily[k].time == all[k].time) && (k in all && k !in lazily ==> all[k].time <= clock)
  }

  lemma {:induction false} TimesAgree(lazily: Ignored, all: Ignored, ops: seq<Op>, clock: int)
    requires Agrees(lazily, all, clock) && Forward(ops, clock)
    ensures Times(LazyAnswers(lazily, ops)) == Times(Answers(all, ops))
    decreases ops
  {
    if ops != [] {
      match ops[0]
      case Add(nick, delta, servicio, inbuf, now) =>
        TimesAgree(Added(lazily, nick, delta, servicio, inbuf, now), Added(all, nick, delta, servicio, inbuf, now), ops[1..], now);
      case Get(nick, now) =>
        TimesAgree(Flushed(lazily, nick, now), all, ops[1..], now);
    }
  }

  // As long as the clock does not go back, nobody can tell by the times that records are removed.
  lemma LazinessHidden(ops: seq<Op>, clock: int)
    requires Forward(ops, clock)
    ensures Times(LazyAnswers(map[], ops)) == Times(Answers(map[], ops))
  {
    TimesAgree(map[], map[], ops, clock);
  }

  lemma OneGet(m: Ignored, nick: string, now: int, more: seq<Op>)
    ensures Answers(m, [Get(nick, now)] + more) == [Until(m, nick, now)] + Answers(m, more)
    ensures LazyAnswers(m, [Get(nick, now)] + more) == [Until(m, nick, now)] + LazyAnswers(Flushed(m, nick, now), more)
  {
    assert ([Get(nick, now)] + more)[1..] == more;
  }

  lemma OneAdd(m: Ignored, nick: string, delta: int, servicio: string, inbuf: string, now: int, more: seq<Op>)
    ensures var n := Added(m, nick, delta, servicio, inbuf, now);
            Answers(m, [Add(nick, delta, servicio, inbuf, now)] + more) == Answers(n, more) &&
            LazyAnswers(m, [Add(nick, delta, servicio, inbuf, now)] + more) == LazyAnswers(n, more)
  {
    assert ([Add(nick, delta, servicio, inbuf, now)] + more)[1..] == more;
  }

  // If it does, the record that has gone is missed.
  lemma ClockBack(nick: string, delta: int, servicio: string, inbuf: string, now: int)
    requires |nick| < NICKMAX && delta > 0
    ensures var ops := [Add(nick, delta, servicio, inbuf, now), Get(nick, now + delta), Get(nick, now)];
            LazyAnswers(map[], ops) == [None, None] &&
            Answers(map[], ops) == [None, Some(NewGrounds(delta, servicio, inbuf, now))]
  {
    var late, back := Get(nick, now + delta), Get(nick, now);
    var m := Added(map[], nick, delta, servicio, inbuf, now);
    assert m == map[Lower(nick) := NewGrounds(delta, servicio, inbuf, now)] && Flushed(m, nick, now + delta) == map[];
    OneAdd(map[], nick, delta, servicio, inbuf, now, [late, back]);
    OneGet(m, nick, now + delta, [back]);
    OneGet(m, nick, now, []);
    OneGet(map[], nick, now, []);
    assert [late] + [back] == [late, back] && [back] + [] == [back];
  }

  // Nobody is told a service or line that comes from an older record. Of the nicks in the map, gone are those asked
  // for when out of date, and not added since; other are those added again, then, for another reason.
  predicate NoneTold(all: Ignored, gone: set<string>, other: set<string>, ops: seq<Op>)
    decreases ops
  {
    ops == [] ||
    match ops[0]
    case Add(nick, delta, servicio, inbuf, now) =>
      var k := Key(nick);
      var differs := k in gone && k in all && all[k] != NewGrounds(delta, servicio, inbuf, now).(time := all[k].time);
      NoneTold(Added(all, nick, delta, servicio, inbuf, now), gone - {k}, if differs then other + {k} else other, ops[1..])
    case Get(nick, now) =>
      var k := Lower(nick);
      if k in all && all[k].time <= now then NoneTold(all, gone + {k}, other - {k}, ops[1..])
      else k !in other && NoneTold(all, gone, other, ops[1..])
  }

  // What the two sets say of the lazy map
  ghost predicate Tells(lazily: Ignored, all: Ignored, gone: set<string>, other: set<string>, clock: int) {
    && Agrees(lazily, all, clock)
    && (forall k {:trigger k in gone} {:trigger k in lazily} :: k in all ==> (k in lazily <==> k !in gone))
    && (forall k {:trigger k in other} :: k in other <==> k in lazily && k in all && lazily[k] != all[k])
  }

  lemma SameCons<T>(x: T, xs: seq<T>, y: T, ys: seq<T>)
    ensures [x] + xs == [y] + ys <==> x == y && xs == ys
  {
    if [x] + xs == [y] + ys {
      assert ([x] + xs)[0] == x && ([y] + ys)[0] == y && ([x] + xs)[1..] == xs && ([y] + ys)[1..] == ys;
    }
  }

  lemma TellsAdd(lazily: Ignored, all: Ignored, gone: set<string>, other: set<string>, clock: int,
                 nick: string, delta: int, servicio: string, inbuf: string, now: int)
    requires Tells(lazily, all, gone, other, clock) && clock <= now
    ensures var k := Key(nick);
            var differs := k in gone && k in all && all[k] != NewGrounds(delta, servicio, inbuf, now).(time := all[k].time);
            Tells(Added(lazily, nick, delta, servicio, inbuf, now), Added(all, nick, delta, servicio, inbuf, now),
                  gone - {k}, if differs then other + {k} else other, now)
  {
  }

  lemma TellsGet(lazily: Ignored, all: Ignored, gone: set<string>, other: set<string>, clock: int, nick: string, now: int)
    requires Tells(lazily, all, gone, other, clock) && clock <= now
    ensures var k := Lower(nick);
            if k in all && all[k].time <= now then Tells(Flushed(lazily, nick, now), all, gone + {k}, other - {k}, now)
            else Tells(Flushed(lazily, nick, now), all, gone, other, now)
    ensures var k := Lower(nick);
            Until(lazily, nick, now) == Until(all, nick, now) <==> (k in all && all[k].time <= now) || k !in other
  {
  }

  lemma {:induction false} AnswersAgree(lazily: Ignored, all: Ignored, gone: set<string>, other: set<string>, ops: seq<Op>, clock: int)
    requires Tells(lazily, all, gone, other, clock) && Forward(ops, clock)
    ensures LazyAnswers(lazily, ops) == Answers(all, ops) <==> NoneTold(all, gone, other, ops)
    decreases ops
  {
    if ops != [] {
      match ops[0]
      case Add(nick, delta, servicio, inbuf, now) =>
        var k := Key(nick);
        var differs := k in gone && k in all && all[k] != NewGrounds(delta, servicio, inbuf, now).(time := all[k].time);
        TellsAdd(lazily, all, gone, other, clock, nick, delta, servicio, inbuf, now);
        AnswersAgree(Added(lazily, nick, delta, servicio, inbuf, now), Added(all, nick, delta, servicio, inbuf, now),
                     gone - {k}, if differs then other + {k} else other, ops[1..], now);
      case Get(nick, now) =>
        var k, left := Lower(nick), Flushed(lazily, nick, now);
        var over := k in all && all[k].time <= now;
        TellsGet(lazily, all, gone, other, clock, nick, now);
        AnswersAgree(left, all, if over then gone + {k} else gone, if over then other - {k} else other, ops[1..], now);
        SameCons(Until(lazily, nick, now), LazyAnswers(left, ops[1..]), Until(all, nick, now), Answers(all, ops[1..]));
    }
  }

  // By service and line they can tell exactly if one of these is told.
  lemma GroundsHidden(ops: seq<Op>, clock: int)
    requires Forward(ops, clock)
    ensures LazyAnswers(map[], ops) == Answers(map[], ops) <==> NoneTold(map[], {}, {}, ops)
  {
    AnswersAgree(map[], map[], {}, {}, ops, clock);
  }

  // A record that is extended out of date keeps the old service and line, unless somebody has asked for
  // the nick in between, and been told that it is not ignored.
  lemma OldGrounds(m: Ignored, nick: string, delta: int, servicio: string, inbuf: string, now: int)
    requires |nick| < NICKMAX && delta > 0 && Key(nick) in m && m[Key(nick)].time <= now
    ensures var add, ask := Add(nick, delta, servicio, inbuf, now), Get(nick, now);
            LazyAnswers(m, [add, ask]) == [Some(m[Key(nick)].(time := now + delta))] &&
            LazyAnswers(m, [ask, add, ask]) == [None, Some(NewGrounds(delta, servicio, inbuf, now))]
  {
    var add, ask := Add(nick, delta, servicio, inbuf, now), Get(nick, now);
    var n := Added(m, nick, delta, servicio, inbuf, now);
    var f := Flushed(m, nick, now);
    var n' := Added(f, nick, delta, servicio, inbuf, now);
    OneAdd(m, nick, delta, servicio, inbuf, now, [ask]);
    OneGet(n, nick, now, []);
    OneGet(m, nick, now, [add, ask]);
    OneAdd(f, nick, delta, servicio, inbuf, now, [ask]);
    OneGet(n', nick, now, []);
    assert [add] + [ask] == [add, ask] && [ask] + [add, ask] == [ask, add, ask] && [ask] + [] == [ask];
  }

  // ---------- buckets ----------

  const ALIASES := 6000

  // A record, by its nick in lower case
  datatype Record = Record(key: string, grounds: Grounds)

  // tolower(nick[0]), a byte
  function Bucket(nick: string): (b: nat)
    ensures b < 256
  {
    if nick == "" then 0 else ToLower(nick[0]) as int % 256
  }

  lemma BucketOfKey(nick: string)
    ensures Bucket(Lower(nick)) == Bucket(nick) && Bucket(Cut(nick)) == Bucket(nick)
  {
  }

  type Buckets = seq<seq<Record>>

  ghost predicate Apart(a: Record, b: Record) {
    a.key != b.key
  }

  ghost predicate Stored(r: Record, b: nat, m: Ignored) {
    r.key in m && m[r.key] == r.grounds && Bucket(r.key) == b
  }

  ghost predicate Holds(bucket: seq<Record>, k: string) {
    exists i :: 0 <= i < |bucket| && bucket[i].key == k
  }

  // A bucket holds records of its own nicks only, each nick once.
  ghost predicate Sound(bucket: seq<Record>, b: nat, m: Ignored) {
    && (forall i {:trigger bucket[i]} :: 0 <= i < |bucket| ==> Stored(bucket[i], b, m))
    && (forall i, j {:trigger Apart(bucket[i], bucket[j])} :: 0 <= i < j < |bucket| ==> Apart(bucket[i], bucket[j]))
  }

  // The buckets hold the map.
  ghost predicate Represents(v: Buckets, m: Ignored) {
    && |v| == ALIASES
    && (forall b {:trigger v[b]} :: 0 <= b < ALIASES ==> Sound(v[b], b, m))
    && (forall k {:trigger k in m} :: k in m ==> Holds(v[Bucket(k)], k))
  }

  // A record changed
  lemma Retimed(v: Buckets, m: Ignored, b: nat, i: nat, grounds: Grounds)
    requires Represents(v, m) && b < ALIASES && i < |v[b]|
    ensures var r := v[b][i].(grounds := grounds);
            Represents(v[b := v[b][i := r]], m[r.key := grounds])
  {
    var r := v[b][i].(grounds := grounds);
    var bucket := v[b][i := r];
    var w, n := v[b := bucket], m[r.key := grounds];
    assert Sound(v[b], b, m) && Stored(v[b][i], b, m);
    forall c | 0 <= c < ALIASES
      ensures Sound(w[c], c, n)
    {
      assert Sound(v[c], c, m);
      forall j | 0 <= j < |w[c]|
        ensures Stored(w[c][j], c, n)
      {
        assert Stored(v[c][j], c, m);
        if c == b && j != i {
          assert if i < j then Apart(v[b][i], v[b][j]) else Apart(v[b][j], v[b][i]);
        }
      }
      forall j, l | 0 <= j < l < |w[c]|
        ensures Apart(w[c][j], w[c][l])
      {
        assert Apart(v[c][j], v[c][l]);
      }
    }
    forall k | k in n
      ensures Holds(w[Bucket(k)], k)
    {
      assert k in m && Holds(v[Bucket(k)], k);
      var j :| 0 <= j < |v[Bucket(k)]| && v[Bucket(k)][j].key == k;
      assert w[Bucket(k)][j].key == k;
    }
  }

  // A new record
  lemma Inserted(v: Buckets, m: Ignored, r: Record)
    requires Represents(v, m) && r.key !in m
    ensures var b := Bucket(r.key); Represents(v[b := [r] + v[b]], m[r.key := r.grounds])
  {
    var b := Bucket(r.key);
    var bucket := [r] + v[b];
    var w, n := v[b := bucket], m[r.key := r.grounds];
    forall c | 0 <= c < ALIASES
      ensures Sound(w[c], c, n)
    {
      assert Sound(v[c], c, m);
      forall j | 0 <= j < |v[c]|
        ensures Stored(v[c][j], c, n) && v[c][j].key != r.key
      {
        assert Stored(v[c][j], c, m);
      }
      if c == b {
        forall j, l | 0 <= j < l < |bucket|
          ensures Apart(bucket[j], bucket[l])
        {
          assert bucket[l] == v[b][l - 1] && (j > 0 ==> Apart(v[b][j - 1], v[b][l - 1]));
        }
      }
    }
    forall k | k in n
      ensures Holds(w[Bucket(k)], k)
    {
      if k == r.key {
        assert bucket[0].key == k;
      } else {
        assert k in m && Holds(v[Bucket(k)], k);
        var j :| 0 <= j < |v[Bucket(k)]| && v[Bucket(k)][j].key == k;
        assert w[Bucket(k)][if Bucket(k) == b then j + 1 else j].key == k;
      }
    }
  }

  // A record taken out
  lemma Removed(v: Buckets, m: Ignored, b: nat, i: nat)
    requires Represents(v, m) && b < ALIASES && i < |v[b]|
    ensures Represents(v[b := v[b][..i] + v[b][i + 1..]], m - {v[b][i].key})
  {
    var r := v[b][i];
    var bucket := v[b][..i] + v[b][i + 1..];
    var w, n := v[b := bucket], m - {r.key};
    assert Sound(v[b], b, m) && Stored(r, b, m);
    forall c | 0 <= c < ALIASES
      ensures Sound(w[c], c, n)
    {
      assert Sound(v[c], c, m);
      if c == b {
        WithoutOne(v[b], b, m, i);
      } else {
        forall j | 0 <= j < |v[c]|
          ensures Stored(v[c][j], c, n)
        {
          assert Stored(v[c][j], c, m);
        }
      }
    }
    forall k | k in n
      ensures Holds(w[Bucket(k)], k)
    {
      assert k in m && Holds(v[Bucket(k)], k);
      var j :| 0 <= j < |v[Bucket(k)]| && v[Bucket(k)][j].key == k;
      assert w[Bucket(k)][if Bucket(k) == b && j > i then j - 1 else j].key == k;
    }
  }

  lemma WithoutOne(bucket: seq<Record>, b: nat, m: Ignored, i: nat)
    requires Sound(bucket, b, m) && i < |bucket|
    ensures Sound(bucket[..i] + bucket[i + 1..], b, m - {bucket[i].key})
  {
    var rest := bucket[..i] + bucket[i + 1..];
    forall j | 0 <= j < |rest|
      ensures Stored(rest[j], b, m - {bucket[i].key})
    {
      var o := if j < i then j else j + 1;
      assert Stored(bucket[o], b, m) && if o < i then Apart(bucket[o], bucket[i]) else Apart(bucket[i], bucket[o]);
    }
    forall j, l | 0 <= j < l < |rest|
      ensures Apart(rest[j], rest[l])
    {
      assert Apart(bucket[if j < i then j else j + 1], bucket[if l < i then l else l + 1]);
    }
  }

  // Where the search for a nick ends
  lemma Sought(v: Buckets, m: Ignored, k: string, i: nat)
    requires Represents(v, m) && i <= |v[Bucket(k)]| && forall j :: 0 <= j < i ==> v[Bucket(k)][j].key != k
    requires i < |v[Bucket(k)]| ==> v[Bucket(k)][i].key == k
    ensures i < |v[Bucket(k)]| <==> k in m
    ensures i < |v[Bucket(k)]| ==> m[k] == v[Bucket(k)][i].grounds
  {
    var bucket := v[Bucket(k)];
    assert Sound(bucket, Bucket(k), m);
    assert k in m ==> Holds(bucket, k);
    if i < |bucket| {
      assert Stored(bucket[i], Bucket(k), m);
    }
  }

  // No two places hold the same nick.
  lemma PlacesApart(v: Buckets, m: Ignored, b: nat, i: nat, c: nat, j: nat)
    requires Represents(v, m) && b < ALIASES && i < |v[b]| && c < ALIASES && j < |v[c]| && (b != c || i != j)
    ensures v[b][i].key != v[c][j].key
  {
    assert Sound(v[b], b, m) && Sound(v[c], c, m);
    assert Stored(v[b][i], b, m) && Stored(v[c][j], c, m);
    if b == c {
      assert if i < j then Apart(v[b][i], v[b][j]) else Apart(v[b][j], v[b][i]);
    }
  }
}
