// What one check of the timer list means, on values: timeout.c's promise to its callbacks.

module TimerRuns {
  import opened CString

  // Identifiers are given out in order, so a larger one is a later timer.
  datatype Timer = Timer(id: nat, due: int, repeat: bool)

  // What a callback may do to the list while it runs
  datatype Act =
    | Add(now: int, delay: int, repeat: bool)
    | Del(id: nat)

  // What the callback of timer id does when it is the n-th to run
  type Script = (nat, nat) -> seq<Act>

  datatype State = State(list: seq<Timer>, next: nat, fired: seq<nat>)

  function Remove(list: seq<Timer>, id: nat): seq<Timer> {
    if list == [] then []
    else if list[0].id == id then Remove(list[1..], id)
    else [list[0]] + Remove(list[1..], id)
  }

  // add_timeout puts a timer first; del_timeout takes one out if it is there.
  function Apply(list: seq<Timer>, next: nat, a: Act): (seq<Timer>, nat) {
    match a
    case Add(now, delay, repeat) => ([Timer(next, now + delay, repeat)] + list, next + 1)
    case Del(id) => (Remove(list, id), next)
  }

  function Perform(list: seq<Timer>, next: nat, acts: seq<Act>): (seq<Timer>, nat)
    decreases |acts|
  {
    if acts == [] then (list, next)
    else
      var (l, n) := Apply(list, next, acts[0]);
      Perform(l, n, acts[1..])
  }

  function FirstBelow(list: seq<Timer>, bound: nat): (r: Option<Timer>)
    ensures r.Some? ==> r.value in list && r.value.id < bound
  {
    if list == [] then None
    else if list[0].id < bound then Some(list[0])
    else FirstBelow(list[1..], bound)
  }

  // The callback of t runs; then t leaves the list unless it repeats.
  function Fire(s: State, t: Timer, script: Script): State {
    var (l, n) := Perform(s.list, s.next, script(t.id, |s.fired|));
    State(if t.repeat then l else Remove(l, t.id), n, s.fired + [t.id])
  }

  // check_timeouts from the first timer below bound onwards
  function Visit(s: State, bound: nat, now: int, script: Script): State
    decreases bound
  {
    match FirstBelow(s.list, bound)
    case None => s
    case Some(t) => Visit(if now < t.due then s else Fire(s, t, script), t.id, now, script)
  }

  function Check(list: seq<Timer>, next: nat, now: int, script: Script): State {
    Visit(State(list, next, []), next, now, script)
  }

  ghost predicate Later(a: Timer, b: Timer) {
    a.id > b.id
  }

  // Newest first, and no identifier used yet is next or beyond.
  ghost predicate Ordered(list: seq<Timer>, next: nat) {
    && (forall t :: t in list ==> t.id < next)
    && (forall i, j {:trigger Later(list[i], list[j])} :: 0 <= i < j < |list| ==> Later(list[i], list[j]))
  }

  // No callback deletes the timer it runs for.
  ghost predicate Sparing(script: Script) {
    forall id, n :: Del(id) !in script(id, n)
  }

  // None of the callbacks that ran from the from-th on deletes timer id.
  ghost predicate Spared(id: nat, fired: seq<nat>, from: nat, script: Script) {
    forall n :: from <= n < |fired| ==> Del(id) !in script(fired[n], n)
  }

  // The same, of the callbacks of timers ahead of id in the list
  ghost predicate SparedAhead(id: nat, fired: seq<nat>, from: nat, script: Script) {
    forall n :: from <= n < |fired| && fired[n] > id ==> Del(id) !in script(fired[n], n)
  }

  lemma OrderedTail(list: seq<Timer>, next: nat)
    requires Ordered(list, next) && list != []
    ensures Ordered(list[1..], list[0].id)
  {
    forall t | t in list[1..]
      ensures t.id < list[0].id
    {
      var k :| 0 < k < |list| && list[k] == t;
      assert Later(list[0], list[k]);
    }
    forall i, j | 0 <= i < j < |list[1..]|
      ensures Later(list[1..][i], list[1..][j])
    {
      assert Later(list[i + 1], list[j + 1]);
    }
  }

  lemma OrderedCons(list: seq<Timer>, t: Timer, next: nat)
    requires Ordered(list, t.id) && t.id < next
    ensures Ordered([t] + list, next)
  {
    var l := [t] + list;
    forall i, j | 0 <= i < j < |l|
      ensures Later(l[i], l[j])
    {
      assert l[j] == list[j - 1] && (i > 0 ==> Later(list[i - 1], list[j - 1]));
    }
  }

  lemma SameTimer(list: seq<Timer>, next: nat, a: Timer, b: Timer)
    requires Ordered(list, next) && a in list && b in list && a.id == b.id
    ensures a == b
  {
    var i, j :| 0 <= i < |list| && 0 <= j < |list| && list[i] == a && list[j] == b;
    assert i < j ==> Later(list[i], list[j]);
    assert j < i ==> Later(list[j], list[i]);
  }

  lemma {:induction false} RemoveIn(list: seq<Timer>, id: nat)
    ensures forall t :: t in Remove(list, id) ==> t in list && t.id != id
    ensures forall t :: t in list && t.id != id ==> t in Remove(list, id)
  {
    if list != [] {
      RemoveIn(list[1..], id);
    }
  }

  lemma {:induction false} RemoveOrdered(list: seq<Timer>, id: nat, next: nat)
    requires Ordered(list, next)
    ensures Ordered(Remove(list, id), next)
  {
    if list != [] {
      OrderedTail(list, next);
      RemoveOrdered(list[1..], id, list[0].id);
      RemoveIn(list[1..], id);
      if list[0].id != id {
        OrderedCons(Remove(list[1..], id), list[0], next);
      }
    }
  }

  // A callback leaves the older timers that it does not delete.
  lemma {:induction false} PerformIn(list: seq<Timer>, next: nat, acts: seq<Act>)
    requires Ordered(list, next)
    ensures var (l, n) := Perform(list, next, acts); n >= next && Ordered(l, n)
    ensures forall t :: t in Perform(list, next, acts).0 && t.id < next ==> t in list && Del(t.id) !in acts
    ensures forall t :: t in list && Del(t.id) !in acts ==> t in Perform(list, next, acts).0
    decreases |acts|
  {
    if acts != [] {
      var (l, n) := Apply(list, next, acts[0]);
      match acts[0] {
        case Add(now, delay, repeat) => OrderedCons(list, Timer(next, now + delay, repeat), n);
        case Del(id) =>
          RemoveOrdered(list, id, next);
          RemoveIn(list, id);
      }
      PerformIn(l, n, acts[1..]);
    }
  }

  lemma FireIn(s: State, t: Timer, script: Script)
    requires Ordered(s.list, s.next) && t in s.list && Sparing(script)
    ensures var r := Fire(s, t, script); r.next >= s.next && Ordered(r.list, r.next)
    ensures forall x :: x in Fire(s, t, script).list && x.id < s.next ==>
              x in s.list && Del(x.id) !in script(t.id, |s.fired|) && (x.id == t.id ==> t.repeat)
    ensures forall x :: x in s.list && Del(x.id) !in script(t.id, |s.fired|) && (x.id == t.id ==> t.repeat) ==>
              x in Fire(s, t, script).list
  {
    PerformIn(s.list, s.next, script(t.id, |s.fired|));
    var (l, n) := Perform(s.list, s.next, script(t.id, |s.fired|));
    RemoveIn(l, t.id);
    RemoveOrdered(l, t.id, n);
  }

  lemma {:induction false} FirstBelowIsFirst(list: seq<Timer>, next: nat, bound: nat)
    requires Ordered(list, next)
    ensures var r := FirstBelow(list, bound);
            forall t :: t in list && t.id < bound ==> r.Some? && (t == r.value || t.id < r.value.id)
  {
    if list != [] {
      OrderedTail(list, next);
      FirstBelowIsFirst(list[1..], list[0].id, bound);
    }
  }

  // Each callback runs for a timer that was listed, newest first, at most once.
  lemma {:induction false} VisitFired(s: State, bound: nat, now: int, script: Script)
    requires Ordered(s.list, s.next) && bound <= s.next && Sparing(script)
    ensures var r := Visit(s, bound, now, script);
            && Ordered(r.list, r.next) && s.next <= r.next && s.fired <= r.fired
            && (forall n :: |s.fired| <= n < |r.fired| ==> r.fired[n] < bound)
            && (forall m, n :: |s.fired| <= m < n < |r.fired| ==> r.fired[m] > r.fired[n])
    decreases bound
  {
    var f := FirstBelow(s.list, bound);
    if f.Some? {
      FireIn(s, f.value, script);
      VisitFired(if now < f.value.due then s else Fire(s, f.value, script), f.value.id, now, script);
    }
  }

  ghost predicate Listed(id: nat, list: seq<Timer>) {
    exists t :: t in list && t.id == id
  }

  lemma {:induction false} VisitListed(s: State, bound: nat, now: int, script: Script)
    requires Ordered(s.list, s.next) && bound <= s.next && Sparing(script)
    ensures var r := Visit(s, bound, now, script);
            s.fired <= r.fired && forall n :: |s.fired| <= n < |r.fired| ==> Listed(r.fired[n], s.list)
    decreases bound
  {
    VisitFired(s, bound, now, script);
    var f := FirstBelow(s.list, bound);
    if f.Some? {
      var s' := if now < f.value.due then s else Fire(s, f.value, script);
      FireIn(s, f.value, script);
      VisitFired(s', f.value.id, now, script);
      VisitListed(s', f.value.id, now, script);
      var r := Visit(s, bound, now, script);
      forall n | |s.fired| <= n < |r.fired|
        ensures Listed(r.fired[n], s.list)
      {
        if n >= |s'.fired| {
          var t :| t in s'.list && t.id == r.fired[n];
          assert t in s.list;
        } else {
          assert r.fired[n] == f.value.id;
        }
      }
    }
  }

  // A listed timer runs exactly if it is due and no timer ahead of it deletes it first.
  lemma {:induction false} VisitExactly(s: State, bound: nat, now: int, script: Script, t: Timer)
    requires Ordered(s.list, s.next) && bound <= s.next && Sparing(script) && t.id < bound && t in s.list
    ensures s.fired <= Visit(s, bound, now, script).fired
    ensures var r := Visit(s, bound, now, script);
            t.id in r.fired[|s.fired|..] <==> t.due <= now && SparedAhead(t.id, r.fired, |s.fired|, script)
    decreases bound
  {
    VisitFired(s, bound, now, script);
    FirstBelowIsFirst(s.list, s.next, bound);
    var f := FirstBelow(s.list, bound).value;
    var r := Visit(s, bound, now, script);
    var s' := if now < f.due then s else Fire(s, f, script);
    FireIn(s, f, script);
    VisitFired(s', f.id, now, script);
    if f.due <= now {
      assert r.fired[|s.fired|] == f.id;
      assert r.fired[|s.fired|..] == [f.id] + r.fired[|s'.fired|..];
    }
    if t != f {
      if t in s'.list {
        VisitExactly(s', f.id, now, script, t);
      } else {
        VisitListed(s', f.id, now, script);
      }
    }
  }

  // A timer listed at the start is listed at the end exactly if no callback deleted it and it did
  // not run, or repeats.
  lemma {:induction false} VisitLeft(s: State, bound: nat, now: int, script: Script, t: Timer)
    requires Ordered(s.list, s.next) && bound <= s.next && Sparing(script) && t.id < s.next
    ensures s.fired <= Visit(s, bound, now, script).fired
    ensures var r := Visit(s, bound, now, script);
            t in r.list <==>
            t in s.list && Spared(t.id, r.fired, |s.fired|, script) && (t.id in r.fired[|s.fired|..] ==> t.repeat)
    decreases bound
  {
    VisitFired(s, bound, now, script);
    var f := FirstBelow(s.list, bound);
    if f.Some? {
      var r := Visit(s, bound, now, script);
      var s' := if now < f.value.due then s else Fire(s, f.value, script);
      FireIn(s, f.value, script);
      VisitFired(s', f.value.id, now, script);
      VisitLeft(s', f.value.id, now, script, t);
      if f.value.due <= now {
        assert r.fired[|s.fired|] == f.value.id;
        assert r.fired[|s.fired|..] == [f.value.id] + r.fired[|s'.fired|..];
        SparedSplit(t.id, r.fired, |s.fired|, script);
        assert t.id in r.fired[|s.fired|..] <==> t.id == f.value.id || t.id in r.fired[|s'.fired|..];
        assert t.id == f.value.id ==> t.id !in r.fired[|s'.fired|..];
        if t in s.list && t.id == f.value.id {
          SameTimer(s.list, s.next, t, f.value);
        }
      }
    }
  }

  lemma SparedSplit(id: nat, fired: seq<nat>, from: nat, script: Script)
    requires from < |fired|
    ensures Spared(id, fired, from, script) <==>
            Del(id) !in script(fired[from], from) && Spared(id, fired, from + 1, script)
  {
  }

  function Young(list: seq<Timer>, since: nat): seq<Timer> {
    if list == [] then []
    else if list[0].id >= since then [list[0]] + Young(list[1..], since)
    else Young(list[1..], since)
  }

  function Old(list: seq<Timer>, since: nat): seq<Timer> {
    if list == [] then []
    else if list[0].id < since then [list[0]] + Old(list[1..], since)
    else Old(list[1..], since)
  }

  // Everything the callbacks did, in order
  function AllActs(script: Script, fired: seq<nat>, from: nat): seq<Act>
    decreases |fired| - from
  {
    if from >= |fired| then [] else script(fired[from], from) + AllActs(script, fired, from + 1)
  }

  lemma {:induction false} OldAll(list: seq<Timer>, next: nat, since: nat)
    requires Ordered(list, next) && next <= since
    ensures Old(list, since) == list && Young(list, since) == []
  {
    if list != [] {
      OrderedTail(list, next);
      OldAll(list[1..], list[0].id, since);
    }
  }

  lemma {:induction false} YoungThenOld(list: seq<Timer>, next: nat, since: nat)
    requires Ordered(list, next)
    ensures list == Young(list, since) + Old(list, since)
  {
    if list != [] {
      OrderedTail(list, next);
      if list[0].id < since {
        OldAll(list[1..], list[0].id, since);
      } else {
        YoungThenOld(list[1..], list[0].id, since);
      }
    }
  }

  lemma {:induction false} YoungRemove(list: seq<Timer>, id: nat, since: nat)
    ensures Young(Remove(list, id), since) == Remove(Young(list, since), id)
    ensures id < since ==> Young(Remove(list, id), since) == Young(list, since)
  {
    if list != [] {
      YoungRemove(list[1..], id, since);
      if list[0].id != id {
        assert Remove(list, id)[1..] == Remove(list[1..], id);
      }
      if list[0].id >= since {
        assert Young(list, since)[1..] == Young(list[1..], since);
      }
    }
  }

  lemma {:induction false} PerformYoung(list: seq<Timer>, next: nat, acts: seq<Act>, since: nat)
    requires since <= next
    ensures Young(Perform(list, next, acts).0, since) == Perform(Young(list, since), next, acts).0
    ensures Perform(list, next, acts).1 == Perform(Young(list, since), next, acts).1
    ensures next <= Perform(list, next, acts).1
    decreases |acts|
  {
    if acts != [] {
      var (l, n) := Apply(list, next, acts[0]);
      match acts[0] {
        case Add(now, delay, repeat) => assert l[1..] == list;
        case Del(id) => YoungRemove(list, id, since);
      }
      assert Young(l, since) == Apply(Young(list, since), next, acts[0]).0;
      PerformYoung(l, n, acts[1..], since);
    }
  }

  lemma {:induction false} PerformConcat(list: seq<Timer>, next: nat, a: seq<Act>, b: seq<Act>)
    ensures var (l, n) := Perform(list, next, a); Perform(list, next, a + b) == Perform(l, n, b)
    decreases |a|
  {
    if a == [] {
      assert a + b == b;
    } else {
      var (l, n) := Apply(list, next, a[0]);
      assert (a + b)[0] == a[0] && (a + b)[1..] == a[1..] + b;
      PerformConcat(l, n, a[1..], b);
    }
  }

  lemma FireYoung(s: State, t: Timer, script: Script, since: nat)
    requires t.id < since <= s.next
    ensures var r := Fire(s, t, script);
            (Young(r.list, since), r.next) == Perform(Young(s.list, since), s.next, script(t.id, |s.fired|))
  {
    var acts := script(t.id, |s.fired|);
    PerformYoung(s.list, s.next, acts, since);
    YoungRemove(Perform(s.list, s.next, acts).0, t.id, since);
  }

  // What the callbacks leave between them, if another has run before
  lemma FireThenYoung(s: State, t: Timer, script: Script, since: nat, fired: seq<nat>, young: seq<Timer>)
    requires t.id < since <= s.next && s.fired + [t.id] <= fired
    requires var r := Fire(s, t, script); young == Perform(Young(r.list, since), r.next, AllActs(script, fired, |r.fired|)).0
    ensures young == Perform(Young(s.list, since), s.next, AllActs(script, fired, |s.fired|)).0
  {
    var n := |s.fired|;
    FireYoung(s, t, script, since);
    PerformConcat(Young(s.list, since), s.next, script(t.id, n), AllActs(script, fired, n + 1));
    assert (s.fired + [t.id])[n] == t.id && fired[n] == t.id;
  }

  // The timers added during the run are those the callbacks leave between them.
  lemma {:induction false} VisitYoung(s: State, bound: nat, now: int, script: Script, since: nat)
    requires Ordered(s.list, s.next) && bound <= since <= s.next && Sparing(script)
    ensures var r := Visit(s, bound, now, script);
            s.fired <= r.fired &&
            Young(r.list, since) == Perform(Young(s.list, since), s.next, AllActs(script, r.fired, |s.fired|)).0
    decreases bound
  {
    VisitFired(s, bound, now, script);
    var f := FirstBelow(s.list, bound);
    if f.Some? {
      var r := Visit(s, bound, now, script);
      var s' := if now < f.value.due then s else Fire(s, f.value, script);
      FireIn(s, f.value, script);
      VisitFired(s', f.value.id, now, script);
      VisitYoung(s', f.value.id, now, script, since);
      if f.value.due <= now {
        FireThenYoung(s, f.value, script, since, r.fired, Young(r.list, since));
      }
    }
  }

  // The timers of list that no callback deleted and that did not run, or repeat; in order
  ghost function Survivors(list: seq<Timer>, fired: seq<nat>, script: Script): seq<Timer> {
    if list == [] then []
    else
      var t := list[0];
      (if Spared(t.id, fired, 0, script) && (t.id in fired ==> t.repeat) then [t] else [])
      + Survivors(list[1..], fired, script)
  }

  lemma {:induction false} SurvivorsAre(list: seq<Timer>, next: nat, left: seq<Timer>, last: nat, fired: seq<nat>, script: Script)
    requires Ordered(list, next) && Ordered(left, last)
    requires forall t :: t in left ==> t in list && Spared(t.id, fired, 0, script) && (t.id in fired ==> t.repeat)
    requires forall t :: t in list && Spared(t.id, fired, 0, script) && (t.id in fired ==> t.repeat) ==> t in left
    ensures left == Survivors(list, fired, script)
  {
    if list != [] {
      OrderedTail(list, next);
      var t := list[0];
      if Spared(t.id, fired, 0, script) && (t.id in fired ==> t.repeat) {
        assert t in left;
        OrderedTail(left, last);
        assert left[0] == t by {
          assert left[0] in list;
        }
        SurvivorsAre(list[1..], t.id, left[1..], t.id, fired, script);
      } else {
        SurvivorsAre(list[1..], t.id, left, last, fired, script);
      }
    }
  }

  lemma {:induction false} OldIn(list: seq<Timer>, since: nat)
    ensures forall t :: t in Old(list, since) ==> t in list && t.id < since
    ensures forall t :: t in list && t.id < since ==> t in Old(list, since)
  {
    if list != [] {
      OldIn(list[1..], since);
    }
  }

  lemma {:induction false} OldOrdered(list: seq<Timer>, next: nat, since: nat)
    requires Ordered(list, next)
    ensures Ordered(Old(list, since), next)
  {
    if list != [] {
      OrderedTail(list, next);
      if list[0].id < since {
        OldAll(list[1..], list[0].id, since);
      } else {
        OldOrdered(list[1..], list[0].id, since);
      }
    }
  }

  // One check of the list, for any callbacks that spare themselves.
  lemma CheckMeaning(list: seq<Timer>, next: nat, now: int, script: Script)
    requires Ordered(list, next) && Sparing(script)
    ensures var r := Check(list, next, now, script);
            // the callbacks that run are those of timers listed at the start, in list order, each once;
            && (forall n :: 0 <= n < |r.fired| ==> r.fired[n] < next && Listed(r.fired[n], list))
            && (forall m, n :: 0 <= m < n < |r.fired| ==> r.fired[m] > r.fired[n])
            // a timer runs exactly if it is due and no timer ahead of it deletes it;
            && (forall t :: t in list ==> (t.id in r.fired <==> t.due <= now && SparedAhead(t.id, r.fired, 0, script)))
            // the added timers that remain come first, then the old ones that remain.
            && r.list == Perform([], next, AllActs(script, r.fired, 0)).0 + Survivors(list, r.fired, script)
  {
    var s, r := State(list, next, []), Check(list, next, now, script);
    VisitFired(s, next, now, script);
    VisitListed(s, next, now, script);
    forall t | t in list
      ensures t.id in r.fired <==> t.due <= now && SparedAhead(t.id, r.fired, 0, script)
    {
      VisitExactly(s, next, now, script, t);
      assert r.fired[0..] == r.fired;
    }
    VisitYoung(s, next, now, script, next);
    OldAll(list, next, next);
    YoungThenOld(r.list, r.next, next);
    OldOrdered(r.list, r.next, next);
    OldIn(r.list, next);
    forall t: Timer | t.id < next
      ensures t in r.list <==> t in list && Spared(t.id, r.fired, 0, script) && (t.id in r.fired ==> t.repeat)
    {
      VisitLeft(s, next, now, script, t);
      assert r.fired[0..] == r.fired;
    }
    SurvivorsAre(list, next, Old(r.list, next), r.next, r.fired, script);
  }
}
