// timeout.c: the list of timers, walked while callbacks add to it and delete from it.

module Timeouts {
  import opened TimerRuns

  class Timeout {
    var next: Timeout?
    var prev: Timeout?
    const id: nat   // stands for the address of the timer; addresses are not reused here
    const settime: int
    const timeout: int
    const repeat: bool

    constructor (id: nat, settime: int, delay: int, repeat: bool)
      ensures this.id == id && this.settime == settime && timeout == settime + delay && this.repeat == repeat
      ensures next == null && prev == null
    {
      this.id, this.settime, timeout, this.repeat := id, settime, settime + delay, repeat;
      next, prev := null, null;
    }
  }

  ghost function Value(t: Timeout): Timer {
    Timer(t.id, t.timeout, t.repeat)
  }

  ghost function Values(list: seq<Timeout>): seq<Timer> {
    if list == [] then [] else [Value(list[0])] + Values(list[1..])
  }

  ghost function At(list: seq<Timeout>, i: nat): Timeout? {
    if i < |list| then list[i] else null
  }

  ghost function Before(list: seq<Timeout>, i: nat): Timeout? {
    if 0 < i <= |list| then list[i-1] else null
  }

  ghost predicate Above(a: Timeout, b: Timeout) {
    a.id > b.id
  }

  ghost predicate Newest(list: seq<Timeout>) {
    forall i, j {:trigger Above(list[i], list[j])} :: 0 <= i < j < |list| ==> Above(list[i], list[j])
  }

  ghost predicate Linked(list: seq<Timeout>, head: Timeout?)
    reads list`next, list`prev
  {
    && head == At(list, 0)
    && Newest(list)
    && (forall i {:trigger list[i].next} :: 0 <= i < |list| ==> list[i].next == At(list, i + 1))
    && (forall i {:trigger list[i].prev} :: 0 <= i < |list| ==> list[i].prev == Before(list, i))
  }

  lemma Apart(list: seq<Timeout>, k: nat)
    requires Newest(list) && k < |list|
    ensures forall i :: 0 <= i < |list| && i != k ==> list[i].id != list[k].id
  {
    forall i | 0 <= i < |list| && i != k
      ensures list[i].id != list[k].id
    {
      assert if i < k then Above(list[i], list[k]) else Above(list[k], list[i]);
    }
  }

  lemma NewestWithout(list: seq<Timeout>, k: nat)
    requires Newest(list) && k < |list|
    ensures Newest(list[..k] + list[k+1..])
  {
    var l := list[..k] + list[k+1..];
    forall i, j | 0 <= i < j < |l|
      ensures Above(l[i], l[j])
    {
      assert Above(list[if i < k then i else i + 1], list[if j < k then j else j + 1]);
    }
  }

  // Once the neighbours of the k-th timer point past it, the list without it is linked.
  lemma Spliced(list: seq<Timeout>, k: nat, head: Timeout?)
    requires Newest(list) && k < |list|
    requires head == if k == 0 then At(list, 1) else At(list, 0)
    requires forall i {:trigger list[i].next} :: 0 <= i < |list| ==>
               list[i].next == At(list, if i + 1 == k then k + 1 else i + 1)
    requires forall i {:trigger list[i].prev} :: 0 <= i < |list| ==>
               list[i].prev == Before(list, if i == k + 1 then k else i)
    ensures Linked(list[..k] + list[k+1..], head)
  {
    var l := list[..k] + list[k+1..];
    NewestWithout(list, k);
    forall i | 0 <= i < |l|
      ensures l[i].next == At(l, i + 1) && l[i].prev == Before(l, i)
    {
      var o := if i < k then i else i + 1;
      assert l[i] == list[o] && list[o].next == list[o].next && list[o].prev == list[o].prev;
    }
  }

  lemma {:induction false} ValuesAt(list: seq<Timeout>)
    ensures |Values(list)| == |list| && forall i :: 0 <= i < |list| ==> Values(list)[i] == Value(list[i])
  {
    if list != [] {
      ValuesAt(list[1..]);
    }
  }

  lemma {:induction false} ValuesConcat(a: seq<Timeout>, b: seq<Timeout>)
    ensures Values(a + b) == Values(a) + Values(b)
  {
    if a == [] {
      assert a + b == b;
    } else {
      ValuesConcat(a[1..], b);
      assert (a + b)[0] == a[0] && (a + b)[1..] == a[1..] + b;
      assert [Value(a[0])] + (Values(a[1..]) + Values(b)) == ([Value(a[0])] + Values(a[1..])) + Values(b);
    }
  }

  lemma {:induction false} RemoveConcat(a: seq<Timer>, b: seq<Timer>, id: nat)
    ensures Remove(a + b, id) == Remove(a, id) + Remove(b, id)
  {
    if a == [] {
      assert a + b == b;
    } else {
      RemoveConcat(a[1..], b, id);
      assert (a + b)[0] == a[0] && (a + b)[1..] == a[1..] + b;
    }
  }

  lemma {:induction false} RemoveNone(list: seq<Timeout>, id: nat)
    requires forall t :: t in list ==> t.id != id
    ensures Remove(Values(list), id) == Values(list)
  {
    if list != [] {
      RemoveNone(list[1..], id);
    }
  }

  lemma ValuesRemove(list: seq<Timeout>, k: nat)
    requires Newest(list) && k < |list|
    ensures Values(list[..k] + list[k+1..]) == Remove(Values(list), list[k].id)
  {
    var t, a, b := list[k], list[..k], list[k+1..];
    Apart(list, k);
    assert list == a + ([t] + b);
    ValuesRemoveParts(a, t, b);
  }

  lemma ValuesRemoveParts(a: seq<Timeout>, t: Timeout, b: seq<Timeout>)
    requires forall x :: x in a ==> x.id != t.id
    requires forall x :: x in b ==> x.id != t.id
    ensures Values(a + b) == Remove(Values(a + ([t] + b)), t.id)
  {
    RemoveNone(a, t.id);
    RemoveNone(b, t.id);
    ValuesConcat(a, [t] + b);
    ValuesConcat(a, b);
    ValuesCons(t, b);
    RemoveConcat(Values(a), [Value(t)] + Values(b), t.id);
    RemoveHead(Value(t), Values(b));
  }

  lemma RemoveHead(t: Timer, list: seq<Timer>)
    ensures Remove([t] + list, t.id) == Remove(list, t.id)
  {
    assert ([t] + list)[1..] == list;
  }

  lemma ValuesCons(t: Timeout, list: seq<Timeout>)
    ensures Values([t] + list) == [Value(t)] + Values(list)
  {
    assert ([t] + list)[1..] == list;
  }

  lemma ValuesOrdered(list: seq<Timeout>, next: nat)
    requires Newest(list) && forall t :: t in list ==> t.id < next
    ensures Ordered(Values(list), next)
  {
    ValuesAt(list);
    var vs := Values(list);
    forall i, j | 0 <= i < j < |vs|
      ensures Later(vs[i], vs[j])
    {
      assert Above(list[i], list[j]);
    }
  }

  class TimeoutList {
    var timeouts: Timeout?
    var issued: seq<Timeout>   // the pointers that callbacks may hold, by id
    ghost var list: seq<Timeout>

    constructor ()
      ensures Valid() && list == [] && issued == []
    {
      timeouts, issued, list := null, [], [];
    }

    ghost function Pool(): set<Timeout>
      reads this`issued
    {
      set t | t in issued
    }

    ghost predicate Valid()
      reads this, list`next, list`prev
    {
      && Linked(list, timeouts)
      && (forall i :: 0 <= i < |issued| ==> issued[i].id == i)
      && (forall t :: t in list ==> t in issued)
    }

    // The surgery that del_timeout and check_timeouts share
    method Unlink(t: Timeout, ghost k: nat)
      requires Linked(list, timeouts) && k < |list| && list[k] == t
      modifies this`timeouts, this`list, list`next, list`prev
      ensures Linked(list, timeouts) && list == old(list[..k] + list[k+1..])
      ensures forall x :: x in list ==> x in old(list)
    {
      if k > 0 {
        Apart(list, k - 1);
      }
      if k + 1 < |list| {
        Apart(list, k + 1);
      }
      if t.next != null {
        t.next.prev := t.prev;
      }
      if t.prev != null {
        t.prev.next := t.next;
      } else {
        timeouts := t.next;
      }
      Spliced(list, k, timeouts);
      list := list[..k] + list[k+1..];
    }

    // The surgery of add_timeout
    method Push(t: Timeout)
      requires Linked(list, timeouts) && t !in list && t.prev == null && forall x :: x in list ==> x.id < t.id
      modifies this`timeouts, this`list, t`next, list`prev
      ensures Linked(list, timeouts) && list == [t] + old(list)
    {
      t.next := timeouts;
      if timeouts != null {
        timeouts.prev := t;
      }
      timeouts := t;
      ghost var was := list;
      NewestCons(was, t);
      list := [t] + list;
      forall i | 0 <= i < |list|
        ensures list[i].next == At(list, i + 1)
      {
        assert i > 0 ==> old(was[i-1].next) == At(was, i);
      }
      forall i | 0 <= i < |list|
        ensures list[i].prev == Before(list, i)
      {
        assert i > 0 ==> old(was[i-1].prev) == Before(was, i - 1);
      }
    }

    // add_timeout
    method AddTimeout(now: int, delay: int, repeat: bool) returns (t: Timeout)
      requires Valid()
      modifies this, list`prev
      ensures Valid() && fresh(t) && issued == old(issued) + [t]
      ensures Values(list) == [Timer(|old(issued)|, now + delay, repeat)] + old(Values(list))
    {
      t := new Timeout(|issued|, now, delay, repeat);
      ValuesCons(t, list);
      Push(t);
      issued := issued + [t];
    }

    // del_timeout: nothing happens if t is not in the list.
    method DelTimeout(t: Timeout)
      requires Valid() && t in issued
      modifies this`timeouts, this`list, list`next, list`prev
      ensures Valid() && Values(list) == Remove(old(Values(list)), t.id)
      ensures forall x :: x in list ==> x in old(list)
    {
      var ptr := timeouts;
      ghost var k := 0;
      while ptr != null && ptr != t
        invariant k <= |list| && ptr == At(list, k)
        invariant forall i :: 0 <= i < k ==> list[i] != t
        decreases |list| - k
      {
        ptr := ptr.next;
        k := k + 1;
      }
      if ptr == null {
        assert t !in list;
        IdsDiffer(t);
        RemoveNone(list, t.id);
        return;
      }
      ValuesRemove(list, k);
      Unlink(t, k);
    }

    lemma IdsDiffer(t: Timeout)
      requires Valid() && t in issued && t !in list
      ensures forall x :: x in list ==> x.id != t.id
    {
    }

    // What a callback does: any additions and deletions, in any order.
    method RunCode(acts: seq<Act>)
      requires Valid()
      modifies this, Pool()`next, Pool()`prev
      ensures Valid() && old(issued) <= issued
      ensures forall t :: t in issued ==> t in old(issued) || fresh(t)
      ensures (Values(list), |issued|) == Perform(old(Values(list)), old(|issued|), acts)
    {
      var i := 0;
      while i < |acts|
        invariant 0 <= i <= |acts| && Valid() && old(issued) <= issued
        invariant forall t :: t in issued ==> t in old(issued) || fresh(t)
        invariant Perform(Values(list), |issued|, acts[i..]) == Perform(old(Values(list)), old(|issued|), acts)
      {
        assert forall t :: t in list ==> t in old(Pool()) || fresh(t);
        assert acts[i..][0] == acts[i] && acts[i..][1..] == acts[i+1..];
        match acts[i] {
          case Add(now, delay, repeat) =>
            var t := AddTimeout(now, delay, repeat);
          case Del(id) =>
            if id < |issued| {
              DelTimeout(issued[id]);
            } else {
              RemoveNone(list, id);
            }
        }
        i := i + 1;
      }
    }

    // The callback spares the timer it runs for.
    lemma StillListed(to: Timeout, acts: seq<Act>, was: seq<Timeout>, next: nat) returns (k: nat)
      requires Valid() && next <= |issued| && Newest(was) && to in was && to in issued && Del(to.id) !in acts
      requires forall t :: t in was ==> t.id < next
      requires Values(list) == Perform(Values(was), next, acts).0
      ensures k < |list| && list[k] == to
    {
      ValuesOrdered(was, next);
      ValuesAt(was);
      ValuesAt(list);
      PerformIn(Values(was), next, acts);
      var j :| 0 <= j < |was| && was[j] == to;
      assert Values(was)[j] == Value(to);
      assert Value(to) in Values(list);
      k :| 0 <= k < |list| && Values(list)[k] == Value(to);
      assert list[k] in issued;
    }

    // One due timer of check_timeouts: its callback, then its removal unless it repeats.
    method RunOne(to: Timeout, acts: seq<Act>, ghost k: nat) returns (following: Timeout?, ghost p: nat)
      requires Valid() && k < |list| && list[k] == to && Del(to.id) !in acts
      modifies this, Pool()`next, Pool()`prev
      ensures Valid() && old(issued) <= issued
      ensures forall t :: t in issued ==> t in old(issued) || fresh(t)
      ensures var (l, n) := Perform(old(Values(list)), old(|issued|), acts);
              Values(list) == (if to.repeat then l else Remove(l, to.id)) && |issued| == n
      ensures p <= |list| && following == At(list, p)
      ensures forall i :: 0 <= i < p ==> list[i].id >= to.id
      ensures forall i :: p <= i < |list| ==> list[i].id < to.id
    {
      RunCode(acts);
      p := StillListed(to, acts, old(list), old(|issued|));
      Split(list, p);
      if to.repeat {
        following := to.next;
        p := p + 1;
        return;
      }
      following := to.next;
      ValuesRemove(list, p);
      Unlink(to, p);
    }

    // check_timeouts
    method CheckTimeouts(now: int, script: Script) returns (fired: seq<nat>)
      requires Valid() && Sparing(script)
      modifies this, Pool()`next, Pool()`prev
      ensures Valid() && old(issued) <= issued
      ensures forall t :: t in issued ==> t in old(issued) || fresh(t)
      ensures State(Values(list), |issued|, fired) == Check(old(Values(list)), old(|issued|), now, script)
    {
      fired := [];
      var to := timeouts;
      ghost var p: nat, bound: nat := 0, |issued|;
      assert forall t :: t in list ==> t.id < |issued|;
      while to != null
        invariant Valid() && old(issued) <= issued
        invariant forall t :: t in issued ==> t in old(issued) || fresh(t)
        invariant p <= |list| && to == At(list, p)
        invariant forall i :: 0 <= i < p ==> list[i].id >= bound
        invariant forall i :: p <= i < |list| ==> list[i].id < bound
        invariant Visit(State(Values(list), |issued|, fired), bound, now, script)
               == Check(old(Values(list)), old(|issued|), now, script)
        decreases bound
      {
        FirstAt(list, p, bound);
        Split(list, p);
        bound := to.id;
        if now < to.timeout {
          to := to.next;
          p := p + 1;
          continue;
        }
        ghost var s, t := State(Values(list), |issued|, fired), Value(to);
        var acts := script(to.id, |fired|);
        fired := fired + [to.id];
        to, p := RunOne(to, acts, p);
        assert State(Values(list), |issued|, fired) == Fire(s, t, script);
      }
      FirstNone(list, bound);
    }
  }

  lemma Split(list: seq<Timeout>, p: nat)
    requires Newest(list) && p < |list|
    ensures forall i :: 0 <= i < p ==> list[i].id > list[p].id
    ensures forall i :: p < i < |list| ==> list[i].id < list[p].id
  {
    forall i | 0 <= i < p
      ensures list[i].id > list[p].id
    {
      assert Above(list[i], list[p]);
    }
    forall i | p < i < |list|
      ensures list[i].id < list[p].id
    {
      assert Above(list[p], list[i]);
    }
  }

  lemma {:induction false} FirstAt(list: seq<Timeout>, p: nat, bound: nat)
    requires p < |list| && list[p].id < bound && forall i :: 0 <= i < p ==> list[i].id >= bound
    ensures FirstBelow(Values(list), bound).Some? && FirstBelow(Values(list), bound).value == Value(list[p])
  {
    if p > 0 {
      FirstAt(list[1..], p - 1, bound);
    }
  }

  lemma {:induction false} FirstNone(list: seq<Timeout>, bound: nat)
    requires forall t :: t in list ==> t.id >= bound
    ensures FirstBelow(Values(list), bound).None?
  {
    if list != [] {
      FirstNone(list[1..], bound);
    }
  }

  lemma NewestCons(list: seq<Timeout>, t: Timeout)
    requires Newest(list) && forall x :: x in list ==> x.id < t.id
    ensures Newest([t] + list)
  {
    var l := [t] + list;
    forall i, j | 0 <= i < j < |l|
      ensures Above(l[i], l[j])
    {
      assert l[j] == list[j-1];
      assert i > 0 ==> Above(list[i-1], list[j-1]);
    }
  }
}
