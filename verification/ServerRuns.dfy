// Runs of SERVER and SQUIT messages: what servers.c does to its linked servers, told by name.

module ServerRuns {
  import opened CString
  import opened Servers

  // One server as the rest of the program sees it: its hub is given by name.
  datatype Entry = Entry(name: string, numeric: string, users: int, hub: Option<string>)

  datatype Msg =
    | SERVER(source: string, name: string, numeric: string)
    | SQUIT(name: string)

  function Find(net: seq<Entry>, name: string): Option<Entry> {
    if net == [] then None
    else if SameName(name, net[0].name) then Some(net[0])
    else Find(net[1..], name)
  }

  function FindNumeric(net: seq<Entry>, numeric: string): Option<Entry> {
    if net == [] then None
    else if SameLead(numeric, net[0].numeric) then Some(net[0])
    else FindNumeric(net[1..], numeric)
  }

  // Entries that differ in what they are looked up by
  ghost predicate Distinct(p10: bool, net: seq<Entry>) {
    forall a, b :: a in net && b in net && (if p10 then SameLead(a.numeric, b.numeric) else SameName(a.name, b.name)) ==> a == b
  }

  // The names that go when s goes. Newest first, so a hub is always further on.
  function Fallen(net: seq<Entry>, s: string): set<string> {
    if net == [] then {}
    else
      var rest := Fallen(net[1..], s);
      if net[0].name == s || (net[0].hub.Some? && net[0].hub.value in rest) then rest + {net[0].name} else rest
  }

  function Keep(net: seq<Entry>, gone: set<string>): seq<Entry> {
    if net == [] then []
    else if net[0].name in gone then Keep(net[1..], gone)
    else [net[0]] + Keep(net[1..], gone)
  }

  function FindHub(p10: bool, net: seq<Entry>, source: string): Option<Entry> {
    if p10 then FindNumeric(net, source) else Find(net, source)
  }

  function HubName(p10: bool, net: seq<Entry>, source: string, name: string): Option<string> {
    if source == "" then Some(name)
    else match FindHub(p10, net, source)
      case None => None
      case Some(e) => Some(e.name)
  }

  function Step(p10: bool, net: seq<Entry>, m: Msg): seq<Entry> {
    match m
    case SERVER(source, name, numeric) => [Entry(name, numeric, 0, HubName(p10, net, source, name))] + net
    case SQUIT(name) =>
      match Find(net, name)
      case None => net
      case Some(e) => if e.hub == None then net else Keep(net, Fallen(net, e.name))
  }

  predicate Childless(net: seq<Entry>, name: string) {
    net == [] || (net[0].hub != Some(name) && Childless(net[1..], name))
  }

  // Names are fresh, under P10 numerics too. A server that is squit hangs from another one, or has
  // neither a hub nor servers below it.
  predicate Admissible(p10: bool, net: seq<Entry>, m: Msg) {
    match m
    case SERVER(source, name, numeric) =>
      && Find(net, name) == None && (p10 ==> FindNumeric(net, numeric) == None)
      && (source == "" || !(if p10 then SameLead(source, numeric) else SameName(source, name)))
    case SQUIT(name) =>
      match Find(net, name)
      case None => true
      case Some(e) => if e.hub == None then Childless(net, e.name) else e.hub.value != e.name
  }

  function After(p10: bool, net: seq<Entry>, msgs: seq<Msg>): seq<Entry>
    decreases |msgs|
  {
    if msgs == [] then net else After(p10, Step(p10, net, msgs[0]), msgs[1..])
  }

  predicate AdmissibleRun(p10: bool, net: seq<Entry>, msgs: seq<Msg>)
    decreases |msgs|
  {
    msgs == [] || (Admissible(p10, net, msgs[0]) && AdmissibleRun(p10, Step(p10, net, msgs[0]), msgs[1..]))
  }

  // A new server comes first, and hangs from the server that its source names: by name, or under P10 by the
  // first character of its numeric.
  lemma HubFound(p10: bool, net: seq<Entry>, source: string, name: string, numeric: string, e: Entry)
    requires source != "" && e in net && Distinct(p10, net)
    requires if p10 then SameLead(source, e.numeric) else SameName(source, e.name)
    ensures Step(p10, net, SERVER(source, name, numeric)) == [Entry(name, numeric, 0, Some(e.name))] + net
  {
    FindIn(net, source);
    FindNumericIn(net, source);
  }

  // Names differ, and a hub is the server itself or an older one.
  ghost predicate WellFormed(net: seq<Entry>) {
    net == [] ||
    (&& WellFormed(net[1..])
     && Find(net[1..], net[0].name) == None
     && (net[0].hub == None || net[0].hub == Some(net[0].name) || exists e :: e in net[1..] && net[0].hub == Some(e.name)))
  }

  ghost function Names(net: seq<Entry>): set<string> {
    set e | e in net :: e.name
  }

  // A chain of hubs from x up to s
  ghost predicate Climbs(net: seq<Entry>, path: seq<string>) {
    && |path| > 0 && path[0] in Names(net)
    && forall i :: 0 <= i < |path| - 1 ==> HangsFrom(net, path[i], path[i + 1])
  }

  ghost predicate HangsFrom(net: seq<Entry>, x: string, h: string) {
    exists e :: e in net && e.name == x && e.hub == Some(h)
  }

  ghost predicate Reaches(net: seq<Entry>, x: string, s: string) {
    exists path :: Climbs(net, path) && path[0] == x && path[|path| - 1] == s
  }

  lemma {:induction false} FindIn(net: seq<Entry>, name: string)
    ensures match Find(net, name)
            case None => forall e :: e in net ==> !SameName(name, e.name)
            case Some(e) => e in net && SameName(name, e.name)
  {
    if net != [] {
      FindIn(net[1..], name);
    }
  }

  lemma {:induction false} FindNumericIn(net: seq<Entry>, numeric: string)
    ensures match FindNumeric(net, numeric)
            case None => forall e :: e in net ==> !SameLead(numeric, e.numeric)
            case Some(e) => e in net && SameLead(numeric, e.numeric)
  {
    if net != [] {
      FindNumericIn(net[1..], numeric);
    }
  }

  lemma {:induction false} HubListed(net: seq<Entry>, e: Entry)
    requires WellFormed(net) && e in net
    ensures e.hub == None || e.hub == Some(e.name) || e.hub.value in Names(net)
    ensures Find(net, e.name) == Some(e)
  {
    if e != net[0] {
      HubListed(net[1..], e);
      FindIn(net[1..], net[0].name);
      assert Names(net[1..]) <= Names(net);
    }
  }

  lemma {:induction false} FallenListed(net: seq<Entry>, s: string)
    ensures Fallen(net, s) <= Names(net)
    ensures s in Names(net) ==> s in Fallen(net, s)
  {
    if net != [] {
      FallenListed(net[1..], s);
      assert Names(net) == {net[0].name} + Names(net[1..]);
    }
  }

  // A server whose hub goes, goes.
  lemma {:induction false} FallenClosed(net: seq<Entry>, s: string, e: Entry)
    requires WellFormed(net) && e in net && e.hub.Some? && e.hub.value in Fallen(net, s)
    ensures e.name in Fallen(net, s)
  {
    if e != net[0] {
      FindIn(net[1..], net[0].name);
      HubListed(net[1..], e);
      if e.hub.value == e.name {
      } else {
        assert e.hub.value != net[0].name;
        FallenClosed(net[1..], s, e);
      }
    }
  }

  lemma {:induction false} ClimbFallen(net: seq<Entry>, path: seq<string>, s: string)
    requires WellFormed(net) && Climbs(net, path) && s in Names(net) && path[|path| - 1] == s
    ensures path[0] in Fallen(net, s)
    decreases |path|
  {
    FallenListed(net, s);
    if |path| > 1 {
      assert HangsFrom(net, path[0], path[1]);
      var e :| e in net && e.name == path[0] && e.hub == Some(path[1]);
      HubListed(net, e);
      forall i | 0 <= i < |path[1..]| - 1
        ensures HangsFrom(net, path[1..][i], path[1..][i + 1])
      {
        assert HangsFrom(net, path[i + 1], path[i + 2]);
      }
      ClimbFallen(net, path[1..], s);
      FallenClosed(net, s, e);
    }
  }

  lemma ClimbIn(net: seq<Entry>, e: Entry, path: seq<string>)
    requires Climbs(net, path)
    ensures Climbs([e] + net, path)
    ensures e.hub == Some(path[0]) ==> Climbs([e] + net, [e.name] + path)
  {
    var more := [e] + net;
    assert more[0] == e && forall x :: x in net ==> x in more;
    forall i | 0 <= i < |path| - 1
      ensures HangsFrom(more, path[i], path[i + 1])
    {
      assert HangsFrom(net, path[i], path[i + 1]);
    }
    if e.hub == Some(path[0]) {
      var longer := [e.name] + path;
      assert HangsFrom(more, e.name, path[0]);
      forall i | 0 <= i < |longer| - 1
        ensures HangsFrom(more, longer[i], longer[i + 1])
      {
        assert i > 0 ==> HangsFrom(more, path[i - 1], path[i]);
      }
    }
  }

  lemma {:induction false} FallenClimbs(net: seq<Entry>, x: string, s: string)
    requires WellFormed(net) && x in Fallen(net, s)
    ensures Reaches(net, x, s)
  {
    var e := net[0];
    assert net == [e] + net[1..];
    if x in Fallen(net[1..], s) {
      FallenClimbs(net[1..], x, s);
      var path :| Climbs(net[1..], path) && path[0] == x && path[|path| - 1] == s;
      ClimbIn(net[1..], e, path);
    } else if e.name == s {
      assert Climbs(net, [s]);
    } else {
      FallenClimbs(net[1..], e.hub.value, s);
      var path :| Climbs(net[1..], path) && path[0] == e.hub.value && path[|path| - 1] == s;
      ClimbIn(net[1..], e, path);
      assert ([e.name] + path)[|path|] == s;
    }
  }

  // SQUIT removes exactly the servers from which a chain of hubs leads up to s.
  lemma FallenIsSubtree(net: seq<Entry>, s: string, x: string)
    requires WellFormed(net) && s in Names(net)
    ensures x in Fallen(net, s) <==> Reaches(net, x, s)
  {
    if x in Fallen(net, s) {
      FallenClimbs(net, x, s);
    }
    if Reaches(net, x, s) {
      var path :| Climbs(net, path) && path[0] == x && path[|path| - 1] == s;
      ClimbFallen(net, path, s);
    }
  }

  lemma {:induction false} KeepSame(net: seq<Entry>, a: set<string>, b: set<string>)
    requires forall e :: e in net ==> (e.name in a <==> e.name in b)
    ensures Keep(net, a) == Keep(net, b)
  {
    if net != [] {
      KeepSame(net[1..], a, b);
    }
  }

  lemma {:induction false} KeepIn(net: seq<Entry>, gone: set<string>)
    ensures forall e :: e in Keep(net, gone) ==> e in net && e.name !in gone
    ensures forall e :: e in net && e.name !in gone ==> e in Keep(net, gone)
  {
    if net != [] {
      KeepIn(net[1..], gone);
    }
  }

  lemma FallenTail(net: seq<Entry>, s: string)
    requires WellFormed(net) && net != []
    ensures Keep(net[1..], Fallen(net, s)) == Keep(net[1..], Fallen(net[1..], s))
  {
    FindIn(net[1..], net[0].name);
    KeepSame(net[1..], Fallen(net, s), Fallen(net[1..], s));
  }

  lemma {:induction false} SquitWell(net: seq<Entry>, s: string)
    requires WellFormed(net)
    ensures WellFormed(Keep(net, Fallen(net, s)))
  {
    if net != [] {
      var e, rest := net[0], net[1..];
      SquitWell(rest, s);
      FallenTail(net, s);
      if e.name !in Fallen(net, s) {
        var kept := Keep(rest, Fallen(rest, s));
        assert Keep(net, Fallen(net, s)) == [e] + kept;
        KeepIn(rest, Fallen(rest, s));
        FindIn(rest, e.name);
        FindIn(kept, e.name);
        if e.hub.Some? && e.hub.value != e.name {
          var h :| h in rest && e.hub == Some(h.name);
          assert h in kept;
        }
      }
    }
  }

  // Every reachable network is well formed: names differ and every hub is listed.
  lemma {:induction false} RunsStayWellFormed(p10: bool, net: seq<Entry>, msgs: seq<Msg>)
    requires WellFormed(net) && AdmissibleRun(p10, net, msgs)
    ensures WellFormed(After(p10, net, msgs))
    decreases |msgs|
  {
    if msgs != [] {
      match msgs[0] {
        case SERVER(source, name, numeric) =>
          FindIn(net, source);
          FindNumericIn(net, source);
          assert Step(p10, net, msgs[0])[1..] == net;
        case SQUIT(name) =>
          var found := Find(net, name);
          if found.Some? {
            SquitWell(net, found.value.name);
          }
      }
      RunsStayWellFormed(p10, Step(p10, net, msgs[0]), msgs[1..]);
    }
  }

  lemma {:induction false} FallenNone(net: seq<Entry>, s: string)
    requires s !in Names(net)
    ensures Fallen(net, s) == {}
  {
    if net != [] {
      assert Names(net) == {net[0].name} + Names(net[1..]);
      FallenNone(net[1..], s);
    }
  }

  // SQUIT of a server that has just come in puts the network back as it was, exactly if its hub
  // was found.
  lemma SquitUndoesServer(p10: bool, net: seq<Entry>, source: string, name: string, numeric: string)
    requires AdmissibleRun(p10, net, [SERVER(source, name, numeric), SQUIT(name)])
    ensures After(p10, net, [SERVER(source, name, numeric), SQUIT(name)]) == net <==> FindHub(p10, net, source) != None
  {
    var more := Step(p10, net, SERVER(source, name, numeric));
    FindIn(net, name);
    assert more[1..] == net;
    FallenNone(net, name);
    assert Fallen(more, name) == {name};
    KeepSame(net, {name}, {});
    KeepAll(net);
    assert [SERVER(source, name, numeric), SQUIT(name)][1..] == [SQUIT(name)];
    assert After(p10, more, [SQUIT(name)]) == Step(p10, more, SQUIT(name));
  }

  lemma {:induction false} KeepAll(net: seq<Entry>)
    ensures Keep(net, {}) == net
  {
    if net != [] {
      KeepAll(net[1..]);
    }
  }

  lemma {:induction false} KeepTwice(net: seq<Entry>, a: set<string>, b: set<string>)
    ensures Keep(Keep(net, a), b) == Keep(net, a + b)
  {
    if net != [] {
      KeepTwice(net[1..], a, b);
      if net[0].name !in a {
        assert Keep(net, a)[1..] == Keep(net[1..], a);
      }
    }
  }

  lemma {:induction false} FallenAfter(net: seq<Entry>, a: string, b: string)
    requires WellFormed(net) && a !in Fallen(net, b)
    ensures Fallen(Keep(net, Fallen(net, b)), a) == Fallen(net, a) - Fallen(net, b)
  {
    if net != [] {
      var e, rest := net[0], net[1..];
      FallenTail(net, b);
      FallenAfter(rest, a, b);
      FindIn(rest, e.name);
      FallenListed(rest, a);
      FallenListed(rest, b);
      if e.name !in Fallen(net, b) {
        assert Keep(net, Fallen(net, b))[1..] == Keep(rest, Fallen(rest, b));
      }
    }
  }

  // The order in which a split is announced does not matter: a server below another one may be
  // squit first or not at all.
  lemma SquitOrder(p10: bool, net: seq<Entry>, a: Entry, b: Entry)
    requires WellFormed(net) && a in net && b in net
    requires AdmissibleRun(p10, net, [SQUIT(b.name), SQUIT(a.name)]) && a.name !in Fallen(net, b.name)
    requires a.hub != None && b.hub != None
    ensures After(p10, net, [SQUIT(b.name), SQUIT(a.name)]) == Keep(net, Fallen(net, a.name) + Fallen(net, b.name))
    ensures b.name in Fallen(net, a.name) ==>
              After(p10, net, [SQUIT(b.name), SQUIT(a.name)]) == After(p10, net, [SQUIT(a.name)])
  {
    var fa, fb := Fallen(net, a.name), Fallen(net, b.name);
    var left := Keep(net, fb);
    HubListed(net, a);
    HubListed(net, b);
    SquitWell(net, b.name);
    KeepIn(net, fb);
    HubListed(left, a);
    FallenAfter(net, a.name, b.name);
    KeepTwice(net, fb, fa - fb);
    assert fb + (fa - fb) == fa + fb;
    assert [SQUIT(b.name), SQUIT(a.name)][1..] == [SQUIT(a.name)];
    assert After(p10, left, [SQUIT(a.name)]) == Step(p10, left, SQUIT(a.name));
    if b.name in fa {
      FallenNested(net, a.name, b.name);
      assert fa + fb == fa;
      assert After(p10, net, [SQUIT(a.name)]) == Step(p10, net, SQUIT(a.name));
    }
  }

  lemma {:induction false} FallenNested(net: seq<Entry>, a: string, b: string)
    requires WellFormed(net) && b in Fallen(net, a)
    ensures Fallen(net, b) <= Fallen(net, a)
  {
    var e, rest := net[0], net[1..];
    FindIn(rest, e.name);
    FallenListed(rest, a);
    if b in Fallen(rest, a) {
      FallenNested(rest, a, b);
    } else {
      assert b == e.name;
      assert b !in Names(rest);
      FallenNone(rest, b);
    }
  }

  ghost function EntryOf(f: Forest, s: Server): Entry
    requires s in f.hub
    reads s`numerico, s`users
  {
    Entry(s.name, s.numerico, s.users, if f.hub[s] == null then None else Some(f.hub[s].name))
  }

  // The listed servers, newest first, by name
  ghost function View(f: Forest, list: seq<Server>): seq<Entry>
    requires Among(list, f.hub.Keys)
    reads list`numerico, list`users
  {
    if list == [] then [] else [EntryOf(f, list[0])] + View(f, list[1..])
  }

  // Every server of the list has its hub further on, unless it has none or is its own.
  ghost predicate Older(f: Forest, list: seq<Server>)
    requires Among(list, f.hub.Keys)
  {
    list == [] ||
    (&& Older(f, list[1..])
     && var h := f.hub[list[0]]; h == null || h == list[0] || h in list[1..])
  }

  lemma {:induction false} OlderFrom(f: Forest, list: seq<Server>, i: nat)
    requires Sound(f) && Newest(list) && Among(list, f.hub.Keys) && f.hub.Keys <= Elems(list) && i <= |list|
    ensures Older(f, list[i..])
    decreases |list| - i
  {
    if i < |list| {
      OlderFrom(f, list, i + 1);
      var s := list[i];
      assert list[i..][1..] == list[i+1..];
      assert Hubbed(f, s);
      var h := f.hub[s];
      if h != null && h != s {
        assert Parent(f, h);
        var k :| 0 <= k < |list| && list[k] == h;
        assert k < i ==> Newer(list[k], list[i]);
        assert list[i+1..][k - i - 1] == h;
      }
    }
  }

  lemma {:induction false} ViewNames(f: Forest, list: seq<Server>)
    requires Among(list, f.hub.Keys)
    ensures |View(f, list)| == |list|
    ensures forall i :: 0 <= i < |list| ==> View(f, list)[i] == EntryOf(f, list[i])
  {
    if list != [] {
      ViewNames(f, list[1..]);
    }
  }

  lemma ViewApart(f: Forest, list: seq<Server>)
    requires Among(list, f.hub.Keys) && list != [] && Named(list) && list[0] !in list[1..]
    ensures list[0].name !in Names(View(f, list[1..]))
    ensures forall x :: x in list[1..] ==> x.name != list[0].name
  {
    ViewNames(f, list[1..]);
    var head := list[0];
    forall x | x in list[1..]
      ensures x.name != head.name
    {
      assert x in list && head in list;
      assert SameName(x.name, head.name) ==> x == head;
    }
  }

  // One entry more on top of a view
  lemma FallenCons(net: seq<Entry>, e: Entry, s: string)
    requires e.name !in Names(net)
    ensures e.name in Fallen([e] + net, s) <==> e.name == s || (e.hub.Some? && e.hub.value in Fallen(net, s))
    ensures forall n :: n in Names(net) ==> (n in Fallen([e] + net, s) <==> n in Fallen(net, s))
  {
    assert ([e] + net)[1..] == net;
    FallenListed(net, s);
  }

  lemma UnderHub(f: Forest, x: Server, s: Server)
    requires Sound(f) && x in f.hub && s in f.hub
    ensures Under(f, x, s) <==> x == s || (f.hub[x] != null && f.hub[x] != x && f.hub[x] in f.hub && Under(f, f.hub[x], s))
  {
    var h := f.hub[x];
    if h != null && h != x {
      assert Hubbed(f, x);
      assert Parent(f, h);
    }
  }

  // A server falls by name as it falls by pointer, if those behind it do.
  lemma FallenHead(f: Forest, list: seq<Server>, s: Server)
    requires Sound(f) && Among(list, f.hub.Keys) && Older(f, list) && Named(list) && Newest(list) && s in f.hub && list != []
    requires list[0].name == s.name ==> list[0] == s
    requires forall y :: y in list[1..] ==> (y.name in Fallen(View(f, list[1..]), s.name) <==> Under(f, y, s))
    ensures list[0].name in Fallen(View(f, list), s.name) <==> Under(f, list[0], s)
    ensures forall y :: y in list[1..] ==> (y.name in Fallen(View(f, list), s.name) <==> Under(f, y, s))
  {
    var x, rest := list[0], list[1..];
    Apart(list, 0);
    ViewApart(f, list);
    var net, e := View(f, rest), EntryOf(f, x);
    FallenCons(net, e, s.name);
    FallenListed(net, s.name);
    UnderHub(f, x, s);
    ViewNames(f, rest);
    forall y | y in rest
      ensures y.name in Names(net)
    {
      var i :| 0 <= i < |rest| && rest[i] == y;
      assert net[i].name == y.name;
    }
  }

  // Going by name is going by pointer: what falls in the view is what is under s in the forest.
  lemma {:induction false} FallenIsUnder(f: Forest, list: seq<Server>, s: Server)
    requires Sound(f) && Among(list, f.hub.Keys) && Older(f, list) && Named(list) && Newest(list) && s in f.hub
    requires forall x :: x in list && x.name == s.name ==> x == s
    ensures forall x :: x in list ==> (x.name in Fallen(View(f, list), s.name) <==> Under(f, x, s))
  {
    if list != [] {
      var rest := list[1..];
      NewestTail(list);
      assert forall y :: y in list <==> y == list[0] || y in rest;
      FallenIsUnder(f, rest, s);
      FallenHead(f, list, s);
    }
  }

  lemma NewestTail(list: seq<Server>)
    requires Newest(list) && list != []
    ensures Newest(list[1..])
  {
    forall i, j | 0 <= i < j < |list[1..]|
      ensures Newer(list[1..][i], list[1..][j])
    {
      assert Newer(list[i + 1], list[j + 1]);
    }
  }

  lemma {:induction false} ViewKeep(f: Forest, g: Forest, list: seq<Server>, gone: set<Server>, names: set<string>)
    requires Among(list, f.hub.Keys) && Among(Without(list, gone), g.hub.Keys)
    requires forall x :: x in list ==> (x in gone <==> x.name in names)
    requires forall x :: x in g.hub && x in f.hub ==> g.hub[x] == f.hub[x]
    ensures View(g, Without(list, gone)) == Keep(View(f, list), names)
  {
    if list != [] {
      assert View(f, list)[1..] == View(f, list[1..]);
      if list[0] !in gone {
        assert Without(list, gone)[1..] == Without(list[1..], gone);
      }
      ViewKeep(f, g, list[1..], gone, names);
    }
  }

  // DoSquit's effect on the forest, seen by name, is Step's.
  lemma SquitView(f: Forest, list: seq<Server>, s: Server)
    requires Sound(f) && Newest(list) && Named(list) && Among(list, f.hub.Keys) && f.hub.Keys <= Elems(list) && s in f.hub
    ensures Among(Without(list, Below(f, s) + {s}), Cut(f, s).hub.Keys)
    ensures View(Cut(f, s), Without(list, Below(f, s) + {s})) == Keep(View(f, list), Fallen(View(f, list), s.name))
  {
    OlderFrom(f, list, 0);
    assert list[0..] == list;
    assert s in Elems(list);
    forall x | x in list && x.name == s.name
      ensures x == s
    {
      assert SameName(x.name, s.name);
    }
    RosterCut(f, list, |list|, s);
    FallenIsUnder(f, list, s);
    ViewKeep(f, Cut(f, s), list, Below(f, s) + {s}, Fallen(View(f, list), s.name));
  }

  lemma {:induction false} ViewFind(f: Forest, list: seq<Server>, name: string)
    requires Among(list, f.hub.Keys)
    ensures var s := Scan(list, name); s == null || s in f.hub
    ensures var s := Scan(list, name); Find(View(f, list), name) == if s == null then None else Some(EntryOf(f, s))
  {
    if list != [] {
      ViewFind(f, list[1..], name);
      assert View(f, list)[1..] == View(f, list[1..]);
    }
  }

  lemma {:induction false} ViewFindNumeric(f: Forest, list: seq<Server>, numeric: string)
    requires Among(list, f.hub.Keys)
    ensures var s := ScanNumeric(list, numeric); s == null || s in f.hub
    ensures var s := ScanNumeric(list, numeric);
            FindNumeric(View(f, list), numeric) == if s == null then None else Some(EntryOf(f, s))
  {
    if list != [] {
      ViewFindNumeric(f, list[1..], numeric);
      assert View(f, list)[1..] == View(f, list[1..]);
    }
  }

  lemma {:induction false} ViewSame(f: Forest, g: Forest, list: seq<Server>)
    requires Among(list, f.hub.Keys) && Among(list, g.hub.Keys)
    requires forall x :: x in list ==> g.hub[x] == f.hub[x]
    ensures View(g, list) == View(f, list)
  {
    if list != [] {
      ViewSame(f, g, list[1..]);
    }
  }

  lemma GraftView(f: Forest, list: seq<Server>, s: Server, h: Server?)
    requires f.hub.Keys == f.kids.Keys && Among(list, f.hub.Keys) && s !in f.hub
    requires h == null || h == s || h in f.hub
    ensures Among([s] + list, Graft(f, s, h).hub.Keys)
    ensures View(Graft(f, s, h), [s] + list) == [EntryOf(Graft(f, s, h), s)] + View(f, list)
  {
    assert ([s] + list)[1..] == list;
    ViewSame(f, Graft(f, s, h), list);
  }

  ghost function ViewOf(net: Network): seq<Entry>
    requires net.Valid()
    reads net, net.list, net.forest.hub.Keys
  {
    View(net.forest, net.list)
  }

  // What Admissible says of the entries holds of the servers, and the hub is the same.
  lemma ServerSeen(p10: bool, f: Forest, list: seq<Server>, source: string, name: string, numeric: string)
    requires Among(list, f.hub.Keys) && Admissible(p10, View(f, list), SERVER(source, name, numeric))
    ensures Stranger(p10, list, source, name, numeric)
    ensures var hub := ScanHub(p10, list, source);
            (hub == null || hub in f.hub) &&
            (source != "" ==> HubName(p10, View(f, list), source, name) == if hub == null then None else Some(hub.name))
  {
    ViewFind(f, list, name);
    ViewFind(f, list, source);
    ViewFindNumeric(f, list, numeric);
    ViewFindNumeric(f, list, source);
  }

  method HandleServer(p10: bool, net: Network, source: string, name: string, numeric: string)
    requires net.Valid() && (p10 ==> Numbered(net.list)) && Admissible(p10, ViewOf(net), SERVER(source, name, numeric))
    modifies net, net.forest.hub.Keys
    ensures net.Valid() && ViewOf(net) == Step(p10, old(ViewOf(net)), SERVER(source, name, numeric))
    ensures p10 ==> Numbered(net.list)
    ensures forall s :: s in net.forest.hub ==> s in old(net.forest.hub) || fresh(s)
  {
    ghost var f, list, hub := net.forest, net.list, ScanHub(p10, net.list, source);
    ghost var view := View(f, list);
    ServerSeen(p10, f, list, source, name, numeric);
    var server := net.DoServer(p10, source, name, numeric);
    assert View(f, list) == view;
    GraftView(f, list, server, if source == "" then server else hub);
  }

  lemma {:induction false} ChildlessIn(net: seq<Entry>, name: string)
    ensures Childless(net, name) <==> forall e :: e in net ==> e.hub != Some(name)
  {
    if net != [] {
      ChildlessIn(net[1..], name);
    }
  }

  lemma NoKids(f: Forest, list: seq<Server>, s: Server)
    requires Sound(f) && Among(list, f.hub.Keys) && f.hub.Keys <= Elems(list) && s in f.hub
    requires Childless(View(f, list), s.name)
    ensures f.kids[s] == [] && Below(f, s) == {}
  {
    assert f.kids[s] == [] || f.kids[s][0] in f.kids[s];
    ChildlessIn(View(f, list), s.name);
    ViewNames(f, list);
    assert Parent(f, s);
    forall k | k in f.hub
      ensures f.hub[k] != s
    {
      assert k in Elems(list);
      var i :| 0 <= i < |list| && list[i] == k;
      assert View(f, list)[i] in View(f, list);
    }
    PrunedAll(f, s);
  }

  // What do_squit leaves, seen by name, is what Step leaves.
  lemma SquitSeen(p10: bool, f: Forest, list: seq<Server>, name: string)
    requires Sound(f) && Newest(list) && Named(list) && Among(list, f.hub.Keys) && f.hub.Keys <= Elems(list)
    requires Admissible(p10, View(f, list), SQUIT(name))
    ensures var s := Scan(list, name);
            (s == null || s in f.hub) && Among(Remaining(f, list, s), Pared(f, s).hub.Keys) &&
            View(Pared(f, s), Remaining(f, list, s)) == Step(p10, View(f, list), SQUIT(name))
  {
    ViewFind(f, list, name);
    var s := Scan(list, name);
    if s != null {
      if f.hub[s] == null {
        NoKids(f, list, s);
        WithoutNone(list, {});
      } else {
        SquitView(f, list, s);
      }
    }
  }

  // The same for a network, and what Admissible says of the entry holds of the server.
  lemma SquitMeans(p10: bool, net: Network, name: string)
    requires net.Valid() && Admissible(p10, ViewOf(net), SQUIT(name))
    ensures var s := Scan(net.list, name);
            && (s == null || (s in net.forest.hub && s.hub != s && (s.hub == null ==> s.hijo == null)))
            && Sound(net.forest) && Among(Remaining(net.forest, net.list, s), Pared(net.forest, s).hub.Keys)
            && View(Pared(net.forest, s), Remaining(net.forest, net.list, s)) == Step(p10, ViewOf(net), SQUIT(name))
  {
    ViewFind(net.forest, net.list, name);
    SquitSeen(p10, net.forest, net.list, name);
    var s := Scan(net.list, name);
    if s != null {
      assert Shows(s, net.forest.hub[s], net.forest.kids[s]);
      if s.hub == null {
        NoKids(net.forest, net.list, s);
      }
    }
  }

  method HandleSquit(p10: bool, net: Network, name: string)
    requires net.Valid() && Admissible(p10, ViewOf(net), SQUIT(name))
    modifies net, net.forest.hub.Keys
    ensures net.Valid() && ViewOf(net) == Step(p10, old(ViewOf(net)), SQUIT(name))
    ensures old(Numbered(net.list)) ==> Numbered(net.list)
    ensures net.forest.hub.Keys <= old(net.forest.hub.Keys)
    ensures net.nodos == |old(net.list)| - |net.list| && net.usuarios == old(Users(net.list)) - Users(net.list)
  {
    SquitMeans(p10, net, name);
    SquitTo(net, name, Step(p10, ViewOf(net), SQUIT(name)));
  }

  // do_squit, given what the network is to look like behind it
  method SquitTo(net: Network, name: string, ghost after: seq<Entry>)
    requires net.Valid()
    requires var s := Scan(net.list, name);
             && (s == null || (s in net.forest.hub && s.hub != s && (s.hub == null ==> s.hijo == null)))
             && Sound(net.forest) && Among(Remaining(net.forest, net.list, s), Pared(net.forest, s).hub.Keys)
             && View(Pared(net.forest, s), Remaining(net.forest, net.list, s)) == after
    modifies net, net.forest.hub.Keys
    ensures net.Valid() && ViewOf(net) == after
    ensures old(Numbered(net.list)) ==> Numbered(net.list)
    ensures net.forest.hub.Keys <= old(net.forest.hub.Keys)
    ensures net.nodos == |old(net.list)| - |net.list| && net.usuarios == old(Users(net.list)) - Users(net.list)
  {
    ghost var f, list, s := net.forest, net.list, Scan(net.list, name);
    ghost var pared, left := Pared(f, s), Remaining(f, list, s);
    ghost var view := View(pared, left);
    net.DoSquit(name);
    assert View(pared, left) == view;
  }

  // One message, handled by do_server or do_squit
  method Handle(p10: bool, net: Network, m: Msg)
    requires net.Valid() && (p10 ==> Numbered(net.list)) && Admissible(p10, ViewOf(net), m)
    modifies net, net.forest.hub.Keys
    ensures net.Valid() && (p10 ==> Numbered(net.list)) && ViewOf(net) == Step(p10, old(ViewOf(net)), m)
    ensures forall s :: s in net.forest.hub ==> s in old(net.forest.hub) || fresh(s)
  {
    match m {
      case SERVER(source, name, numeric) => HandleServer(p10, net, source, name, numeric);
      case SQUIT(name) => HandleSquit(p10, net, name);
    }
  }

  // A run of messages
  method Run(p10: bool, net: Network, msgs: seq<Msg>)
    requires net.Valid() && (p10 ==> Numbered(net.list)) && AdmissibleRun(p10, ViewOf(net), msgs)
    modifies net, net.forest.hub.Keys
    ensures net.Valid() && net.servercnt == |net.list|
    ensures ViewOf(net) == After(p10, old(ViewOf(net)), msgs)
  {
    var i := 0;
    while i < |msgs|
      invariant 0 <= i <= |msgs| && net.Valid() && (p10 ==> Numbered(net.list))
      invariant forall s :: s in net.forest.hub ==> s in old(net.forest.hub) || fresh(s)
      invariant AdmissibleRun(p10, ViewOf(net), msgs[i..])
      invariant After(p10, ViewOf(net), msgs[i..]) == After(p10, old(ViewOf(net)), msgs)
    {
      assert msgs[i..][0] == msgs[i] && msgs[i..][1..] == msgs[i+1..];
      Handle(p10, net, msgs[i]);
      i := i + 1;
    }
  }

  // A run from the start of the program
  method RunFromStart(p10: bool, msgs: seq<Msg>) returns (net: Network)
    requires AdmissibleRun(p10, [], msgs)
    ensures fresh(net) && net.Valid() && net.servercnt == |net.list|
    ensures ViewOf(net) == After(p10, [], msgs)
  {
    net := new Network();
    Run(p10, net, msgs);
  }
}
