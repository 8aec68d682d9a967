// servers.c: the servers of the network, as an intrusive doubly linked list that is
// overlaid with a first-child/next-sibling tree.

module Servers {
  import opened CString

  class Server {
    var next: Server?
    var prev: Server?
    var hub: Server?
    var hijo: Server?
    var rehijo: Server?
    const name: string
    var users: int
    var numerico: string
    ghost const serial: nat   // order of arrival

    constructor (name: string, ghost serial: nat)
      ensures this.name == name && this.serial == serial
      ensures next == null && prev == null && hub == null && hijo == null && rehijo == null
      ensures users == 0 && numerico == ""
    {
      this.name, this.serial := name, serial;
      next, prev, hub, hijo, rehijo := null, null, null, null, null;
      users, numerico := 0, "";
    }
  }

  // The tree as a value: the hub of each server and its children, oldest first.
  datatype Forest = Forest(hub: map<Server, Server?>, kids: map<Server, seq<Server>>)

  ghost function At(s: seq<Server>, i: nat): Server? {
    if i < |s| then s[i] else null
  }

  ghost predicate Newer(a: Server, b: Server) {
    a.serial > b.serial
  }

  // The list holds each server once, newest first.
  ghost predicate Newest(list: seq<Server>) {
    forall i, j {:trigger Newer(list[i], list[j])} :: 0 <= i < j < |list| ==> Newer(list[i], list[j])
  }

  lemma NewestCons(list: seq<Server>, s: Server)
    requires Newest(list) && forall x :: x in list ==> x.serial < s.serial
    ensures Newest([s] + list)
  {
    var l := [s] + list;
    forall i, j | 0 <= i < j < |l|
      ensures Newer(l[i], l[j])
    {
      assert l[j] == list[j-1];
      assert i > 0 ==> Newer(list[i-1], list[j-1]);
    }
  }

  lemma Apart(list: seq<Server>, k: nat)
    requires Newest(list) && k < |list|
    ensures forall i :: 0 <= i < |list| && i != k ==> list[i] != list[k]
  {
    forall i | 0 <= i < |list| && i != k
      ensures list[i] != list[k]
    {
      assert if i < k then Newer(list[i], list[k]) else Newer(list[k], list[i]);
    }
  }

  // Children are chained oldest first.
  ghost predicate Oldest(kids: seq<Server>) {
    forall i, j {:trigger Newer(kids[j], kids[i])} :: 0 <= i < j < |kids| ==> Newer(kids[j], kids[i])
  }

  ghost predicate Linked(list: seq<Server>, head: Server?)
    reads list`next, list`prev
  {
    && head == At(list, 0)
    && Newest(list)
    && (forall i {:trigger list[i].next} :: 0 <= i < |list| ==> list[i].next == At(list, i + 1))
    && (forall i {:trigger list[i].prev} :: 0 <= i < |list| ==> list[i].prev == if i == 0 then null else list[i-1])
  }

  // s is listed once among the children of its hub.
  ghost predicate Hubbed(f: Forest, s: Server)
    requires s in f.hub && f.hub.Keys == f.kids.Keys
  {
    f.hub[s] == null || f.hub[s] == s || (f.hub[s] in f.hub && s in f.kids[f.hub[s]])
  }

  // The children of s are attached to s and came after it, in this order.
  ghost predicate Parent(f: Forest, s: Server)
    requires s in f.hub && f.hub.Keys == f.kids.Keys
  {
    && (forall k :: k in f.kids[s] ==> k in f.hub && f.hub[k] == s && s.serial < k.serial)
    && Oldest(f.kids[s])
  }

  ghost predicate Sound(f: Forest) {
    && f.hub.Keys == f.kids.Keys
    && (forall s {:trigger Hubbed(f, s)} :: s in f.hub ==> Hubbed(f, s))
    && (forall s {:trigger Parent(f, s)} :: s in f.hub ==> Parent(f, s))
  }

  // hijo and rehijo thread kids below s.
  ghost predicate Chain(s: Server, kids: seq<Server>)
    reads s`hijo, kids`rehijo
  {
    && s.hijo == At(kids, 0)
    && (forall i {:trigger kids[i].rehijo} :: 0 <= i < |kids| ==> kids[i].rehijo == At(kids, i + 1))
  }

  // The fields of s say that hub is its hub and kids are its children.
  ghost predicate Shows(s: Server, hub: Server?, kids: seq<Server>)
    reads s`hub, s`hijo, s`rehijo, kids`rehijo
  {
    s.hub == hub && (hub == null || hub == s ==> s.rehijo == null) && Chain(s, kids)
  }

  // The tree pointers of every server of f say what f says.
  ghost predicate Draws(f: Forest)
    reads f.hub.Keys`hub, f.hub.Keys`hijo, f.hub.Keys`rehijo
  {
    f.hub.Keys == f.kids.Keys &&
    forall s {:trigger Shows(s, f.hub[s], f.kids[s])} :: s in f.hub ==>
      Among(f.kids[s], f.hub.Keys) && Shows(s, f.hub[s], f.kids[s])
  }

  // x is s, or is attached somewhere below s.
  ghost predicate Under(f: Forest, x: Server, s: Server)
    decreases x.serial
  {
    x in f.hub &&
    (x == s || (f.hub[x] != null && f.hub[x].serial < x.serial && Under(f, f.hub[x], s)))
  }

  ghost function Elems(list: seq<Server>): set<Server> {
    set s | s in list
  }

  ghost predicate Among(list: seq<Server>, nodes: set<Server>) {
    forall s :: s in list ==> s in nodes
  }

  // list without the servers of gone, in order
  ghost function Without(list: seq<Server>, gone: set<Server>): seq<Server>
  {
    if list == [] then []
    else if list[0] in gone then Without(list[1..], gone)
    else [list[0]] + Without(list[1..], gone)
  }

  ghost function Users(list: seq<Server>): int
    reads list`users
  {
    if list == [] then 0 else list[0].users + Users(list[1..])
  }

  // The sum goes over every server: with u users each it is u for each.
  lemma {:induction false} UsersEach(list: seq<Server>, u: int)
    requires forall s :: s in list ==> s.users == u
    ensures Users(list) == u * |list|
  {
    if list != [] {
      assert list[0] in list;
      UsersEach(list[1..], u);
    }
  }

  lemma {:induction false} UsersConcat(a: seq<Server>, b: seq<Server>)
    ensures Users(a + b) == Users(a) + Users(b)
  {
    if a == [] {
      assert a + b == b;
    } else {
      UsersConcat(a[1..], b);
      assert (a + b)[1..] == a[1..] + b;
    }
  }

  lemma {:induction false} WithoutMembers(list: seq<Server>, gone: set<Server>)
    ensures Elems(Without(list, gone)) == Elems(list) - gone
    ensures Among(Without(list, gone), Elems(list) - gone)
  {
    if list != [] {
      WithoutMembers(list[1..], gone);
      assert Elems(list) == {list[0]} + Elems(list[1..]);
      assert list[0] !in gone ==> Elems(Without(list, gone)) == {list[0]} + Elems(Without(list[1..], gone));
    }
  }

  lemma {:induction false} WithoutConcat(a: seq<Server>, b: seq<Server>, gone: set<Server>)
    ensures Without(a + b, gone) == Without(a, gone) + Without(b, gone)
  {
    if a == [] {
      assert a + b == b;
    } else {
      WithoutConcat(a[1..], b, gone);
      assert (a + b)[0] == a[0] && (a + b)[1..] == a[1..] + b;
      if a[0] !in gone {
        assert [a[0]] + (Without(a[1..], gone) + Without(b, gone)) == ([a[0]] + Without(a[1..], gone)) + Without(b, gone);
      }
    }
  }

  lemma {:induction false} WithoutNone(list: seq<Server>, gone: set<Server>)
    requires forall s :: s in list ==> s !in gone
    ensures Without(list, gone) == list
  {
    if list != [] {
      WithoutNone(list[1..], gone);
    }
  }

  lemma {:induction false} WithoutTwice(list: seq<Server>, a: set<Server>, b: set<Server>)
    ensures Without(Without(list, a), b) == Without(list, a + b)
  {
    if list != [] {
      WithoutTwice(list[1..], a, b);
      if list[0] !in a {
        assert Without(list, a)[1..] == Without(list[1..], a);
      }
    }
  }

  lemma WithoutThrice(list: seq<Server>, a: set<Server>, b: set<Server>, c: set<Server>)
    ensures Without(Without(Without(list, a), b), c) == Without(list, a + (b + c))
  {
    WithoutTwice(list, a, b);
    WithoutTwice(list, a + b, c);
    assert a + b + c == a + (b + c);
  }

  lemma WithoutOne(list: seq<Server>, k: nat)
    requires k < |list| && Newest(list)
    ensures Without(list, {list[k]}) == list[..k] + list[k+1..]
    ensures Users(list) == Users(list[..k] + list[k+1..]) + list[k].users
  {
    var gone := {list[k]};
    Apart(list, k);
    WithoutNone(list[..k], gone);
    WithoutNone(list[k+1..], gone);
    WithoutConcat(list[..k], list[k..], gone);
    assert list == list[..k] + list[k..] && list[k..][1..] == list[k+1..];
    UsersConcat(list[..k], list[k..]);
    UsersConcat(list[..k], list[k+1..]);
  }

  // The servers attached below s, at any depth.
  ghost function Below(f: Forest, s: Server): set<Server> {
    set x | x in f.hub && x != s && Under(f, x, s)
  }

  // The servers in the subtrees of the first n children of s.
  ghost function Pruned(f: Forest, s: Server, n: nat): set<Server>
    requires s in f.kids && n <= |f.kids[s]|
  {
    set x | x in f.hub && exists i :: 0 <= i < n && Under(f, x, f.kids[s][i])
  }

  lemma {:induction false} UnderIsNewer(f: Forest, x: Server, s: Server)
    requires Under(f, x, s)
    ensures x == s || s.serial < x.serial
    decreases x.serial
  {
    if x != s {
      UnderIsNewer(f, f.hub[x], s);
    }
  }

  lemma {:induction false} SiblingsApart(f: Forest, s: Server, a: Server, b: Server, x: Server)
    requires Sound(f) && s in f.hub && a in f.kids[s] && b in f.kids[s] && a != b
    requires Under(f, x, a)
    ensures !Under(f, x, b)
    decreases x.serial
  {
    assert Parent(f, s);
    if Under(f, x, b) {
      if x == a {
        UnderIsNewer(f, s, b);
      } else if x == b {
        UnderIsNewer(f, s, a);
      } else {
        SiblingsApart(f, s, a, b, f.hub[x]);
      }
    }
  }

  lemma {:induction false} KidBelow(f: Forest, s: Server, k: Server, x: Server)
    requires Sound(f) && s in f.hub && k in f.kids[s] && Under(f, x, k)
    ensures x in Below(f, s)
    decreases x.serial
  {
    assert Parent(f, s) && Under(f, s, s);
    if x != k {
      KidBelow(f, s, k, f.hub[x]);
      UnderIsNewer(f, f.hub[x], s);
    }
  }

  // x is below s exactly when it is in the subtree of a child of s.
  lemma {:induction false} BelowViaKid(f: Forest, s: Server, x: Server)
    requires Sound(f) && s in f.hub
    ensures x in Below(f, s) <==> exists i :: 0 <= i < |f.kids[s]| && Under(f, x, f.kids[s][i])
    decreases x.serial
  {
    if x in Below(f, s) {
      assert Hubbed(f, x);
      if f.hub[x] == s {
        assert Under(f, x, x);
      } else {
        BelowViaKid(f, s, f.hub[x]);
      }
    }
    forall i | 0 <= i < |f.kids[s]| && Under(f, x, f.kids[s][i])
      ensures x in Below(f, s)
    {
      KidBelow(f, s, f.kids[s][i], x);
    }
  }

  lemma KidsDistinct(kids: seq<Server>, n: nat)
    requires Oldest(kids) && n < |kids|
    ensures forall i :: 0 <= i < |kids| && i != n ==> kids[i] != kids[n]
  {
    forall i | 0 <= i < |kids| && i != n
      ensures kids[i] != kids[n]
    {
      assert if i < n then Newer(kids[n], kids[i]) else Newer(kids[i], kids[n]);
    }
  }

  // The next child and the servers below it are what one turn of recursive_squit removes.
  lemma PruneNext(f: Forest, s: Server, n: nat)
    requires Sound(f) && s in f.hub && n < |f.kids[s]|
    ensures Pruned(f, s, n + 1) == Pruned(f, s, n) + (Below(f, f.kids[s][n]) + {f.kids[s][n]})
    ensures (Below(f, f.kids[s][n]) + {f.kids[s][n]}) !! Pruned(f, s, n)
  {
    var k := f.kids[s][n];
    assert Parent(f, s);
    KidsDistinct(f.kids[s], n);
    forall x | x in Below(f, k) + {k}
      ensures x !in Pruned(f, s, n)
    {
      forall i | 0 <= i < n
        ensures !Under(f, x, f.kids[s][i])
      {
        SiblingsApart(f, s, k, f.kids[s][i], x);
      }
    }
  }

  lemma PrunedAll(f: Forest, s: Server)
    requires Sound(f) && s in f.hub
    ensures Pruned(f, s, |f.kids[s]|) == Below(f, s)
  {
    forall x
      ensures x in Pruned(f, s, |f.kids[s]|) <==> x in Below(f, s)
    {
      BelowViaKid(f, s, x);
    }
  }

  // The list at the start of such a turn, and after it.
  lemma PruneTurn(f: Forest, list: seq<Server>, s: Server, n: nat)
    requires Sound(f) && s in f.hub && n < |f.kids[s]| && Below(f, s) <= Elems(list) && Among(list, f.hub.Keys)
    ensures Among(Without(list, Pruned(f, s, n + 1)), f.hub.Keys)
    ensures var now := Without(list, Pruned(f, s, n));
            && f.kids[s][n] in now && Below(f, f.kids[s][n]) <= Elems(now)
            && Without(Without(now, Below(f, f.kids[s][n])), {f.kids[s][n]}) == Without(list, Pruned(f, s, n + 1))
  {
    var k := f.kids[s][n];
    PruneNext(f, s, n);
    WithoutThrice(list, Pruned(f, s, n), Below(f, k), {k});
    WithoutMembers(list, Pruned(f, s, n));
    WithoutMembers(list, Pruned(f, s, n + 1));
    assert Parent(f, s) && Under(f, k, k);
    forall x | x in Below(f, k) + {k}
      ensures x in Below(f, s)
    {
      KidBelow(f, s, k, x);
    }
    assert k in Elems(Without(list, Pruned(f, s, n)));
  }

  // The servers of gone, in the order of list
  ghost function Only(list: seq<Server>, gone: set<Server>): seq<Server> {
    if list == [] then []
    else if list[0] in gone then [list[0]] + Only(list[1..], gone)
    else Only(list[1..], gone)
  }

  // What leaves and what stays add up, in servers and in users.
  lemma {:induction false} Tally(list: seq<Server>, gone: set<Server>)
    requires Newest(list) && gone <= Elems(list)
    ensures |list| == |Without(list, gone)| + |gone|
    ensures Users(list) == Users(Without(list, gone)) + Users(Only(list, gone))
  {
    if list == [] {
      assert gone == {};
    } else {
      Apart(list, 0);
      var rest := gone - {list[0]};
      forall i, j | 0 <= i < j < |list[1..]|
        ensures Newer(list[1..][i], list[1..][j])
      {
        assert Newer(list[i+1], list[j+1]);
      }
      forall x | x in rest
        ensures x in list[1..]
      {
        assert x in list;
      }
      Tally(list[1..], rest);
      SameLeft(list[1..], gone, rest);
    }
  }

  lemma {:induction false} SameLeft(list: seq<Server>, a: set<Server>, b: set<Server>)
    requires forall s :: s in list ==> (s in a <==> s in b)
    ensures Without(list, a) == Without(list, b) && Only(list, a) == Only(list, b)
  {
    if list != [] {
      SameLeft(list[1..], a, b);
    }
  }

  // The forest after s and everything below it has gone.
  ghost function Cut(f: Forest, s: Server): Forest
    requires Sound(f) && s in f.hub
  {
    var gone := Below(f, s) + {s};
    Forest(f.hub - gone,
           map x | x in f.kids && x !in gone ::
             if f.hub[s] == x then Drop(f.kids[x], s) else f.kids[x])
  }

  ghost function Drop(kids: seq<Server>, s: Server): seq<Server> {
    if kids == [] then []
    else if kids[0] == s then kids[1..]
    else [kids[0]] + Drop(kids[1..], s)
  }

  lemma {:induction false} DropAt(kids: seq<Server>, k: nat)
    requires k < |kids| && forall i :: 0 <= i < |kids| && i != k ==> kids[i] != kids[k]
    ensures Drop(kids, kids[k]) == Minus(kids, k)
  {
    if k > 0 {
      DropAt(kids[1..], k - 1);
      assert [kids[0]] + Minus(kids[1..], k - 1) == Minus(kids, k);
    }
  }

  // Nothing that stays points into what goes.
  lemma SurvivorsApart(f: Forest, s: Server, x: Server)
    requires Sound(f) && s in f.hub && x in f.hub && x !in Below(f, s) + {s}
    ensures f.hub[x] == null || f.hub[x] == x || f.hub[x] !in Below(f, s) + {s}
    ensures forall k :: k in f.kids[x] && k != s ==> k !in Below(f, s)
    ensures s in f.kids[x] ==> f.hub[s] == x
  {
    assert Hubbed(f, x) && Parent(f, x);
    if f.hub[x] != null && f.hub[x] != x {
      assert Parent(f, f.hub[x]);
      assert Under(f, f.hub[x], s) ==> Under(f, x, s);
    }
  }

  lemma MinusOldest(kids: seq<Server>, n: nat)
    requires Oldest(kids) && n < |kids|
    ensures Oldest(Minus(kids, n))
  {
    var rest := Minus(kids, n);
    forall i, j | 0 <= i < j < |rest|
      ensures Newer(rest[j], rest[i])
    {
      assert Newer(kids[if j < n then j else j + 1], kids[if i < n then i else i + 1]);
    }
  }

  lemma MinusIn(kids: seq<Server>, n: nat)
    requires n < |kids| && forall i :: 0 <= i < |kids| && i != n ==> kids[i] != kids[n]
    ensures forall k :: k in Minus(kids, n) <==> k in kids && k != kids[n]
  {
    forall i | 0 <= i < |kids| && i != n
      ensures kids[i] in Minus(kids, n)
    {
      assert Minus(kids, n)[if i < n then i else i - 1] == kids[i];
    }
  }

  lemma DropKid(kids: seq<Server>, s: Server)
    requires Oldest(kids)
    ensures Oldest(Drop(kids, s))
    ensures forall k :: k in Drop(kids, s) ==> k in kids && k != s
    ensures forall k :: k in kids && k != s ==> k in Drop(kids, s)
  {
    if s in kids {
      var n :| 0 <= n < |kids| && kids[n] == s;
      KidsDistinct(kids, n);
      DropAt(kids, n);
      MinusOldest(kids, n);
      MinusIn(kids, n);
    } else {
      DropNone(kids, s);
    }
  }

  lemma {:induction false} DropNone(kids: seq<Server>, s: Server)
    requires s !in kids
    ensures Drop(kids, s) == kids
  {
    if kids != [] {
      DropNone(kids[1..], s);
    }
  }

  // The children that x keeps.
  lemma CutKids(f: Forest, s: Server, x: Server)
    requires Sound(f) && s in f.hub && x in f.hub && x !in Below(f, s) + {s}
    ensures Cut(f, s).kids[x] == Drop(f.kids[x], s)
    ensures forall k :: k in Cut(f, s).kids[x] <==> k in f.kids[x] && k != s
    ensures Parent(Cut(f, s), x)
  {
    assert Parent(f, x);
    SurvivorsApart(f, s, x);
    DropKid(f.kids[x], s);
    if f.hub[s] != x {
      DropNone(f.kids[x], s);
    }
    assert Cut(f, s).kids[x] == Drop(f.kids[x], s);
    forall k | k in Drop(f.kids[x], s)
      ensures k in Cut(f, s).hub && f.hub[k] == x && x.serial < k.serial
    {
      assert k in f.kids[x] && k !in Below(f, s) + {s};
    }
  }

  lemma CutSound(f: Forest, s: Server)
    requires Sound(f) && s in f.hub
    ensures Sound(Cut(f, s))
  {
    var g := Cut(f, s);
    forall x | x in g.hub
      ensures Hubbed(g, x) && Parent(g, x)
    {
      SurvivorsApart(f, s, x);
      CutKids(f, s, x);
      assert Hubbed(f, x);
      if f.hub[x] != null && f.hub[x] != x {
        CutKids(f, s, f.hub[x]);
      }
    }
  }

  ghost predicate Named(list: seq<Server>) {
    forall a, b {:trigger SameName(a.name, b.name)} :: a in list && b in list && SameName(a.name, b.name) ==> a == b
  }

  // The list and the forest hold the same servers; names are distinct; the count is right.
  ghost predicate Roster(list: seq<Server>, f: Forest, count: int) {
    Named(list) && count == |list| && Among(list, f.hub.Keys) && f.hub.Keys <= Elems(list)
  }

  lemma NamedCons(list: seq<Server>, s: Server)
    requires Named(list) && forall x :: x in list ==> !SameName(s.name, x.name)
    ensures Named([s] + list)
  {
    forall a, b | a in [s] + list && b in [s] + list && SameName(a.name, b.name)
      ensures a == b
    {
    }
  }

  ghost predicate Numbered(list: seq<Server>)
    reads list`numerico
  {
    forall a, b {:trigger SameLead(a.numerico, b.numerico)} ::
      a in list && b in list && SameLead(a.numerico, b.numerico) ==> a == b
  }

  // The lookup without the cache: the first server of that name.
  ghost function Scan(list: seq<Server>, name: string): Server? {
    if list == [] then null
    else if SameName(name, list[0].name) then list[0]
    else Scan(list[1..], name)
  }

  ghost function ScanNumeric(list: seq<Server>, numeric: string): Server?
    reads list`numerico
  {
    if list == [] then null
    else if SameLead(numeric, list[0].numerico) then list[0]
    else ScanNumeric(list[1..], numeric)
  }

  lemma {:induction false} ScanIn(list: seq<Server>, name: string)
    ensures var s := Scan(list, name); s != null ==> s in list && SameName(name, s.name)
    ensures Scan(list, name) == null ==> forall s :: s in list ==> !SameName(name, s.name)
  {
    if list != [] {
      ScanIn(list[1..], name);
    }
  }

  lemma ScanOnly(list: seq<Server>, name: string, s: Server)
    requires Named(list) && s in list && SameName(name, s.name)
    ensures Scan(list, name) == s
  {
    ScanIn(list, name);
    assert SameName(Scan(list, name).name, s.name);
  }

  lemma {:induction false} ScanNumericIn(list: seq<Server>, numeric: string)
    ensures var s := ScanNumeric(list, numeric); s != null ==> s in list && SameLead(numeric, s.numerico)
    ensures ScanNumeric(list, numeric) == null ==> forall s :: s in list ==> !SameLead(numeric, s.numerico)
  {
    if list != [] {
      ScanNumericIn(list[1..], numeric);
    }
  }

  lemma ScanNumericOnly(list: seq<Server>, numeric: string, s: Server)
    requires Numbered(list) && s in list && SameLead(numeric, s.numerico)
    ensures ScanNumeric(list, numeric) == s
  {
    ScanNumericIn(list, numeric);
    assert SameLead(ScanNumeric(list, numeric).numerico, s.numerico);
  }

  lemma NumberedCons(list: seq<Server>, s: Server)
    requires Numbered(list) && ScanNumeric(list, s.numerico) == null
    ensures Numbered([s] + list)
  {
    ScanNumericIn(list, s.numerico);
    forall a, b | a in [s] + list && b in [s] + list && SameLead(a.numerico, b.numerico)
      ensures a == b
    {
    }
  }

  // do_server finds a hub by its name; under P10 by its numeric.
  ghost function ScanHub(p10: bool, list: seq<Server>, source: string): Server?
    reads list`numerico
  {
    if p10 then ScanNumeric(list, source) else Scan(list, source)
  }

  // A server that may come in is new, and does not name itself as its hub.
  ghost predicate Stranger(p10: bool, list: seq<Server>, source: string, name: string, numeric: string)
    reads list`numerico
  {
    && Scan(list, name) == null && (p10 ==> ScanNumeric(list, numeric) == null)
    && (source == "" || !(if p10 then SameLead(source, numeric) else SameName(source, name)))
  }

  lemma ScanHubIn(p10: bool, list: seq<Server>, source: string)
    ensures var s := ScanHub(p10, list, source); s != null ==> s in list
  {
    ScanIn(list, source);
    ScanNumericIn(list, source);
  }

  // What do_squit leaves of list and forest. A server without a hub stays, and the forest is then
  // not told of what has gone.
  ghost function Remaining(f: Forest, list: seq<Server>, s: Server?): seq<Server>
    requires s == null || s in f.hub
  {
    if s == null then list
    else if f.hub[s] == null then Without(list, Below(f, s))
    else Without(list, Below(f, s) + {s})
  }

  ghost function Pared(f: Forest, s: Server?): Forest
    requires s == null || (Sound(f) && s in f.hub)
  {
    if s == null || f.hub[s] == null then f else Cut(f, s)
  }

  // The forest as do_squit draws it just before s goes: s is out of the chain of its hub h.
  ghost function Snip(f: Forest, h: Server, s: Server): Forest
    requires h in f.kids
  {
    f.(kids := f.kids[h := Drop(f.kids[h], s)])
  }

  lemma CutDrawn(f: Forest, h: Server, s: Server)
    requires Sound(f) && s in f.hub && h in f.hub && f.hub[s] == h && h != s
    requires Draws(Snip(f, h, s))
    ensures Draws(Cut(f, s))
  {
    var snipped, g := Snip(f, h, s), Cut(f, s);
    forall x | x in g.hub
      ensures Among(g.kids[x], g.hub.Keys) && Shows(x, g.hub[x], g.kids[x])
    {
      assert Shows(x, snipped.hub[x], snipped.kids[x]);
      CutKids(f, s, x);
      if x != h {
        SurvivorsApart(f, s, x);
        DropNone(f.kids[x], s);
      }
    }
  }

  lemma RosterCut(f: Forest, list: seq<Server>, count: int, s: Server)
    requires Sound(f) && s in f.hub && Roster(list, f, count)
    ensures var left := Without(list, Below(f, s) + {s}); Roster(left, Cut(f, s), |left|)
  {
    WithoutMembers(list, Below(f, s) + {s});
    assert Elems(list) == f.hub.Keys;
    forall a | a in Without(list, Below(f, s) + {s})
      ensures a in list
    {
      assert a in Elems(Without(list, Below(f, s) + {s}));
    }
  }

  // The forest with a new server s whose hub is h.
  ghost function Graft(f: Forest, s: Server, h: Server?): Forest
    requires h == null || h == s || h in f.kids
  {
    if h == null || h == s then Forest(f.hub[s := h], f.kids[s := []])
    else Forest(f.hub[s := h], f.kids[s := []][h := f.kids[h] + [s]])
  }

  lemma RosterGraft(f: Forest, list: seq<Server>, count: int, s: Server, h: Server?)
    requires Roster(list, f, count) && Scan(list, s.name) == null && (h == null || h == s || h in f.kids)
    requires f.hub.Keys == f.kids.Keys
    ensures Roster([s] + list, Graft(f, s, h), count + 1)
  {
    ScanIn(list, s.name);
    NamedCons(list, s);
  }

  lemma GraftSound(f: Forest, s: Server, h: Server?)
    requires Sound(f) && s !in f.hub && (h == null || h == s || h in f.hub)
    requires forall x :: x in f.hub ==> x.serial < s.serial
    ensures Sound(Graft(f, s, h))
  {
    var g := Graft(f, s, h);
    forall x | x in g.hub
      ensures Hubbed(g, x) && Parent(g, x)
    {
      if x != s {
        assert Hubbed(f, x) && Parent(f, x);
        if x == h {
          forall i, j | 0 <= i < j < |g.kids[x]|
            ensures Newer(g.kids[x][j], g.kids[x][i])
          {
            assert j < |f.kids[x]| ==> Newer(f.kids[x][j], f.kids[x][i]);
          }
        }
      }
    }
  }

  ghost function Minus(kids: seq<Server>, k: nat): seq<Server>
    requires k < |kids|
  {
    kids[..k] + kids[k+1..]
  }

  lemma NewestWithout(list: seq<Server>, k: nat)
    requires Newest(list) && k < |list|
    ensures Newest(Minus(list, k))
  {
    var l := Minus(list, k);
    forall i, j | 0 <= i < j < |l|
      ensures Newer(l[i], l[j])
    {
      assert Newer(list[if i < k then i else i + 1], list[if j < k then j else j + 1]);
    }
  }

  // Once the neighbours of the k-th server point past it, the list without it is linked.
  lemma Spliced(list: seq<Server>, k: nat, head: Server?)
    requires Newest(list) && k < |list| && head == if k == 0 then At(list, 1) else At(list, 0)
    requires forall i {:trigger list[i].next} :: 0 <= i < |list| ==>
               list[i].next == At(list, if i + 1 == k then k + 1 else i + 1)
    requires forall i {:trigger list[i].prev} :: 0 <= i < |list| && i != k ==>
               list[i].prev == if (if i == k + 1 then k else i) == 0 then null else list[(if i == k + 1 then k else i) - 1]
    ensures Linked(Minus(list, k), head)
  {
    var l := Minus(list, k);
    NewestWithout(list, k);
    forall i | 0 <= i < |l|
      ensures l[i].next == At(l, i + 1) && l[i].prev == if i == 0 then null else l[i-1]
    {
      var o := if i < k then i else i + 1;
      assert l[i] == list[o] && list[o].next == list[o].next && list[o].prev == list[o].prev;
    }
  }

  class Network {
    var serverlist: Server?
    var lastserver: Server?
    var servercnt: int
    var nodos: int
    var usuarios: int
    var serverHUB: string
    ghost var list: seq<Server>
    ghost var forest: Forest
    ghost var arrivals: nat

    constructor ()
      ensures Valid() && list == [] && servercnt == 0 && forest == Forest(map[], map[])
    {
      serverlist, lastserver, serverHUB := null, null, "";
      servercnt, nodos, usuarios := 0, 0, 0;
      list, forest, arrivals := [], Forest(map[], map[]), 0;
    }

    ghost predicate Threaded()
      reads this`serverlist, this`lastserver, this`list, list`next, list`prev
    {
      Linked(list, serverlist) && (lastserver == null || lastserver in list)
    }

    // What every deletion conserves: the count of the listed servers, and the totals that
    // del_server moves from the list to nodos and usuarios.
    ghost function Balance(): (int, int, int)
      reads this`servercnt, this`nodos, this`usuarios, this`list, list`users
    {
      (servercnt - |list|, nodos + |list|, usuarios + Users(list))
    }

    // The pointer surgery of del_server.
    method Unlink(server: Server, ghost k: nat)
      requires Linked(list, serverlist) && k < |list| && list[k] == server
      modifies this`serverlist, this`list, list`next, list`prev
      ensures Linked(list, serverlist) && list == old(list[..k] + list[k+1..])
    {
      if k > 0 {
        Apart(list, k - 1);
      }
      if k + 1 < |list| {
        Apart(list, k + 1);
      }
      if server.prev != null {
        server.prev.next := server.next;
      } else {
        serverlist := server.next;
      }
      if server.next != null {
        server.next.prev := server.prev;
      }
      Spliced(list, k, serverlist);
      list := list[..k] + list[k+1..];
    }

    // del_server
    method DelServer(server: Server)
      requires Threaded() && server in list
      modifies this`serverlist, this`lastserver, this`servercnt, this`nodos, this`usuarios, this`list
      modifies list`next, list`prev
      ensures Threaded() && list == Without(old(list), {server})
      ensures Balance() == old(Balance())
    {
      if server == lastserver {
        lastserver := null;
      }
      servercnt := servercnt - 1;
      nodos := nodos + 1;
      usuarios := usuarios + server.users;
      ghost var k :| 0 <= k < |list| && list[k] == server;
      ghost var rest := list[..k] + list[k+1..];
      WithoutOne(list, k);
      Unlink(server, k);
      assert list == rest && |rest| == |old(list)| - 1;
    }

    ghost predicate Drawn()
      reads this`forest, this`arrivals, forest.hub.Keys`hub, forest.hub.Keys`hijo, forest.hub.Keys`rehijo
    {
      Sound(forest) && Draws(forest) && forall s :: s in forest.hub ==> s.serial < arrivals
    }

    // recursive_squit: padre stays in the list, everything below it goes.
    method RecursiveSquit(padre: Server)
      requires Threaded() && Drawn() && Among(list, forest.hub.Keys)
      requires padre in list && Below(forest, padre) <= Elems(list)
      modifies this`serverlist, this`lastserver, this`servercnt, this`nodos, this`usuarios, this`list
      modifies forest.hub.Keys`next, forest.hub.Keys`prev
      ensures Threaded() && list == Without(old(list), Below(forest, padre))
      ensures Balance() == old(Balance())
      decreases arrivals - padre.serial, 2
    {
      ghost var all, kids := list, forest.kids[padre];
      assert Shows(padre, forest.hub[padre], kids);
      var server := padre.hijo;
      ghost var n := 0;
      WithoutNone(list, Pruned(forest, padre, 0));
      PrunedAll(forest, padre);
      while server != null
        invariant n <= |kids| && server == At(kids, n)
        invariant Threaded() && list == Without(all, Pruned(forest, padre, n)) && Among(list, forest.hub.Keys)
        invariant Balance() == old(Balance())
        decreases |kids| - n
      {
        server := SquitTurn(padre, server, n, all);
        n := n + 1;
      }
      assert n == |kids|;
    }

    // One turn of that loop: a child goes with all below it.
    method SquitTurn(padre: Server, server: Server, ghost n: nat, ghost all: seq<Server>) returns (nextserver: Server?)
      requires Threaded() && Drawn() && Among(list, forest.hub.Keys) && Newest(all) && Among(all, forest.hub.Keys)
      requires padre in forest.hub && n < |forest.kids[padre]| && server == forest.kids[padre][n]
      requires padre in all && Below(forest, padre) <= Elems(all) && list == Without(all, Pruned(forest, padre, n))
      modifies this`serverlist, this`lastserver, this`servercnt, this`nodos, this`usuarios, this`list
      modifies forest.hub.Keys`next, forest.hub.Keys`prev
      ensures Threaded() && list == Without(all, Pruned(forest, padre, n + 1)) && Among(list, forest.hub.Keys)
      ensures Balance() == old(Balance()) && nextserver == At(forest.kids[padre], n + 1)
      decreases arrivals - padre.serial, 1
    {
      PruneTurn(forest, all, padre, n);
      SquitChild(padre, server, n);
      assert Shows(padre, forest.hub[padre], forest.kids[padre]);
      nextserver := server.rehijo;
      DelServer(server);
    }

    // One turn of that loop, before the child itself is deleted.
    method SquitChild(padre: Server, server: Server, ghost n: nat)
      requires Threaded() && Drawn() && Among(list, forest.hub.Keys)
      requires padre in forest.hub && n < |forest.kids[padre]| && server == forest.kids[padre][n]
      requires server in list && Below(forest, server) <= Elems(list)
      modifies this`serverlist, this`lastserver, this`servercnt, this`nodos, this`usuarios, this`list
      modifies forest.hub.Keys`next, forest.hub.Keys`prev
      ensures Threaded() && list == Without(old(list), Below(forest, server))
      ensures server in list && Among(list, forest.hub.Keys)
      ensures Balance() == old(Balance())
      decreases arrivals - padre.serial, 0
    {
      WithoutMembers(list, Below(forest, server));
      assert server in Elems(list) - Below(forest, server);
      assert Parent(forest, padre) && Shows(server, forest.hub[server], forest.kids[server]);
      if server.hijo != null {
        RecursiveSquit(server);
      } else {
        PrunedAll(forest, server);
        WithoutNone(list, Below(forest, server));
      }
    }

    // The part of do_squit that takes server, the k-th child, out of the chain of its hub.
    method Relink(server: Server, hub: Server, ghost kids: seq<Server>, ghost k: nat)
      requires k < |kids| && kids[k] == server && Chain(hub, kids) && Oldest(kids)
      modifies hub`hijo, kids`rehijo
      ensures Chain(hub, Minus(kids, k))
    {
      KidsDistinct(kids, k);
      if hub.hijo == server {
        hub.hijo := server.rehijo;
      } else {
        var tmpserver := hub.hijo;
        ghost var j := 0;
        while tmpserver.rehijo != null
          invariant 0 <= j < k && tmpserver == kids[j]
          invariant Chain(hub, kids)
          decreases k - j
        {
          if tmpserver.rehijo == server {
            KidsDistinct(kids, j);
            tmpserver.rehijo := server.rehijo;
            break;
          }
          tmpserver := tmpserver.rehijo;
          j := j + 1;
        }
      }
    }

    method Detach(server: Server, hub: Server, ghost k: nat)
      requires Drawn() && server in forest.hub && hub in forest.hub
      requires forest.hub[server] == hub && hub != server
      requires k < |forest.kids[hub]| && forest.kids[hub][k] == server
      modifies hub`hijo, forest.kids[hub]`rehijo
      ensures Draws(Snip(forest, hub, server))
    {
      ghost var kids := forest.kids[hub];
      ghost var snipped := Snip(forest, hub, server);
      assert Parent(forest, hub) && Shows(hub, forest.hub[hub], kids);
      KidsDistinct(kids, k);
      DropAt(kids, k);
      DropKid(kids, server);
      Relink(server, hub, kids, k);
      forall x | x in forest.hub
        ensures Among(snipped.kids[x], forest.hub.Keys) && Shows(x, snipped.hub[x], snipped.kids[x])
      {
        ghost var theirs := forest.kids[x];
        assert Parent(forest, x) && old(Shows(x, forest.hub[x], theirs));
        if x != hub {
          forall i | 0 <= i < |theirs|
            ensures theirs[i].rehijo == At(theirs, i + 1)
          {
            assert theirs[i] !in kids && theirs[i].rehijo == old(theirs[i].rehijo);
          }
        }
      }
    }

    // add_server
    method AddServer(servername: string) returns (server: Server)
      requires Threaded() && forall s :: s in list ==> s.serial < arrivals
      modifies this`serverlist, this`servercnt, this`list, this`arrivals, list`prev
      ensures fresh(server) && server.name == servername && server.serial == old(arrivals)
      ensures server.hub == null && server.hijo == null && server.rehijo == null && server.users == 0
      ensures Threaded() && list == [server] + old(list)
      ensures servercnt == old(servercnt) + 1 && arrivals == old(arrivals) + 1
    {
      servercnt := servercnt + 1;
      server := new Server(servername, arrivals);
      server.next := serverlist;
      if server.next != null {
        server.next.prev := server;
      }
      serverlist := server;
      ghost var was := list;
      assert lastserver == null || lastserver in was;
      list := [server] + list;
      arrivals := arrivals + 1;
      NewestCons(was, server);
      forall i | 0 <= i < |list|
        ensures list[i].next == At(list, i + 1)
      {
        assert i > 0 ==> old(was[i-1].next) == At(was, i);
      }
      forall i | 0 <= i < |list|
        ensures list[i].prev == if i == 0 then null else list[i-1]
      {
        assert i > 1 ==> old(was[i-1].prev) == was[i-2];
      }
    }

    // The part of do_server that puts server last among the children of hub.
    method Append(server: Server, hub: Server, ghost kids: seq<Server>)
      requires Chain(hub, kids) && server.rehijo == null && server !in kids && Oldest(kids)
      modifies hub`hijo, kids`rehijo
      ensures Chain(hub, kids + [server])
    {
      if hub.hijo == null {
        hub.hijo := server;
      } else {
        var tmpserver := hub.hijo;
        ghost var j := 0;
        while tmpserver.rehijo != null
          invariant 0 <= j < |kids| && tmpserver == kids[j]
          decreases |kids| - j
        {
          tmpserver := tmpserver.rehijo;
          j := j + 1;
        }
        KidsDistinct(kids, j);
        tmpserver.rehijo := server;
      }
    }

    ghost predicate Valid()
      reads this, list, forest.hub.Keys
    {
      Threaded() && Drawn() && Roster(list, forest, servercnt)
    }

    // find_servername
    method FindServername(servername: string) returns (server: Server?)
      requires Threaded() && Named(list)
      modifies this`lastserver
      ensures Threaded() && server == Scan(list, servername)
    {
      if lastserver != null && SameName(servername, lastserver.name) {
        ScanOnly(list, servername, lastserver);
        return lastserver;
      }
      server := serverlist;
      ghost var i := 0;
      while server != null
        invariant i <= |list| && server == At(list, i)
        invariant Scan(list, servername) == Scan(list[i..], servername)
        decreases |list| - i
      {
        if SameName(servername, server.name) {
          lastserver := server;
          return;
        }
        server := server.next;
        i := i + 1;
      }
    }

    // find_servernumeric
    method FindServernumeric(numeric: string) returns (server: Server?)
      requires Threaded() && Numbered(list)
      modifies this`lastserver
      ensures Threaded() && server == ScanNumeric(list, numeric)
    {
      if lastserver != null && SameLead(numeric, lastserver.numerico) {
        ScanNumericOnly(list, numeric, lastserver);
        return lastserver;
      }
      server := serverlist;
      ghost var i := 0;
      while server != null
        invariant i <= |list| && server == At(list, i)
        invariant ScanNumeric(list, numeric) == ScanNumeric(list[i..], numeric)
        decreases |list| - i
      {
        if SameLead(numeric, server.numerico) {
          lastserver := server;
          return;
        }
        server := server.next;
        i := i + 1;
      }
    }

    // do_server after add_server, once the hub is known
    method Attach(server: Server, hub: Server?)
      requires Sound(forest) && Draws(forest) && server !in forest.hub && (hub == null || hub == server || hub in forest.hub)
      requires forall x :: x in forest.hub ==> x.serial < server.serial
      requires server.hub == hub && server.hijo == null && server.rehijo == null && server.serial < arrivals
      modifies this`forest, forest.hub.Keys`hijo, forest.hub.Keys`rehijo
      ensures Drawn() && forest == Graft(old(forest), server, hub)
    {
      GraftSound(forest, server, hub);
      if hub != null && hub != server {
        assert Parent(forest, hub) && Shows(hub, forest.hub[hub], forest.kids[hub]);
        Append(server, hub, forest.kids[hub]);
      }
      ghost var g := Graft(forest, server, hub);
      forall x | x in g.hub
        ensures Among(g.kids[x], g.hub.Keys) && Shows(x, g.hub[x], g.kids[x])
      {
        if x != server {
          ghost var theirs := forest.kids[x];
          assert Parent(forest, x) && old(Shows(x, forest.hub[x], theirs));
          if x != hub && hub != null && hub != server {
            assert Parent(forest, hub);
            forall i | 0 <= i < |theirs|
              ensures theirs[i].rehijo == At(theirs, i + 1)
            {
              assert theirs[i] !in forest.kids[hub] && theirs[i].rehijo == old(theirs[i].rehijo);
            }
          }
        }
      }
      forest := g;
    }

    // The same for a server that has joined the list
    method Hang(server: Server, hub: Server?, ghost before: seq<Server>)
      requires Threaded() && list == [server] + before && Sound(forest) && Draws(forest)
      requires server !in forest.hub && (hub == null || hub == server || hub in forest.hub)
      requires Roster(before, forest, servercnt - 1) && Scan(before, server.name) == null
      requires forall x :: x in forest.hub ==> x.serial < server.serial
      requires server.hub == hub && server.hijo == null && server.rehijo == null && server.serial < arrivals
      modifies this`forest, forest.hub.Keys`hijo, forest.hub.Keys`rehijo
      ensures Valid() && forest == Graft(old(forest), server, hub) && (old(Numbered(list)) ==> Numbered(list))
    {
      RosterGraft(forest, before, servercnt - 1, server, hub);
      Attach(server, hub);
    }

    method FindHub(p10: bool, source: string) returns (hub: Server?)
      requires Threaded() && Named(list) && (p10 ==> Numbered(list))
      modifies this`lastserver
      ensures Threaded() && hub == ScanHub(p10, list, source)
    {
      if p10 {
        hub := FindServernumeric(source);
      } else {
        hub := FindServername(source);
      }
    }

    // do_server's choice of the hub of a server that is first in the list
    method ChooseHub(p10: bool, server: Server, source: string)
      requires Threaded() && Named(list) && (p10 ==> Numbered(list)) && At(list, 0) == server
      requires source == "" || !(if p10 then SameLead(source, server.numerico) else SameName(source, server.name))
      modifies server`hub, this`lastserver, this`serverHUB
      ensures Threaded() && (p10 ==> Numbered(list))
      ensures server.hub == (if source == "" then server else ScanHub(p10, list[1..], source))
      ensures source == "" ==> serverHUB == server.name
    {
      server.hub := FindHub(p10, source);
      if source == "" {
        serverHUB := server.name;
        server.hub := FindServername(server.name);
      }
    }

    // do_server up to the choice of the hub
    method Enter(p10: bool, name: string, numeric: string) returns (server: Server)
      requires Valid() && Scan(list, name) == null && (p10 ==> Numbered(list) && ScanNumeric(list, numeric) == null)
      modifies this`serverlist, this`servercnt, this`list, this`arrivals, forest.hub.Keys`prev
      ensures fresh(server) && server.name == name && server.numerico == numeric && server.users == 0
      ensures server.hijo == null && server.rehijo == null && server.serial + 1 == arrivals
      ensures Threaded() && Named(list) && list == [server] + old(list) && servercnt == |list|
      ensures p10 ==> Numbered(list)
      ensures Draws(forest) && forall x :: x in forest.hub ==> x.serial < server.serial
    {
      ScanIn(list, name);
      ghost var before := list;
      server := AddServer(name);
      server.numerico := numeric;
      NamedCons(before, server);
      if p10 {
        NumberedCons(before, server);
      }
    }

    // do_server from there on
    method Settle(p10: bool, server: Server, source: string, ghost before: seq<Server>)
      requires Threaded() && Named(list) && (p10 ==> Numbered(list)) && list == [server] + before
      requires source == "" || !(if p10 then SameLead(source, server.numerico) else SameName(source, server.name))
      requires Sound(forest) && Draws(forest) && server !in forest.hub
      requires Roster(before, forest, servercnt - 1) && Scan(before, server.name) == null
      requires forall x :: x in forest.hub ==> x.serial < server.serial
      requires server.hijo == null && server.rehijo == null && server.serial < arrivals
      modifies this`lastserver, this`serverHUB, this`forest, server`hub, forest.hub.Keys`hijo, forest.hub.Keys`rehijo
      ensures Valid() && (p10 ==> Numbered(list))
      ensures var hub := if source == "" then server else ScanHub(p10, before, source);
              (hub == null || hub == server || hub in old(forest.hub)) && forest == Graft(old(forest), server, hub)
      ensures source == "" ==> serverHUB == server.name
    {
      assert list[1..] == before;
      ScanHubIn(p10, before, source);
      ChooseHub(p10, server, source);
      Hang(server, server.hub, before);
    }

    // do_server
    method DoServer(p10: bool, source: string, name: string, numeric: string) returns (server: Server)
      requires Valid() && (p10 ==> Numbered(list))
      requires Stranger(p10, list, source, name, numeric)
      modifies this, forest.hub.Keys`prev, forest.hub.Keys`hijo, forest.hub.Keys`rehijo
      ensures Valid() && fresh(server) && list == [server] + old(list) && (p10 ==> Numbered(list))
      ensures server.name == name && server.numerico == numeric && server.users == 0
      ensures var hub := if source == "" then server else if p10 then old(ScanNumeric(list, source)) else Scan(old(list), source);
              (hub == null || hub == server || hub in old(forest.hub)) && forest == Graft(old(forest), server, hub)
      ensures source == "" ==> serverHUB == name
    {
      ghost var before, hub := list, ScanHub(p10, list, source);
      server := Enter(p10, name, numeric);
      assert ScanHub(p10, before, source) == hub;
      Settle(p10, server, source, before);
    }

    // do_squit up to the deletion of server itself
    method Prune(server: Server, hub: Server, ghost k: nat)
      requires Threaded() && Drawn() && Among(list, forest.hub.Keys) && Below(forest, server) <= Elems(list)
      requires server in list && server in forest.hub && hub in forest.hub
      requires forest.hub[server] == hub && hub != server
      requires k < |forest.kids[hub]| && forest.kids[hub][k] == server
      modifies this`serverlist, this`lastserver, this`servercnt, this`nodos, this`usuarios, this`list
      modifies forest.hub.Keys`next, forest.hub.Keys`prev, forest.hub.Keys`hijo, forest.hub.Keys`rehijo
      ensures Threaded() && Among(list, forest.hub.Keys) && server in list
      ensures list == Without(old(list), Below(forest, server))
      ensures Sound(Cut(forest, server)) && Draws(Cut(forest, server))
      ensures Balance() == old(Balance())
    {
      WithoutMembers(list, Below(forest, server));
      assert server in Elems(list) - Below(forest, server);
      RecursiveSquit(server);
      assert Parent(forest, hub);
      Detach(server, hub, k);
      CutSound(forest, server);
      CutDrawn(forest, hub, server);
    }

    // do_squit including that deletion
    method Expel(server: Server, hub: Server, ghost k: nat)
      requires Threaded() && Drawn() && Among(list, forest.hub.Keys) && Below(forest, server) <= Elems(list)
      requires server in list && server in forest.hub && hub in forest.hub
      requires forest.hub[server] == hub && hub != server
      requires k < |forest.kids[hub]| && forest.kids[hub][k] == server
      modifies this`serverlist, this`lastserver, this`servercnt, this`nodos, this`usuarios, this`list
      modifies forest.hub.Keys`next, forest.hub.Keys`prev, forest.hub.Keys`hijo, forest.hub.Keys`rehijo
      ensures Threaded() && list == Without(old(list), Below(forest, server) + {server})
      ensures Sound(Cut(forest, server)) && Draws(Cut(forest, server))
      ensures Balance() == old(Balance())
    {
      WithoutTwice(list, Below(forest, server), {server});
      Prune(server, hub, k);
      DelServer(server);
    }

    // do_squit on the server that it found
    method SquitFound(server: Server)
      requires Valid() && server in list && server.hub != null && server.hub != server
      modifies this`serverlist, this`lastserver, this`servercnt, this`nodos, this`usuarios, this`list, this`forest
      modifies forest.hub.Keys`next, forest.hub.Keys`prev, forest.hub.Keys`hijo, forest.hub.Keys`rehijo
      ensures Valid() && server in old(forest.hub)
      ensures list == Without(old(list), Below(old(forest), server) + {server})
      ensures forest == Cut(old(forest), server)
      ensures Balance() == old(Balance())
    {
      assert Hubbed(forest, server) && Shows(server, forest.hub[server], forest.kids[server]);
      ghost var k :| 0 <= k < |forest.kids[server.hub]| && forest.kids[server.hub][k] == server;
      RosterCut(forest, list, servercnt, server);
      Expel(server, server.hub, k);
      forest := Cut(forest, server);
      assert servercnt == |list|;
    }

    // A server without children has nothing below it, and one with children something.
    lemma Childless(s: Server)
      requires Drawn() && s in forest.hub
      ensures s.hijo == null ==> Below(forest, s) == {}
      ensures s.hijo != null ==> s.hijo in Below(forest, s)
    {
      PrunedAll(forest, s);
      assert Shows(s, forest.hub[s], forest.kids[s]) && Parent(forest, s);
      if s.hijo != null {
        assert s.hijo == forest.kids[s][0] && Under(forest, s, s) && Under(forest, s.hijo, s);
      }
    }

    // do_squit on a server whose hub was never found: it stays, but all below it goes, and its
    // hijo is not changed.
    method SquitStray(server: Server)
      requires Valid() && server in list && server.hub == null
      modifies this`serverlist, this`lastserver, this`servercnt, this`nodos, this`usuarios, this`list
      modifies forest.hub.Keys`next, forest.hub.Keys`prev
      ensures Threaded() && server in list && server in forest.hub && list == Without(old(list), Below(forest, server))
      ensures (Valid() <==> server.hijo == null) && (Live(server.hijo) <==> server.hijo == null)
      ensures Balance() == old(Balance())
    {
      Childless(server);
      WithoutMembers(list, Below(forest, server));
      assert server in Elems(list) - Below(forest, server);
      RecursiveSquit(server);
      if server.hijo == null {
        WithoutNone(old(list), {});
      } else {
        assert server.hijo !in Elems(list) && server.hijo in forest.hub;
      }
    }

    // do_squit on the server that it found. The network is as valid as before unless the server has
    // children and no hub.
    method SquitAny(server: Server)
      requires Valid() && server in list && server.hub != server
      modifies this`serverlist, this`lastserver, this`servercnt, this`nodos, this`usuarios, this`list, this`forest
      modifies forest.hub.Keys`next, forest.hub.Keys`prev, forest.hub.Keys`hijo, forest.hub.Keys`rehijo
      ensures Threaded() && (Valid() <==> server.hub != null || server.hijo == null)
      ensures server in old(forest.hub) && old(forest.hub[server]) == server.hub && old(Sound(forest))
      ensures list == Remaining(old(forest), old(list), server) && forest == Pared(old(forest), server)
      ensures server.hub == null ==> server in list && server.hijo == old(server.hijo)
      ensures Balance() == old(Balance())
    {
      assert Shows(server, forest.hub[server], forest.kids[server]);
      if server.hub == null {
        SquitStray(server);
      } else {
        SquitFound(server);
      }
    }

    // do_squit: the differences in the counters are those of lemma Tally.
    method DoSquit(name: string)
      requires Valid()
      requires var s := Scan(list, name); s == null || s.hub != s
      modifies this, forest.hub.Keys`next, forest.hub.Keys`prev, forest.hub.Keys`hijo, forest.hub.Keys`rehijo
      ensures Threaded()
      ensures var s := Scan(old(list), name); s == null || (s in old(forest.hub) && s.hub == old(forest.hub[s]) && old(Sound(forest)))
      ensures var s := Scan(old(list), name); Valid() <==> s == null || s.hub != null || s.hijo == null
      ensures var s := Scan(old(list), name);
              list == Remaining(old(forest), old(list), s) && forest == Pared(old(forest), s)
      ensures var s := Scan(old(list), name); s != null && s.hub == null ==> s in list && s.hijo == old(s.hijo)
      ensures nodos == |old(list)| - |list|
      ensures usuarios == old(Users(list)) - Users(list)
    {
      ScanIn(list, name);
      var server := FindServername(name);
      usuarios := 0;
      nodos := 0;
      ghost var users := Users(list);
      if server != null {
        SquitAny(server);
        assert usuarios + Users(list) == users;
      }
    }

    ghost predicate Live(p: Server?)
      reads this`list
    {
      p == null || p in list
    }

    // No pointer of a listed server, nor the cache, leads anywhere but to a listed server.
    lemma NoStalePointer(s: Server)
      requires Valid() && s in list
      ensures Live(s.next) && Live(s.prev) && Live(s.hub) && Live(s.hijo) && Live(s.rehijo)
      ensures Live(serverlist) && Live(lastserver)
    {
      var i :| 0 <= i < |list| && list[i] == s;
      assert list[i].next == At(list, i + 1) && list[i].prev == if i == 0 then null else list[i-1];
      assert Hubbed(forest, s) && Parent(forest, s) && Shows(s, forest.hub[s], forest.kids[s]);
      assert forall x :: x in forest.hub ==> x in Elems(list);
      assert s.hijo != null ==> s.hijo in forest.kids[s];
      if s.rehijo != null {
        var kids := forest.kids[s.hub];
        assert Parent(forest, s.hub) && Shows(s.hub, forest.hub[s.hub], kids);
        var j :| 0 <= j < |kids| && kids[j] == s;
        assert kids[j].rehijo == At(kids, j + 1) && s.rehijo in kids;
      }
    }
  }
}
