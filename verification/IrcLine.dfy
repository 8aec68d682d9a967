// process.c: a line from the server is split into its source, its command and its parameters.

module IrcLine {
  import opened CString
  import opened Sight

  const NUL := '\0'

  // ---------- the parts of a line ----------

  // Where the first space is, or the length if there is none
  function FirstSpace(s: string): (k: nat)
    ensures k <= |s| && (k < |s| ==> s[k] == ' ')
  {
    if s == "" || s[0] == ' ' then 0 else 1 + FirstSpace(s[1..])
  }

  // The first parameter of a line, and the rest. A colon makes the rest of the line the last of them.
  function Head(s: string): string
    requires s != ""
  {
    if s[0] == ':' then s[1..] else s[..FirstSpace(s)]
  }

  function Tail(s: string): (r: string)
    requires s != ""
    ensures |r| < |s|
  {
    if s[0] == ':' || FirstSpace(s) == |s| then "" else SkipSpace(s[FirstSpace(s) + 1..])
  }

  function Split(s: string): seq<string>
    decreases |s|
  {
    if s == "" then [] else [Head(s)] + Split(Tail(s))
  }

  // The parameters if a colon had no meaning
  function Words(s: string): seq<string>
    decreases |s|
  {
    if s == "" then []
    else
      var k := FirstSpace(s);
      [s[..k]] + Words(if k == |s| then "" else SkipSpace(s[k + 1..]))
  }

  predicate ColonLed(w: string) {
    w != "" && w[0] == ':'
  }

  lemma {:induction false} BeforeSpace(s: string)
    ensures ' ' !in s[..FirstSpace(s)]
  {
    if s != "" && s[0] != ' ' {
      BeforeSpace(s[1..]);
      assert s[..FirstSpace(s)] == [s[0]] + s[1..][..FirstSpace(s[1..])];
    }
  }

  // The text behind a colon is never the word that starts with it.
  lemma ColonCounts(s: string)
    requires s != "" && s[0] == ':'
    ensures FirstSpace(s) > 0 && s[1..] != s[..FirstSpace(s)]
  {
    var k := FirstSpace(s);
    BeforeSpace(s);
    assert s[..k][k - 1] in s[..k];
    assert k == |s| - 1 ==> s[1..][k - 1] == ' ';
  }

  ghost predicate NoneLed(ws: seq<string>) {
    forall i :: 0 <= i < |ws| ==> !ColonLed(ws[i])
  }

  lemma NoneLedCons(w: string, ws: seq<string>)
    ensures NoneLed([w] + ws) <==> !ColonLed(w) && NoneLed(ws)
  {
    assert forall i :: 0 <= i < |ws| ==> ws[i] == ([w] + ws)[i + 1];
    assert ([w] + ws)[0] == w;
  }

  // A caller that wants no meaning for colons gets it exactly if no word starts with one.
  lemma {:induction false} ColonsMatter(s: string)
    ensures Split(s) == Words(s) <==> NoneLed(Words(s))
    decreases |s|
  {
    if s != "" {
      var k := FirstSpace(s);
      var word, tail := s[..k], if k == |s| then "" else SkipSpace(s[k + 1..]);
      NoneLedCons(word, Words(tail));
      if s[0] == ':' {
        ColonCounts(s);
        assert Split(s)[0] == s[1..] && Words(s)[0] == word;
      } else {
        ColonsMatter(tail);
        assert Split(s)[1..] == Split(tail) && Words(s)[1..] == Words(tail);
      }
    }
  }

  // ---------- C strings in a buffer ----------

  // The string s stands at a place of a buffer.
  ghost predicate IsStr(b: seq<char>, at: nat, s: string) {
    at + |s| < |b| && b[at..at + |s|] == s && b[at + |s|] == NUL && NUL !in s
  }

  lemma StrTail(b: seq<char>, at: nat, s: string, k: nat)
    requires IsStr(b, at, s) && k <= |s|
    ensures IsStr(b, at + k, s[k..])
  {
    assert b[at + k..at + |s|] == b[at..at + |s|][k..];
  }

  // strpbrk(s, " "): the place of the first space, or of the end
  method FindSpace(buf: array<char>, at: nat, ghost s: string) returns (p: nat)
    requires IsStr(buf[..], at, s)
    ensures p == at + FirstSpace(s)
  {
    p := at;
    ghost var rest := s;
    while buf[p] != NUL && buf[p] != ' '
      invariant IsStr(buf[..], p, rest) && p + FirstSpace(rest) == at + FirstSpace(s)
      decreases |rest|
    {
      StrTail(buf[..], p, rest, 1);
      assert buf[p] == rest[0];
      rest := rest[1..];
      p := p + 1;
    }
    assert rest != "" ==> buf[p] == rest[0];
  }

  method SkipSpaces(buf: array<char>, at: nat, ghost s: string) returns (p: nat)
    requires IsStr(buf[..], at, s)
    ensures p == at + |s| - |SkipSpace(s)| && IsStr(buf[..], p, SkipSpace(s))
  {
    p := at;
    ghost var rest := s;
    while IsSpace(buf[p])
      invariant IsStr(buf[..], p, rest) && p + |rest| == at + |s| && SkipSpace(rest) == SkipSpace(s)
      decreases |rest|
    {
      assert rest != "" && buf[p] == rest[0];
      StrTail(buf[..], p, rest, 1);
      rest := rest[1..];
      p := p + 1;
    }
    assert rest != "" ==> buf[p] == rest[0];
  }

  // ---------- split_buf ----------

  // What the vector points to so far: the parameters found, each ended before the place reached
  ghost predicate Found(b: seq<char>, argv: seq<nat>, args: seq<string>, pos: nat) {
    |argv| == |args| && forall i :: 0 <= i < |args| ==> IsStr(b, argv[i], args[i]) && argv[i] + |args[i]| <= pos
  }

  // The parameters found are the first of all. Only an assertion of Look unfolds this.
  ghost predicate Cutting(b: seq<char>, argv: seq<nat>, args: seq<string>, pos: nat, rest: string, all: seq<string>) {
    forall x: int {:trigger Look(x)} :: Look(x) ==>
      IsStr(b, pos, rest) && Found(b, argv, args, pos) && args + Split(rest) == all
  }

  // A character from pos on may change, as long as pos holds none of the ends.
  lemma FoundKept(b: seq<char>, argv: seq<nat>, args: seq<string>, pos: nat, p: nat)
    requires Found(b, argv, args, pos) && pos <= p < |b| && b[pos] != NUL
    ensures Found(b[p := NUL], argv, args, pos)
  {
    forall i | 0 <= i < |args|
      ensures IsStr(b[p := NUL], argv[i], args[i])
    {
      var e := argv[i] + |args[i]|;
      assert e < pos;
      assert b[p := NUL][argv[i]..e] == b[argv[i]..e];
    }
  }

  lemma FoundMore(b: seq<char>, argv: seq<nat>, args: seq<string>, pos: nat, at: nat, arg: string, end: nat)
    requires Found(b, argv, args, pos) && pos <= end && IsStr(b, at, arg) && at + |arg| <= end
    ensures Found(b, argv + [at], args + [arg], end)
  {
  }

  // smalloc or srealloc: a vector with the same pointers in front
  method Grow(argv: array<nat>, argc: nat, size: nat) returns (a: array<nat>)
    requires argc <= argv.Length && argc <= size
    ensures fresh(a) && a.Length == size && a[..argc] == argv[..argc]
  {
    a := new nat[size];
    var i := 0;
    while i < argc
      invariant 0 <= i <= argc && a[..i] == argv[..i]
    {
      a[i] := argv[i];
      i := i + 1;
    }
  }

  // The buffer is cut up in place; the vector points into it.
  // colonSpecial is not looked at.
  method SplitBuf(buf: array<char>, start: nat, colonSpecial: bool, ghost line: string) returns (argv: array<nat>, argc: nat)
    requires IsStr(buf[..], start, line)
    modifies buf
    ensures fresh(argv) && argc == |Split(line)| <= argv.Length
    ensures forall i :: 0 <= i < argc ==> IsStr(buf[..], argv[i], Split(line)[i])
  {
    argv := new nat[8];
    argc := 0;
    var pos: nat := start;
    ghost var rest, args: seq<string> := line, [];
    ghost var all := Split(line);
    assert args + all == all;
    while buf[pos] != NUL
      invariant fresh(argv) && argc <= argv.Length && pos < buf.Length
      invariant Cutting(buf[..], argv[..argc], args, pos, rest, all)
      decreases |rest|
    {
      argv, pos, args, rest := NextArg(buf, pos, argv, argc, args, rest, all);
      argc := argc + 1;
    }
    FoundAll(buf[..], argv[..argc], args, pos, rest, all);
    assert forall i :: 0 <= i < argc ==> argv[..argc][i] == argv[i];
  }

  // One round: the next parameter goes into the vector, which grows if it is full.
  method NextArg(buf: array<char>, pos: nat, argv: array<nat>, argc: nat, ghost args: seq<string>, ghost rest: string,
                 ghost all: seq<string>)
    returns (a: array<nat>, end: nat, ghost more: seq<string>, ghost left: string)
    requires argc <= argv.Length && pos < buf.Length && buf[pos] != NUL && Cutting(buf[..], argv[..argc], args, pos, rest, all)
    modifies buf, argv
    ensures a == argv || fresh(a)
    ensures argc < a.Length && end < buf.Length && |left| < |rest| && Cutting(buf[..], a[..argc + 1], more, end, left, all)
  {
    a := argv;
    if argc == argv.Length {
      a := Grow(argv, argc, argv.Length + 8);
    }
    end, more, left := TakeArg(buf, pos, a, argc, args, rest, all);
  }

  lemma FoundAll(b: seq<char>, argv: seq<nat>, args: seq<string>, pos: nat, rest: string, all: seq<string>)
    requires pos < |b| && b[pos] == NUL && Cutting(b, argv, args, pos, rest, all)
    ensures |argv| == |all| && forall i :: 0 <= i < |all| ==> IsStr(b, argv[i], all[i])
  {
    assert Look(0) && args + [] == args;
  }

  lemma SplitStep(args: seq<string>, rest: string)
    requires rest != ""
    ensures args + Split(rest) == (args + [Head(rest)]) + Split(Tail(rest))
  {
    var more := Split(Tail(rest));
    assert args + ([Head(rest)] + more) == (args + [Head(rest)]) + more;
  }

  // A parameter behind a colon, which runs to the end
  method TakeLast(buf: array<char>, pos: nat, ghost rest: string) returns (at: nat, end: nat)
    requires IsStr(buf[..], pos, rest) && rest != "" && rest[0] == ':'
    ensures IsStr(buf[..], at, Head(rest)) && at + |Head(rest)| <= end
    ensures pos <= end && IsStr(buf[..], end, Tail(rest))
  {
    at := pos + 1;
    StrTail(buf[..], pos, rest, 1);
    StrTail(buf[..], pos, rest, |rest|);
    end := EndOf(buf, pos, rest);
  }

  // A parameter up to a space, which a NUL takes the place of, or up to the end
  method TakeWord(buf: array<char>, pos: nat, ghost rest: string, ghost argv: seq<nat>, ghost args: seq<string>)
    returns (end: nat)
    requires IsStr(buf[..], pos, rest) && rest != "" && rest[0] != ':' && Found(buf[..], argv, args, pos)
    modifies buf
    ensures Found(buf[..], argv, args, pos) && IsStr(buf[..], pos, Head(rest)) && pos + |Head(rest)| <= end
    ensures pos <= end && IsStr(buf[..], end, Tail(rest))
  {
    ghost var k, head, tail, b := FirstSpace(rest), Head(rest), Tail(rest), buf[..];
    WordIs(rest, k);
    var s := FindSpace(buf, pos, rest);
    assert b[pos] == rest[0] && (k < |rest| ==> b[s] == b[pos..pos + |rest|][k]);
    if buf[s] == ' ' {
      FoundKept(b, argv, args, pos, s);
      end := CutAt(buf, pos, s, rest, k);
    } else {
      end := s;
      Whole(rest);
      StrTail(b, pos, rest, |rest|);
    }
  }

  lemma WordIs(rest: string, k: nat)
    requires rest != "" && rest[0] != ':' && k == FirstSpace(rest)
    ensures Head(rest) == rest[..k] && Tail(rest) == if k == |rest| then "" else SkipSpace(rest[k + 1..])
  {
  }

  lemma Whole(s: string)
    ensures s[..|s|] == s
  {
  }

  // A NUL for the k-th character, and on to what follows
  method CutAt(buf: array<char>, pos: nat, s: nat, ghost rest: string, ghost k: nat) returns (end: nat)
    requires IsStr(buf[..], pos, rest) && k < |rest| && s == pos + k
    modifies buf
    ensures buf[..] == old(buf[..])[s := NUL] && IsStr(buf[..], pos, rest[..k]) && s < end
    ensures IsStr(buf[..], end, SkipSpace(rest[k + 1..]))
  {
    Ended(buf[..], pos, rest, k);
    ghost var b := buf[..];
    buf[s] := NUL;
    assert buf[..] == b[s := NUL];
    end := SkipSpaces(buf, s + 1, rest[k + 1..]);
  }

  method TakeArg(buf: array<char>, pos: nat, argv: array<nat>, argc: nat, ghost args: seq<string>, ghost rest: string,
                 ghost all: seq<string>)
    returns (end: nat, ghost more: seq<string>, ghost left: string)
    requires argc < argv.Length && pos < buf.Length && buf[pos] != NUL && Cutting(buf[..], argv[..argc], args, pos, rest, all)
    modifies buf, argv
    ensures end < buf.Length && |left| < |rest| && Cutting(buf[..], argv[..argc + 1], more, end, left, all)
  {
    assert Look(0);
    assert buf[pos] == rest[0];
    ghost var was := argv[..argc];
    var at := pos;
    if buf[pos] == ':' {
      at, end := TakeLast(buf, pos, rest);
    } else {
      end := TakeWord(buf, pos, rest, was, args);
    }
    argv[argc] := at;
    assert argv[..argc + 1] == was + [at];
    FoundMore(buf[..], was, args, pos, at, Head(rest), end);
    SplitStep(args, rest);
    more, left := args + [Head(rest)], Tail(rest);
  }

  // strlen
  method EndOf(buf: array<char>, at: nat, ghost s: string) returns (p: nat)
    requires IsStr(buf[..], at, s)
    ensures p == at + |s|
  {
    p := at;
    ghost var rest := s;
    while buf[p] != NUL
      invariant IsStr(buf[..], p, rest) && p + |rest| == at + |s|
      decreases |rest|
    {
      StrTail(buf[..], p, rest, 1);
      rest := rest[1..];
      p := p + 1;
    }
  }

  // A NUL over a character of a string leaves two strings.
  lemma Ended(b: seq<char>, at: nat, s: string, k: nat)
    requires IsStr(b, at, s) && k < |s|
    ensures IsStr(b[at + k := NUL], at, s[..k]) && IsStr(b[at + k := NUL], at + k + 1, s[k + 1..])
  {
    var c := b[at + k := NUL];
    assert c[at..at + k] == b[at..at + |s|][..k];
    assert c[at + k + 1..at + |s|] == b[at..at + |s|][k + 1..];
  }

  // ---------- process ----------

  const LINE_SIZE := 512
  const WORD_SIZE := 64

  datatype Command = Command(source: string, cmd: string, args: seq<string>)

  // The command of a line whose prefix has been taken off
  function ParseCommand(source: string, s: string): Option<Command> {
    if s == "" then None
    else
      var k := FirstSpace(s);
      Some(Command(source, Truncated(s[..k], WORD_SIZE), Split(if k == |s| then "" else SkipSpace(s[k + 1..]))))
  }

  // The protocol that the daemon is compiled for; with P10, the nick of each numeric
  datatype Protocol = Plain | P10(nickOf: string -> Option<string>)

  const SERVER := "SERVER"

  // The first word of a line without its first skip characters, and what is left of the line;
  // None if nothing is
  function FirstWord(s: string, skip: nat): Option<(string, string)>
    requires skip <= FirstSpace(s)
  {
    var k := FirstSpace(s);
    if k == |s| then None else Some((Truncated(s[skip..k], WORD_SIZE), SkipSpace(s[k + 1..])))
  }

  // A word of three characters is a numeric, and stands for a nick. None if nobody has it.
  function Sender(nickOf: string -> Option<string>, word: string): Option<string> {
    if |word| != 3 then Some(word)
    else match nickOf(word)
      case None => None
      case Some(nick) => Some(Truncated(nick, WORD_SIZE))
  }

  // The source of a line, and what is left of it; None for lines to be ignored. Under P10 only
  // SERVER stands without a source, and a source without a colon may be a numeric.
  function Prefix(protocol: Protocol, s: string): Option<(string, string)> {
    if s != "" && s[0] == ':' then FirstWord(s, 1)
    else if protocol.Plain? || SERVER <= s then Some(("", s))
    else match FirstWord(s, 0)
      case None => None
      case Some((word, rest)) =>
        match Sender(protocol.nickOf, word)
        case None => None
        case Some(source) => Some((source, rest))
  }

  // What process makes of a line
  function Parse(protocol: Protocol, inbuf: string): Option<Command> {
    match Prefix(protocol, Truncated(inbuf, LINE_SIZE))
    case None => None
    case Some((source, rest)) => ParseCommand(source, rest)
  }

  // strscpy into a buffer
  method Fill(buf: array<char>, s: string)
    requires |s| < buf.Length && NUL !in s
    modifies buf
    ensures IsStr(buf[..], 0, s)
  {
    var i := 0;
    while i < |s|
      invariant 0 <= i <= |s| && buf[..i] == s[..i]
    {
      buf[i] := s[i];
      i := i + 1;
    }
    buf[i] := NUL;
    assert s[..|s|] == s;
  }

  // The string at a place, copied out
  method Copy(buf: array<char>, at: nat, ghost s: string) returns (r: string)
    requires IsStr(buf[..], at, s)
    ensures r == s
  {
    r := "";
    ghost var rest := s;
    var p: nat := at;
    while buf[p] != NUL
      invariant IsStr(buf[..], p, rest) && r + rest == s
      decreases |rest|
    {
      assert rest != "" && buf[p] == rest[0];
      StrTail(buf[..], p, rest, 1);
      r := r + [buf[p]];
      rest := rest[1..];
      p := p + 1;
    }
    assert r + "" == r;
  }

  // memmove to the start of the buffer
  method MoveDown(buf: array<char>, at: nat, ghost s: string)
    requires IsStr(buf[..], at, s)
    modifies buf
    ensures IsStr(buf[..], 0, s)
  {
    var end := EndOf(buf, at, s);
    var n := end - at;
    ghost var b := buf[..];
    var i := 0;
    while i <= n
      invariant 0 <= i <= n + 1
      invariant forall k :: 0 <= k < i ==> buf[k] == b[at + k]
      invariant forall k :: at + i <= k < buf.Length ==> buf[k] == b[k]
    {
      buf[i] := buf[at + i];
      i := i + 1;
    }
    assert buf[..n] == b[at..at + n];
  }

  // The arguments, copied out of the buffer
  method CopyArgs(buf: array<char>, argv: array<nat>, argc: nat, ghost all: seq<string>) returns (args: seq<string>)
    requires argc == |all| <= argv.Length && forall i :: 0 <= i < argc ==> IsStr(buf[..], argv[i], all[i])
    ensures args == all
  {
    args := [];
    for i := 0 to argc
      invariant args == all[..i]
    {
      var a := Copy(buf, argv[i], all[i]);
      args := args + [a];
    }
  }

  // The command in the buffer
  method TakeCommand(buf: array<char>, source: string, ghost s: string) returns (r: Option<Command>)
    requires IsStr(buf[..], 0, s)
    modifies buf
    ensures r == ParseCommand(source, s)
  {
    assert s != "" ==> buf[0] == s[0];
    if buf[0] == NUL {
      return None;
    }
    ghost var k := FirstSpace(s);
    ghost var rest := if k == |s| then "" else SkipSpace(s[k + 1..]);
    var e := FindSpace(buf, 0, s);
    assert k < |s| ==> buf[k] == s[k];
    if buf[e] == ' ' {
      e := CutAt(buf, 0, e, s, k);
    } else {
      Whole(s);
      StrTail(buf[..], 0, s, |s|);
    }
    var cmd := Copy(buf, 0, s[..k]);
    var argv, argc := SplitBuf(buf, e, true, rest);
    var args := CopyArgs(buf, argv, argc, Split(rest));
    return Some(Command(source, Truncated(cmd, WORD_SIZE), args));
  }

  // The first word is copied out without its first skip characters, and the rest moved to the
  // start of the buffer.
  method TakeFirst(buf: array<char>, skip: nat, ghost s: string) returns (ok: bool, word: string, ghost rest: string)
    requires IsStr(buf[..], 0, s) && skip <= FirstSpace(s)
    modifies buf
    ensures ok <==> FirstWord(s, skip) != None
    ensures ok ==> FirstWord(s, skip) == Some((word, rest)) && IsStr(buf[..], 0, rest)
  {
    ghost var k := FirstSpace(s);
    word, rest := "", "";
    var e := FindSpace(buf, 0, s);
    assert k < |s| ==> buf[k] == s[k];
    if buf[e] != ' ' {
      return false, word, rest;
    }
    rest := SkipSpace(s[k + 1..]);
    e := CutAt(buf, 0, e, s, k);
    StrTail(buf[..], 0, s[..k], skip);
    assert s[..k][skip..] == s[skip..k];
    word := Copy(buf, skip, s[skip..k]);
    word := Truncated(word, WORD_SIZE);
    MoveDown(buf, e, rest);
    ok := true;
  }

  // strncmp(buf, w, strlen(w)) == 0
  method Begins(buf: array<char>, w: string, ghost s: string) returns (r: bool)
    requires IsStr(buf[..], 0, s) && NUL !in w
    ensures r <==> w <= s
  {
    var i := 0;
    while i < |w| && buf[i] == w[i]
      invariant 0 <= i <= |w| && w[..i] <= s
    {
      assert i < |s| && buf[i] == s[i];
      i := i + 1;
    }
    assert i < |s| ==> buf[i] == s[i];
    r := i == |w|;
  }

  // The source, with a numeric replaced by the nick
  method TakePrefix(protocol: Protocol, buf: array<char>, ghost s: string) returns (ok: bool, source: string, ghost rest: string)
    requires IsStr(buf[..], 0, s)
    modifies buf
    ensures ok <==> Prefix(protocol, s) != None
    ensures ok ==> Prefix(protocol, s) == Some((source, rest)) && IsStr(buf[..], 0, rest)
  {
    assert s != "" ==> buf[0] == s[0];
    if buf[0] == ':' {
      ok, source, rest := TakeFirst(buf, 1, s);
      return;
    }
    var bare := Begins(buf, SERVER, s);
    if protocol.Plain? || bare {
      return true, "", s;
    }
    ok, source, rest := TakeFirst(buf, 0, s);
    if ok && |source| == 3 {
      match protocol.nickOf(source)
      case None => ok := false;
      case Some(nick) => source := Truncated(nick, WORD_SIZE);
    }
  }

  method Process(protocol: Protocol, inbuf: string) returns (r: Option<Command>)
    requires NUL !in inbuf
    ensures r == Parse(protocol, inbuf)
  {
    var buf := new char[LINE_SIZE];
    ghost var s := Truncated(inbuf, LINE_SIZE);
    Fill(buf, Truncated(inbuf, LINE_SIZE));
    var ok, source;
    ok, source, s := TakePrefix(protocol, buf, s);
    if !ok {
      return None;
    }
    r := TakeCommand(buf, source, s);
  }

  // A line without a command is ignored, and only the first 511 characters of a line count.
  lemma IgnoredLines(protocol: Protocol, word: string, inbuf: string)
    requires ' ' !in word && |word| < 510
    ensures Parse(protocol, "") == Parse(protocol, ":" + word) == Parse(protocol, ":" + word + " ") == None
    ensures |inbuf| >= 512 ==> Parse(protocol, inbuf) == Parse(protocol, inbuf[..511])
  {
    var s := ":" + word;
    SpaceAfter(s, "");
    assert s + "" == s;
    WordAndRest(s, "");
    assert s + " " + "" == s + " ";
  }

  // ---------- lines as RFC 1459, section 2.3.1, has them ----------

  // A message, and whether a colon stands before its last parameter
  datatype Message = Message(prefix: Option<string>, command: string, params: seq<string>, colon: bool)

  // A parameter that may stand without a colon
  predicate Middle(p: string) {
    p != "" && ' ' !in p && p[0] != ':'
  }

  predicate AllMiddle(params: seq<string>, colon: bool) {
    forall i :: 0 <= i < |params| - (if colon then 1 else 0) ==> Middle(params[i])
  }

  predicate WellFormed(m: Message) {
    && (m.prefix != None ==> ' ' !in m.prefix.value && |m.prefix.value| < 64)
    && Middle(m.command) && !IsSpace(m.command[0]) && |m.command| < 64
    && AllMiddle(m.params, m.colon)
  }

  function ParamsText(params: seq<string>, colon: bool): string
    requires params != []
  {
    if |params| > 1 then params[0] + " " + ParamsText(params[1..], colon)
    else if colon then ":" + params[0]
    else params[0]
  }

  function CommandText(m: Message): string {
    m.command + if m.params == [] then "" else " " + ParamsText(m.params, m.colon)
  }

  function Render(m: Message): string {
    if m.prefix == None then CommandText(m) else ":" + m.prefix.value + " " + CommandText(m)
  }

  // A tab, say, may begin a parameter, but isspace holds of it.
  predicate SpaceLed(p: string) {
    p != "" && IsSpace(p[0])
  }

  predicate NoneSpaceLed(params: seq<string>, colon: bool) {
    forall i :: 0 <= i < |params| - (if colon then 1 else 0) ==> !SpaceLed(params[i])
  }

  lemma {:induction false} SpaceAfter(a: string, rest: string)
    requires ' ' !in a && (rest == "" || rest[0] == ' ')
    ensures FirstSpace(a + rest) == |a|
  {
    if a == "" {
      assert a + rest == rest;
    } else {
      assert (a + rest)[0] == a[0] && (a + rest)[1..] == a[1..] + rest;
      SpaceAfter(a[1..], rest);
    }
  }

  // One that does is not among the parameters of the line that it begins.
  lemma SpaceLost(text: string, params: seq<string>)
    requires params != [] && SpaceLed(params[0]) && params[0] <= text && (|params| == 1 ==> text == params[0])
    ensures Split(SkipSpace(text)) != params
  {
    var p, rest := params[0], SkipSpace(text);
    assert text[0] == p[0] && |SkipSpace(text[1..])| < |text|;
    SpaceSkipped(text);
    if rest != "" && rest[0] != ':' {
      assert Head(rest)[0] == rest[0] != p[0];
    }
  }

  lemma ConsSame(p: string, rest: seq<string>, params: seq<string>)
    requires params != [] && params[0] == p
    ensures [p] + rest == params <==> rest == params[1..]
  {
    assert ([p] + rest)[1..] == rest && [p] + params[1..] == params;
  }

  // A word, a space, and the rest
  lemma WordAndRest(word: string, rest: string)
    requires ' ' !in word
    ensures var s := word + " " + rest; FirstSpace(s) == |word| < |s| && s[..|word|] == word && s[|word| + 1..] == rest
  {
    assert word + " " + rest == word + (" " + rest);
    SpaceAfter(word, " " + rest);
  }

  lemma SpaceLedCons(params: seq<string>, colon: bool)
    requires |params| > 1
    ensures NoneSpaceLed(params, colon) <==> !SpaceLed(params[0]) && NoneSpaceLed(params[1..], colon)
  {
    assert forall i :: 0 < i < |params| ==> params[i] == params[1..][i - 1];
  }

  // What is split of a parameter that does not begin with white space, and of more behind it
  lemma SplitWord(p: string, more: string)
    requires Middle(p) && !SpaceLed(p)
    ensures var text := p + " " + more;
            SkipSpace(text) == text && Split(text) == [p] + Split(SkipSpace(more))
  {
    WordAndRest(p, more);
    assert (p + " " + more)[0] == p[0];
  }

  lemma SplitLast(p: string, colon: bool)
    requires AllMiddle([p], colon)
    ensures Split(SkipSpace(ParamsText([p], colon))) == [p] <==> NoneSpaceLed([p], colon)
  {
    if !colon {
      assert Middle([p][0]);
      if SpaceLed(p) {
        SpaceLost(p, [p]);
      } else {
        SpaceAfter(p, "");
        assert p + "" == p && p[..|p|] == p;
      }
    }
  }

  lemma {:induction false} SplitParams(params: seq<string>, colon: bool)
    requires params != [] && AllMiddle(params, colon)
    ensures Split(SkipSpace(ParamsText(params, colon))) == params <==> NoneSpaceLed(params, colon)
  {
    var p, rest := params[0], params[1..];
    if rest == [] {
      assert params == [p];
      SplitLast(p, colon);
    } else {
      var more := ParamsText(rest, colon);
      assert forall i :: 0 <= i < |rest| ==> rest[i] == params[i + 1];
      SpaceLedCons(params, colon);
      if SpaceLed(p) {
        assert p <= p + (" " + more) == p + " " + more;
        SpaceLost(p + " " + more, params);
      } else {
        SplitParams(rest, colon);
        SplitWord(p, more);
        ConsSame(p, Split(SkipSpace(more)), params);
      }
    }
  }

  lemma CommandRoundTrip(m: Message, source: string)
    requires WellFormed(m)
    ensures ParseCommand(source, CommandText(m)) == Some(Command(source, m.command, m.params)) <==> NoneSpaceLed(m.params, m.colon)
  {
    if m.params == [] {
      SpaceAfter(m.command, "");
      assert m.command + "" == m.command && m.command[..|m.command|] == m.command;
    } else {
      var rest := ParamsText(m.params, m.colon);
      assert m.command + (" " + rest) == m.command + " " + rest;
      WordAndRest(m.command, rest);
      SplitParams(m.params, m.colon);
    }
  }

  lemma FirstWordBack(lead: string, word: string, m: Message)
    requires WellFormed(m) && ' ' !in lead && ' ' !in word && |word| < 64
    ensures var s := lead + word + " " + CommandText(m);
            FirstSpace(s) >= |lead| && FirstWord(s, |lead|) == Some((word, CommandText(m)))
  {
    var text := CommandText(m);
    assert text[0] == m.command[0] && SkipSpace(text) == text;
    WordAndRest(lead + word, text);
    assert (lead + word + " " + text)[|lead|..|lead + word|] == (lead + word)[|lead|..] == word;
  }

  lemma PrefixRoundTrip(protocol: Protocol, m: Message)
    requires WellFormed(m) && (protocol.Plain? || m.prefix != None || SERVER <= m.command)
    ensures Prefix(protocol, Render(m)) == Some((if m.prefix == None then "" else m.prefix.value, CommandText(m)))
  {
    var text := CommandText(m);
    assert text[0] == m.command[0];
    if m.prefix != None {
      FirstWordBack(":", m.prefix.value, m);
    } else if SERVER <= m.command {
      assert m.command <= text;
    }
  }

  // A rendered line that fits the buffer is split into the same parts, exactly if no parameter without a
  // colon begins with white space. Under P10 it needs a source, unless it is SERVER.
  lemma LineRoundTrip(protocol: Protocol, m: Message)
    requires WellFormed(m) && |Render(m)| < 512
    requires protocol.Plain? || m.prefix != None || SERVER <= m.command
    ensures Parse(protocol, Render(m)) == Some(Command(if m.prefix == None then "" else m.prefix.value, m.command, m.params)) <==>
            NoneSpaceLed(m.params, m.colon)
  {
    PrefixRoundTrip(protocol, m);
    CommandRoundTrip(m, if m.prefix == None then "" else m.prefix.value);
  }

  // One that begins with a tab loses it.
  lemma TabLost(p: string)
    requires Middle(p) && !SpaceLed(p)
    ensures AllMiddle(["\t" + p], false) && Split(SkipSpace(ParamsText(["\t" + p], false))) == [p]
  {
    var tabbed := "\t" + p;
    assert ' ' !in tabbed && tabbed[0] == '\t' && tabbed[1..] == p;
    assert SkipSpace(tabbed) == SkipSpace(p) == p;
    SpaceAfter(p, "");
    assert p + "" == p && p[..|p|] == p;
  }

  // A line of P10 names its source without a colon. It comes from the nick that has the numeric, or
  // is ignored if nobody has it; a source of another length is taken as it is.
  lemma NumericRoundTrip(nickOf: string -> Option<string>, word: string, m: Message)
    requires WellFormed(m) && word != "" && ' ' !in word && word[0] != ':' && |word| < 64
    requires !(SERVER <= word) && |word + " " + CommandText(m)| < 512
    ensures |word| == 3 && nickOf(word) == None ==> Parse(P10(nickOf), word + " " + CommandText(m)) == None
    ensures |word| != 3 || nickOf(word) != None ==>
              var source := if |word| == 3 then Truncated(nickOf(word).value, 64) else word;
              Parse(P10(nickOf), word + " " + CommandText(m)) == Some(Command(source, m.command, m.params)) <==>
              NoneSpaceLed(m.params, m.colon)
  {
    NumericPrefix(nickOf, word, m);
    if |word| != 3 || nickOf(word) != None {
      CommandRoundTrip(m, if |word| == 3 then Truncated(nickOf(word).value, 64) else word);
    }
  }

  lemma NumericPrefix(nickOf: string -> Option<string>, word: string, m: Message)
    requires WellFormed(m) && word != "" && ' ' !in word && word[0] != ':' && |word| < 64 && !(SERVER <= word)
    ensures Prefix(P10(nickOf), word + " " + CommandText(m)) ==
            match Sender(nickOf, word) case None => None case Some(source) => Some((source, CommandText(m)))
  {
    var line := word + " " + CommandText(m);
    FirstWordBack("", word, m);
    assert "" + word == word && line[0] == word[0];
    if SERVER <= line {
      SpaceTells(SERVER, word, line);
    }
  }

  // A word without a space that begins a line begins its first word.
  lemma SpaceTells(w: string, word: string, line: string)
    requires ' ' !in w && w <= line && word < line && line[|word|] == ' '
    ensures w <= word
  {
    assert forall i :: 0 <= i < |w| ==> w[i] == line[i] && w[i] != ' ';
    assert w == line[..|w|];
  }
}
