// lang/langcomp.c: what a language definition file means, and what its compiler computes, as values.

module LangText {
  import opened Bytes
  import opened CString

  type Text = seq<byte>

  const TAB: byte := 9
  const HASH: byte := 35
  const BUFFER := 1024

  // ---------- lines ----------

  // What fgets takes from a file into a buffer: up to a newline, and no more than fits
  function Fgets(file: Text, room: nat): (l: Text)
    ensures l <= file && |l| <= room
    ensures file != [] && room > 0 ==> l != []
  {
    if file == [] || room == 0 then []
    else if file[0] == NEWLINE then [NEWLINE]
    else [file[0]] + Fgets(file[1..], room - 1)
  }

  function Chomp(l: Text): Text {
    if l != [] && l[|l| - 1] == NEWLINE then l[..|l| - 1] else l
  }

  predicate Ignored(l: Text)
    requires l != []
  {
    l[0] == HASH || l[0] == NEWLINE
  }

  // All that getlines returns, one call after the other
  function GetLines(file: Text): seq<Text>
    decreases |file|
  {
    if file == [] then []
    else
      var l := Fgets(file, BUFFER - 1);
      var more := GetLines(file[|l|..]);
      if Ignored(l) then more else [Chomp(l)] + more
  }

  // The lines of a file, wherever they end, without comments and blank lines
  function SourceLines(file: Text): seq<Text>
    decreases |file|
  {
    if file == [] then []
    else
      var l := Fgets(file, |file|);
      var more := SourceLines(file[|l|..]);
      if Ignored(l) then more else [Chomp(l)] + more
  }

  lemma {:induction false} FgetsLine(l: Text, rest: Text, room: nat)
    requires NEWLINE !in l && room > |l|
    ensures Fgets(l + [NEWLINE] + rest, room) == l + [NEWLINE]
  {
    var file := l + [NEWLINE] + rest;
    if l == [] {
      assert file[0] == NEWLINE;
    } else {
      assert file[0] == l[0] && l[0] in l && file[1..] == l[1..] + [NEWLINE] + rest;
      FgetsLine(l[1..], rest, room - 1);
      assert [l[0]] + (l[1..] + [NEWLINE]) == l + [NEWLINE];
    }
  }

  lemma {:induction false} FgetsEnd(l: Text, room: nat)
    requires NEWLINE !in l && room >= |l|
    ensures Fgets(l, room) == l
  {
    if l != [] {
      assert l[0] in l;
      FgetsEnd(l[1..], room - 1);
    }
  }

  // A line ends with a newline, which does not belong to it; a line that is empty, or starts with #, is left out.
  lemma SourceLine(l: Text, rest: Text)
    requires NEWLINE !in l
    ensures SourceLines(l + ['\n' as int] + rest) == (if l == [] || l[0] == '#' as int then [] else [l]) + SourceLines(rest)
  {
    var file, ended := l + [NEWLINE] + rest, l + [NEWLINE];
    FgetsLine(l, rest, |file|);
    assert file[|ended|..] == rest;
    assert ended[..|l|] == l;
    assert l != [] ==> ended[0] == l[0] && l[0] in l;
  }

  // The last line counts without one.
  lemma LastLine(l: Text)
    requires NEWLINE !in l && l != []
    ensures SourceLines(l) == if l[0] == '#' as int then [] else [l]
  {
    FgetsEnd(l, |l|);
    assert l[0] in l && l[|l| - 1] in l && l[|l|..] == [];
  }

  // No line, its newline included, is longer than the buffer takes.
  predicate ShortLines(file: Text)
    decreases |file|
  {
    file == [] || (var l := Fgets(file, |file|); |l| < 1024 && ShortLines(file[|l|..]))
  }

  lemma {:induction false} FgetsRoom(file: Text, room: nat)
    requires |Fgets(file, |file|)| <= room
    ensures Fgets(file, room) == Fgets(file, |file|)
  {
    if file != [] && room > 0 && file[0] != NEWLINE {
      FgetsRoom(file[1..], room - 1);
    }
  }

  // Then getlines sees the lines as they are.
  lemma {:induction false} LinesFit(file: Text)
    requires ShortLines(file)
    ensures GetLines(file) == SourceLines(file)
    decreases |file|
  {
    if file != [] {
      FgetsRoom(file, BUFFER - 1);
      LinesFit(file[|Fgets(file, |file|)|..]);
    }
  }

  // ---------- what a definition means ----------

  predicate TabLed(l: Text) {
    l != [] && l[0] == TAB
  }

  // The lines of text that come first, without their tabs
  function Body(lines: seq<Text>): seq<Text> {
    if lines == [] || !TabLed(lines[0]) then [] else [lines[0][1..]] + Body(lines[1..])
  }

  // The text of a message: the lines behind its name
  function Message(lines: seq<Text>, name: Text): Option<seq<Text>> {
    if lines == [] then None
    else if lines[0] == name then Some(Body(lines[1..]))
    else Message(lines[1..], name)
  }

  // Messages as a definition file has them
  datatype Definition = Definition(name: Text, body: seq<Text>)

  predicate Definable(d: Definition) {
    && d.name != [] && d.name[0] != '\t' as int && d.name[0] != '#' as int && NEWLINE !in d.name
    && forall i :: 0 <= i < |d.body| ==> NEWLINE !in d.body[i]
  }

  function BodyText(body: seq<Text>, rest: Text): Text {
    if body == [] then rest else ['\t' as int] + body[0] + [NEWLINE] + BodyText(body[1..], rest)
  }

  function SourceText(defs: seq<Definition>): Text {
    if defs == [] then [] else defs[0].name + [NEWLINE] + BodyText(defs[0].body, SourceText(defs[1..]))
  }

  // These lines are those of a body, and others that do not go on with it.
  ghost predicate IsBody(lines: seq<Text>, body: seq<Text>, after: seq<Text>) {
    && Body(lines) == body && |lines| == |body| + |after| && lines[|body|..] == after
    && forall i :: 0 <= i < |body| ==> TabLed(lines[i])
  }

  lemma BodyMore(line: Text, l: Text, lines: seq<Text>, body: seq<Text>, after: seq<Text>)
    requires IsBody(lines, body, after) && line == ['\t' as int] + l
    ensures IsBody([line] + lines, [l] + body, after)
  {
    var more := [line] + lines;
    assert line[1..] == l && more[1..] == lines && more[|body| + 1..] == lines[|body|..];
    assert forall i :: 0 < i < |more| ==> more[i] == lines[i - 1];
  }

  lemma {:induction false} BodyRead(body: seq<Text>, rest: Text)
    requires forall i :: 0 <= i < |body| ==> NEWLINE !in body[i]
    requires SourceLines(rest) == [] || !TabLed(SourceLines(rest)[0])
    ensures IsBody(SourceLines(BodyText(body, rest)), body, SourceLines(rest))
  {
    if body != [] {
      var line: Text, more := ['\t' as int] + body[0], BodyText(body[1..], rest);
      SourceLine(line, more);
      BodyRead(body[1..], rest);
      BodyMore(line, body[0], SourceLines(more), body[1..], SourceLines(rest));
      assert [line] + SourceLines(more) == SourceLines(BodyText(body, rest)) && [body[0]] + body[1..] == body;
    }
  }

  lemma {:induction false} SkipsTabs(lines: seq<Text>, n: nat, name: Text)
    requires n <= |lines| && !TabLed(name) && forall i :: 0 <= i < n ==> TabLed(lines[i])
    ensures Message(lines, name) == Message(lines[n..], name)
  {
    if n > 0 {
      SkipsTabs(lines[1..], n - 1, name);
      assert lines[1..][n - 1..] == lines[n..];
    } else {
      assert lines[0..] == lines;
    }
  }

  // The lines read of such a file define the messages, if their names are distinct.
  lemma {:induction false} DefinitionsRead(defs: seq<Definition>, k: nat)
    requires forall i :: 0 <= i < |defs| ==> Definable(defs[i])
    requires forall i, j :: 0 <= i < j < |defs| ==> defs[i].name != defs[j].name
    requires k < |defs|
    ensures var lines := SourceLines(SourceText(defs)); lines != [] && lines[0] == defs[0].name
    ensures Message(SourceLines(SourceText(defs)), defs[k].name) == Some(defs[k].body)
  {
    var d, more := defs[0], SourceText(defs[1..]);
    if |defs| > 1 {
      DefinitionsRead(defs[1..], if k > 0 then k - 1 else 0);
    }
    assert d.name[0] in d.name;
    var text := BodyText(d.body, more);
    SourceLine(d.name, text);
    BodyRead(d.body, more);
    var lines := SourceLines(text);
    assert SourceLines(SourceText(defs)) == [d.name] + lines && ([d.name] + lines)[1..] == lines;
    if k > 0 {
      SkipsTabs(lines, |d.body|, defs[k].name);
    }
  }

  // With a newline after each line
  function Lined(body: seq<Text>): Text {
    if body == [] then [] else body[0] + [NEWLINE] + Lined(body[1..])
  }

  // With a newline between the lines
  function Unlines(body: seq<Text>): Text {
    if body == [] then [] else if |body| == 1 then body[0] else body[0] + [NEWLINE] + Unlines(body[1..])
  }

  // Read as lines it is those lines again.
  lemma {:induction false} UnlinesRead(body: seq<Text>)
    requires forall i :: 0 <= i < |body| ==> body[i] != [] && body[i][0] != '#' as int && NEWLINE !in body[i]
    ensures SourceLines(Unlines(body)) == body
  {
    if |body| == 1 {
      LastLine(body[0]);
    } else if body != [] {
      SourceLine(body[0], Unlines(body[1..]));
      UnlinesRead(body[1..]);
    }
  }

  lemma {:induction false} LinedIsJoined(body: seq<Text>)
    requires body != []
    ensures Lined(body) == Unlines(body) + [NEWLINE]
  {
    if |body| == 1 {
      assert Lined(body[1..]) == [];
    } else {
      LinedIsJoined(body[1..]);
    }
  }

  // ---------- what the compiler computes ----------

  type Names = seq<Text>

  // Names are those of C identifiers: none is empty or starts with a tab, and no two are the same.
  ghost predicate GoodIndex(names: Names) {
    && (forall i :: 0 <= i < |names| ==> names[i] != [] && names[i][0] != TAB)
    && (forall i, j :: 0 <= i < j < |names| ==> names[i] != names[j])
  }

  // Each name of the index occurs at most once.
  ghost predicate Once(names: Names, lines: seq<Text>) {
    forall i, j :: 0 <= i < j < |lines| && lines[i] == lines[j] ==> lines[i] !in names
  }

  // The first place of a name in the index, or -1
  function StringNum(names: Names, name: Text): (k: int)
    ensures -1 <= k < |names| && (k >= 0 ==> names[k] == name) && (k < 0 ==> name !in names)
  {
    if names == [] then -1
    else if names[0] == name then 0
    else var k := StringNum(names[1..], name); if k < 0 then -1 else k + 1
  }

  // The strings so far, the current one (-2 none yet, -1 unknown), the exit status, and the errors left
  datatype State = State(strings: seq<Option<Text>>, cur: int, retval: int, maxerr: int)

  ghost predicate Fit(names: Names, s: State) {
    |s.strings| == |names| && -2 <= s.cur < |names| && (s.cur >= 0 ==> s.strings[s.cur] != None)
  }

  // One line
  function Step(names: Names, s: State, line: Text): (t: State)
    requires Fit(names, s)
    ensures Fit(names, t)
  {
    if TabLed(line) then
      if s.cur == -2 then s.(retval := 1)
      else if s.cur >= 0 then s.(strings := s.strings[s.cur := Some(s.strings[s.cur].value + (line[1..] + [NEWLINE]))])
      else s
    else
      var k := StringNum(names, line);
      if k < 0 then s.(cur := -1)
      else if s.strings[k] != None then s.(cur := k, retval := 1, maxerr := s.maxerr - 1)
      else s.(cur := k, strings := s.strings[k := Some([])])
  }

  function Run(names: Names, s: State, lines: seq<Text>): (t: State)
    requires Fit(names, s)
    ensures Fit(names, t)
    decreases lines
  {
    if lines == [] || s.maxerr <= 0 then s else Run(names, Step(names, s, lines[0]), lines[1..])
  }

  // What becomes of string i over the lines to come
  function Outcome(names: Names, s: State, lines: seq<Text>, i: nat): Option<Text>
    requires Fit(names, s) && i < |names|
  {
    if i == s.cur then Some(s.strings[i].value + Lined(Body(lines)))
    else if s.strings[i] != None then s.strings[i]
    else match Message(lines, names[i])
      case None => None
      case Some(body) => Some(Lined(body))
  }

  // The strings that are there already are not defined again.
  ghost predicate NoneAgain(names: Names, s: State, lines: seq<Text>)
    requires |s.strings| == |names|
  {
    forall i :: 0 <= i < |names| && s.strings[i] != None ==> names[i] !in lines
  }

  lemma StepOnce(names: Names, s: State, lines: seq<Text>)
    requires Fit(names, s) && lines != [] && GoodIndex(names) && Once(names, lines) && NoneAgain(names, s, lines)
    ensures var t := Step(names, s, lines[0]);
            Once(names, lines[1..]) && NoneAgain(names, t, lines[1..]) && t.maxerr == s.maxerr
  {
    var t, rest := Step(names, s, lines[0]), lines[1..];
    forall i, j | 0 <= i < j < |rest| && rest[i] == rest[j]
      ensures rest[i] !in names
    {
      assert lines[i + 1] == lines[j + 1];
    }
    forall i | 0 <= i < |names| && t.strings[i] != None
      ensures names[i] !in rest
    {
      if s.strings[i] == None {
        var first := lines[0];
        assert names[i] == first;
        forall j | 0 <= j < |rest|
          ensures rest[j] != names[i]
        {
          assert first == lines[j + 1] ==> first !in names;
        }
      } else {
        assert forall j :: 0 <= j < |rest| ==> rest[j] == lines[j + 1] && rest[j] in lines;
      }
    }
  }

  lemma StepOutcome(names: Names, s: State, lines: seq<Text>, i: nat)
    requires Fit(names, s) && lines != [] && GoodIndex(names) && NoneAgain(names, s, lines) && i < |names|
    ensures Outcome(names, Step(names, s, lines[0]), lines[1..], i) == Outcome(names, s, lines, i)
  {
    var l, rest := lines[0], lines[1..];
    assert l in lines;
    if TabLed(l) {
      if i == s.cur {
        var was := s.strings[i].value;
        assert Lined(Body(lines)) == (l[1..] + [NEWLINE]) + Lined(Body(rest));
        Assoc(was, l[1..] + [NEWLINE], Lined(Body(rest)));
      }
    } else {
      assert Lined(Body(lines)) == [];
      var k := StringNum(names, l);
      assert k >= 0 ==> s.strings[k] == None;
      assert k != i ==> names[i] != l;
      assert [] + Lined(Body(rest)) == Lined(Body(rest));
      if i == s.cur {
        assert s.strings[i].value + [] == s.strings[i].value;
      }
    }
  }

  // Every message gets the text of its definition, and only text before the first name is an error.
  lemma {:induction false} RunMeaning(names: Names, s: State, lines: seq<Text>)
    requires Fit(names, s) && s.maxerr > 0 && GoodIndex(names) && Once(names, lines) && NoneAgain(names, s, lines)
    ensures Run(names, s, lines).maxerr == s.maxerr
    ensures Run(names, s, lines).retval == if s.cur == -2 && lines != [] && TabLed(lines[0]) then 1 else s.retval
    ensures forall i :: 0 <= i < |names| ==> Run(names, s, lines).strings[i] == Outcome(names, s, lines, i)
    decreases lines
  {
    if lines != [] {
      StepOnce(names, s, lines);
      RunMeaning(names, Step(names, s, lines[0]), lines[1..]);
      forall i | 0 <= i < |names|
        ensures Run(names, s, lines).strings[i] == Outcome(names, s, lines, i)
      {
        StepOutcome(names, s, lines, i);
      }
    } else {
      assert forall i :: 0 <= i < |names| && s.strings[i] != None ==> s.strings[i].value + [] == s.strings[i].value;
    }
  }

  // Lines of text go to the current string, with a newline each.
  lemma {:induction false} TextGoesOn(names: Names, s: State, lines: seq<Text>)
    requires Fit(names, s) && s.cur >= 0 && s.maxerr > 0 && forall i :: 0 <= i < |lines| ==> TabLed(lines[i])
    ensures Run(names, s, lines) == s.(strings := s.strings[s.cur := Some(s.strings[s.cur].value + Lined(Body(lines)))])
    decreases |lines|
  {
    if lines == [] {
      assert s.strings[s.cur].value + [] == s.strings[s.cur].value;
    } else {
      var t := Step(names, s, lines[0]);
      var line, more := lines[0][1..] + [NEWLINE], Lined(Body(lines[1..]));
      TextGoesOn(names, t, lines[1..]);
      Assoc(s.strings[s.cur].value, line, more);
    }
  }

  // A name that has a text already is an error, of which there may be so many; its text goes on.
  lemma SecondDefinition(names: Names, s: State, k: nat, lines: seq<Text>)
    requires Fit(names, s) && GoodIndex(names) && k < |names| && s.strings[k] != None && s.maxerr > 1
    requires forall i :: 0 <= i < |lines| ==> TabLed(lines[i])
    ensures var t := Run(names, s, [names[k]] + lines);
            && t.strings == s.strings[k := Some(s.strings[k].value + Lined(Body(lines)))]
            && t.cur == k && t.retval == 1 && t.maxerr == s.maxerr - 1
  {
    assert ([names[k]] + lines)[1..] == lines;
    TextGoesOn(names, Step(names, s, names[k]), lines);
  }

  // Text behind a name that is not in the index goes nowhere.
  lemma {:induction false} UnknownName(names: Names, s: State, name: Text, lines: seq<Text>)
    requires Fit(names, s) && s.maxerr > 0 && name !in names && !TabLed(name)
    requires forall i :: 0 <= i < |lines| ==> TabLed(lines[i])
    ensures Run(names, s, [name] + lines) == s.(cur := -1)
  {
    assert ([name] + lines)[1..] == lines;
    Nowhere(names, s.(cur := -1), lines);
  }

  lemma {:induction false} Nowhere(names: Names, s: State, lines: seq<Text>)
    requires Fit(names, s) && s.cur == -1 && forall i :: 0 <= i < |lines| ==> TabLed(lines[i])
    ensures Run(names, s, lines) == s
    decreases |lines|
  {
    if lines != [] {
      Nowhere(names, s, lines[1..]);
    }
  }
}
