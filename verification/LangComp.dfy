// lang/langcomp.c: the compiler for language definition files.

module LangComp {
  import opened Bytes
  import opened CString
  import opened LangFile
  import opened LangText
  import opened Sight

  class Compiler {
    const names: Names
    const strings: array<Option<Text>>
    var input: Text   // what is left of the source file
    var output: Text
    var curstring: int
    var retval: int
    var maxerr: int

    constructor (names: Names, source: Text)
      ensures this.names == names && input == source && output == [] && fresh(strings)
      ensures Valid() && Now() == State(seq(|names|, i => None), -2, 0, 50)
    {
      this.names := names;
      strings := new Option<Text>[|names|](i => None);
      input, output := source, [];
      curstring, retval, maxerr := -2, 0, 50;
    }

    ghost predicate Valid()
      reads this, strings
    {
      Fit(names, Now())
    }

    ghost function Now(): State
      reads this, strings
    {
      State(strings[..], curstring, retval, maxerr)
    }

    // getlines
    method NextLine() returns (line: Option<Text>)
      modifies this`input
      ensures if line == None then GetLines(old(input)) == [] && input == []
              else GetLines(old(input)) == [line.value] + GetLines(input) && |input| < |old(input)|
    {
      var buf := Fgets(input, BUFFER - 1);
      while input != [] && Ignored(buf)
        invariant buf == Fgets(input, BUFFER - 1) && GetLines(input) == GetLines(old(input)) && |input| <= |old(input)|
        decreases |input|
      {
        input := input[|buf|..];
        buf := Fgets(input, BUFFER - 1);
      }
      if input == [] {
        return None;
      }
      input := input[|buf|..];
      return Some(Chomp(buf));
    }

    // stringnum
    method FindString(name: Text) returns (i: int)
      ensures i == StringNum(names, name)
    {
      i := 0;
      while i < |names|
        invariant 0 <= i <= |names| && name !in names[..i]
      {
        if names[i] == name {
          StringNumIs(names, name, i);
          return i;
        }
        i := i + 1;
      }
      i := -1;
    }

    // One round of the loop that reads the file
    method TakeLine(line: Text)
      requires Valid()
      modifies this`curstring, this`retval, this`maxerr, strings
      ensures Valid() && Now() == Step(names, old(Now()), line)
    {
      if TabLed(line) {
        if curstring == -2 {
          retval := 1;   // junk at the beginning of the file
        } else if curstring >= 0 {
          strings[curstring] := Some(strings[curstring].value + (line[1..] + [NEWLINE]));
        }
      } else {
        curstring := FindString(line);
        if curstring < 0 {   // an unknown name, which is reported only
        } else if strings[curstring] != None {
          retval := 1;
          maxerr := maxerr - 1;
        } else {
          strings[curstring] := Some([]);
        }
      }
    }

    // The loop that reads the file
    method Accumulate()
      requires Valid()
      modifies this`input, this`curstring, this`retval, this`maxerr, strings
      ensures Valid() && Now() == Run(names, old(Now()), GetLines(old(input)))
    {
      ghost var all := Run(names, Now(), GetLines(input));
      while maxerr > 0
        invariant Valid() && Run(names, Now(), GetLines(input)) == all
        decreases |input|
      {
        ghost var lines := GetLines(input);
        var line := NextLine();
        if line == None {
          return;
        }
        assert lines[0] == line.value && lines[1..] == GetLines(input);
        TakeLine(line.value);
      }
    }

    // The output behind start is the table up to entry i, whose text lies at pos. Only an assertion of
    // Look unfolds this.
    ghost predicate Tabled(start: Text, table: Text, texts: seq<Text>, i: nat, pos: nat)
      requires i <= |texts|
      reads this`output
    {
      forall x: int {:trigger Look(x)} :: Look(x) ==>
        start <= output && table == output[|start|..] + Table(Put32, texts[i..], pos)
    }

    lemma EntryWritten(start: Text, out: Text, table: Text, texts: seq<Text>, i: nat, pos: nat)
      requires i < |texts| && start <= out && table == out[|start|..] + Table(Put32, texts[i..], pos)
      ensures var now := out + (Put32(pos) + Put32(|texts[i]|));
              start <= now && table == now[|start|..] + Table(Put32, texts[i + 1..], pos + |texts[i]|)
    {
      var done, entry := out[|start|..], Put32(pos) + Put32(|texts[i]|);
      assert (out + entry)[|start|..] == done + entry;
      TableStep(Put32, texts, i, pos, done);
    }

    // An entry of the table
    method WriteEntry(i: nat, pos: nat, ghost start: Text, ghost table: Text, ghost texts: seq<Text>) returns (end: nat)
      requires i < strings.Length == |texts| && texts[i] == Kept(strings[i]) && Tabled(start, table, texts, i, pos)
      modifies this`output
      ensures Tabled(start, table, texts, i + 1, end)
    {
      assert Look(0);
      EntryWritten(start, output, table, texts, i, pos);
      var len := if strings[i] != None && strings[i].value != [] then |strings[i].value| - 1 else 0;
      output := output + Put32(pos) + Put32(len);
      Assoc(old(output), Put32(pos), Put32(len));
      end := pos + len;
    }

    // The loop that writes the table
    method WriteTable(ghost texts: seq<Text>)
      requires texts == AllKept(strings[..])
      modifies this`output
      ensures output == old(output) + (Put32(|texts|) + Table(Put32, texts, 8 * |texts| + 4))
    {
      var pos: nat := strings.Length * 8 + 4;
      ghost var table, count := Table(Put32, texts, pos), Put32(strings.Length);
      output := output + Put32(strings.Length);
      ghost var start := output;
      assert texts[0..] == texts && start[|start|..] + table == table;
      for i := 0 to strings.Length
        invariant Tabled(start, table, texts, i, pos)
      {
        pos := WriteEntry(i, pos, start, table, texts);
      }
      AllTabled(old(output), count, table, texts, pos);
    }

    lemma AllTabled(before: Text, count: Text, table: Text, texts: seq<Text>, pos: nat)
      requires Tabled(before + count, table, texts, |texts|, pos)
      ensures output == before + (count + table)
    {
      var start := before + count;
      assert Look(0) && output[|start|..] + [] == output[|start|..];
      assert output == start + table;
      Assoc(before, count, table);
    }

    // The loop that writes the texts; the last newline of each is cut off for good.
    method WriteTexts(ghost texts: seq<Text>)
      requires texts == AllKept(strings[..])
      modifies this`output, strings
      ensures output == old(output) + Together(texts)
    {
      ghost var done: Text := [];
      ghost var all := Together(texts);
      assert texts[0..] == texts;
      for i := 0 to strings.Length
        invariant output == old(output) + done && all == done + Together(texts[i..])
        invariant forall k :: i <= k < strings.Length ==> texts[k] == Kept(strings[k])
      {
        TogetherStep(texts, i, done);
        Assoc(old(output), done, texts[i]);
        if strings[i] != None {
          if strings[i].value != [] {
            strings[i] := Some(strings[i].value[..|strings[i].value| - 1]);
          }
          if strings[i].value != [] {
            output := output + strings[i].value;
          }
        }
        done := done + texts[i];
      }
    }

    // The two loops that write the file
    method Emit(ghost texts: seq<Text>)
      requires texts == AllKept(strings[..])
      modifies this`output, strings
      ensures output == old(output) + Compiled(texts)
    {
      WriteTable(texts);
      ghost var count, table := Put32(|texts|), Table(Put32, texts, 8 * |texts| + 4);
      WriteTexts(texts);
      Assoc(count, table, Together(texts));
      Assoc(old(output), count + table, Together(texts));
    }

    // What main does with its input once the index is read
    method Compile()
      requires Valid() && curstring == -2 && maxerr == 50 && output == [] && forall i :: 0 <= i < |names| ==> strings[i] == None
      modifies this`input, this`output, this`curstring, this`retval, this`maxerr, strings
      ensures output == Compiled(AllKept(Run(names, old(Now()), GetLines(old(input))).strings))
      ensures retval == Run(names, old(Now()), GetLines(old(input))).retval
      ensures GoodIndex(names) && ShortLines(old(input)) && Once(names, SourceLines(old(input))) ==>
                output == Compiled(Meanings(names, SourceLines(old(input))))
    {
      ghost var start := Now();
      Accumulate();
      ghost var texts := AllKept(strings[..]);
      Emit(texts);
      assert output == Compiled(texts);
      if GoodIndex(names) && ShortLines(old(input)) && Once(names, SourceLines(old(input))) {
        CompiledMeaning(names, start, old(input));
      }
    }
  }

  lemma {:induction false} StringNumIs(names: Names, name: Text, i: nat)
    requires i < |names| && names[i] == name && name !in names[..i]
    ensures StringNum(names, name) == i
  {
    if i > 0 {
      assert names[0] in names[..i] && names[1..][..i - 1] == names[..i][1..];
      StringNumIs(names[1..], name, i - 1);
    }
  }

  // What a definition file says of a message: nothing at all counts as no text.
  function Meaning(lines: seq<Text>, name: Text): Text {
    match Message(lines, name)
    case None => []
    case Some(body) => Unlines(body)
  }

  function Meanings(names: Names, lines: seq<Text>): (texts: seq<Text>)
    ensures |texts| == |names| && forall i :: 0 <= i < |names| ==> texts[i] == Meaning(lines, names[i])
  {
    seq(|names|, i requires 0 <= i < |names| => Meaning(lines, names[i]))
  }

  // A file that defines messages defines them as they are.
  lemma DefinitionRoundTrip(defs: seq<Definition>, k: nat)
    requires forall i :: 0 <= i < |defs| ==> Definable(defs[i])
    requires forall i, j :: 0 <= i < j < |defs| ==> defs[i].name != defs[j].name
    requires k < |defs|
    ensures Meaning(SourceLines(SourceText(defs)), defs[k].name) == Unlines(defs[k].body)
  {
    DefinitionsRead(defs, k);
  }

  lemma KeptLined(body: seq<Text>)
    ensures Kept(Some(Lined(body))) == Unlines(body)
  {
    if body != [] {
      LinedIsJoined(body);
      assert (Unlines(body) + [NEWLINE])[..|Unlines(body)|] == Unlines(body);
    }
  }

  // Every text is the one its definition means.
  lemma CompiledMeaning(names: Names, start: State, file: Text)
    requires GoodIndex(names) && ShortLines(file) && Once(names, SourceLines(file))
    requires Fit(names, start) && start.cur == -2 && start.maxerr > 0
    requires forall i :: 0 <= i < |names| ==> start.strings[i] == None
    ensures AllKept(Run(names, start, GetLines(file)).strings) == Meanings(names, SourceLines(file))
  {
    var lines := SourceLines(file);
    LinesFit(file);
    RunMeaning(names, start, lines);
    var strings := Run(names, start, lines).strings;
    forall i | 0 <= i < |names|
      ensures Kept(strings[i]) == Meanings(names, lines)[i]
    {
      assert strings[i] == Outcome(names, start, lines, i);
      match Message(lines, names[i])
      case None =>
      case Some(body) => KeptLined(body);
    }
  }
}
