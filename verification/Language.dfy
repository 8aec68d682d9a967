// language.c: a compiled language file is loaded into an array of texts.

module Language {
  import opened CString
  import opened LangComp
  import opened LangFile
  import opened LangText
  import opened Sight

  const MAX_LENGTH := 65536

  // What entry i of the table leads to: no text, a text, or an error
  datatype Slot = Bad | Null | Str(text: Text)

  // read_int32 at a place
  function ReadAt(file: Text, k: nat): Option<int> {
    if k + 4 <= |file| then Some(R.AsInt32(R.Join32(file[k], file[k + 1], file[k + 2], file[k + 3]))) else None
  }

  lemma ReadAtInt(file: Text, k: nat, v: int)
    requires IntAt(file, k, v)
    ensures ReadAt(file, k) == Some(v)
  {
    var r := file[k..];
    assert r[0] == file[k] && r[1] == file[k + 1] && r[2] == file[k + 2] && r[3] == file[k + 3];
  }

  // A seek to a negative position fails and leaves the file where it is, behind the entry.
  function LoadSlot(file: Text, i: nat): Slot {
    match (ReadAt(file, 8 * i + 4), ReadAt(file, 8 * i + 8))
    case (Some(pos), Some(len)) =>
      if len == 0 then Null
      else if len >= MAX_LENGTH || len < 0 then Bad
      else
        var at := if pos < 0 then 8 * i + 12 else pos;
        if at + len <= |file| then Str(file[at..at + len]) else Bad
    case _ => Bad
  }

  function Content(s: Slot): Option<Text> {
    if s.Str? then Some(s.text) else None
  }

  method LoadEntry(file: Text, i: nat) returns (s: Slot)
    ensures s == LoadSlot(file, i)
  {
    var pos, len := ReadAt(file, 8 * i + 4), ReadAt(file, 8 * i + 8);
    if pos == None || len == None {
      return Bad;
    }
    if len.value == 0 {
      return Null;
    }
    if len.value >= MAX_LENGTH || len.value < 0 {
      return Bad;
    }
    var at := if pos.value < 0 then 8 * i + 12 else pos.value;
    return if at + len.value <= |file| then Str(file[at..at + len.value]) else Bad;
  }

  // The entries that are read: as many as the file says, and no more than there are strings
  function Due(file: Text, numStrings: nat): (n: int)
    requires ReadAt(file, 0) != None
    ensures n <= numStrings && n <= ReadAt(file, 0).value && (n == numStrings || n == ReadAt(file, 0).value)
  {
    var num := ReadAt(file, 0).value;
    if num > numStrings then numStrings else num
  }

  // load_lang. texts is None if the file cannot be used.
  method LoadLang(file: Text, numStrings: nat) returns (texts: Option<seq<Option<Text>>>)
    ensures ReadAt(file, 0) == None ==> texts == None
    ensures ReadAt(file, 0) != None ==>
              (texts == None <==> exists i :: 0 <= i < Due(file, numStrings) && LoadSlot(file, i) == Bad)
    ensures texts != None ==> |texts.value| == numStrings
    ensures texts != None ==> forall i :: 0 <= i < numStrings ==>
              texts.value[i] == if i < Due(file, numStrings) then Content(LoadSlot(file, i)) else None
  {
    if ReadAt(file, 0) == None {
      return None;
    }
    var langtexts: seq<Option<Text>> := seq(numStrings, i => None);
    var n := Due(file, numStrings);
    var i := 0;
    while i < n
      invariant 0 <= i && (i <= n || i == 0) && |langtexts| == numStrings
      invariant forall k :: 0 <= k < i ==> LoadSlot(file, k) != Bad && langtexts[k] == Content(LoadSlot(file, k))
      invariant forall k :: i <= k < numStrings ==> langtexts[k] == None
    {
      var s := LoadEntry(file, i);
      if s == Bad {
        return None;
      }
      langtexts := langtexts[i := Content(s)];
      i := i + 1;
    }
    texts := Some(langtexts);
  }

  // What should come of a text: nothing if it is empty, an error if it is too long
  function SlotFor(t: Text): Slot {
    if t == [] then Null else if |t| < MAX_LENGTH then Str(t) else Bad
  }

  // A compiled file loads as what was compiled.
  lemma LoadCompiled(texts: seq<Text>, i: nat)
    requires Fits32(texts) && i < |texts|
    ensures ReadAt(Compiled(texts), 0) == Some(|texts|)
    ensures LoadSlot(Compiled(texts), i) == SlotFor(texts[i])
  {
    var file := Compiled(texts);
    CountFirst(texts);
    Located(texts, i);
    ReadAtInt(file, 0, |texts|);
    ReadAtInt(file, 8 * i + 4, Position(texts, i));
    ReadAtInt(file, 8 * i + 8, |texts[i]|);
  }

  lemma AllLoad(texts: seq<Text>)
    requires Fits32(texts)
    ensures ReadAt(Compiled(texts), 0) == Some(|texts|)
    ensures forall i :: 0 <= i < |texts| ==> LoadSlot(Compiled(texts), i) == SlotFor(texts[i])
  {
    CountFirst(texts);
    ReadAtInt(Compiled(texts), 0, |texts|);
    forall i | 0 <= i < |texts|
      ensures LoadSlot(Compiled(texts), i) == SlotFor(texts[i])
    {
      LoadCompiled(texts, i);
    }
  }

  // The file is the compiled form of these texts. Only an assertion of Look unfolds this.
  ghost predicate Holds(file: Text, texts: seq<Text>) {
    forall x: int {:trigger Look(x)} :: Look(x) ==> Fits32(texts) && file == Compiled(texts)
  }

  // Loading a compiled file fails exactly if a text is too long.
  method LoadTexts(file: Text, ghost all: seq<Text>, n: nat) returns (texts: Option<seq<Option<Text>>>)
    requires Holds(file, all) && n == |all|
    ensures texts == None <==> exists i :: 0 <= i < |all| && |all[i]| >= 0x1_0000
    ensures texts != None ==> |texts.value| == |all|
    ensures texts != None ==> forall i :: 0 <= i < |all| ==> texts.value[i] == if all[i] == [] then None else Some(all[i])
  {
    assert Look(0);
    AllLoad(all);
    texts := LoadLang(file, n);
    assert forall i :: 0 <= i < |all| ==> (LoadSlot(file, i) == Bad <==> |all[i]| >= 0x1_0000);
  }

  // A definition file that is compiled and loaded gives every message its text.
  method CompileAndLoad(names: Names, source: Text) returns (texts: Option<seq<Option<Text>>>)
    requires GoodIndex(names) && ShortLines(source) && Once(names, SourceLines(source))
    requires Fits32(Meanings(names, SourceLines(source)))
    ensures texts == None <==> exists i :: 0 <= i < |names| && |Meaning(SourceLines(source), names[i])| >= 0x1_0000
    ensures texts != None ==> |texts.value| == |names|
    ensures texts != None ==> forall i :: 0 <= i < |names| ==>
              texts.value[i] == if Meaning(SourceLines(source), names[i]) == [] then None else Some(Meaning(SourceLines(source), names[i]))
  {
    var c := new Compiler(names, source);
    c.Compile();
    texts := LoadTexts(c.output, Meanings(names, SourceLines(source)), |names|);
  }
}
