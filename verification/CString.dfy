// C strings as sequences of characters, and the case folding of misc.c and compat.c.

module CString {
  datatype Option<+T> = None | Some(value: T)

  // The room for a nick, its terminator included
  const NICKMAX := 32

  // The room for a line
  const BUFSIZE := 512

  // strscpy: as much of a string as a buffer takes, its terminator included
  function Truncated(s: string, size: nat): (r: string)
    requires size > 0
    ensures r <= s && |r| < size && (r == s || |r| == size - 1)
  {
    if |s| < size then s else s[..size - 1]
  }

  // isspace in the C locale
  predicate IsSpace(c: char) {
    c == ' ' || '\t' <= c <= '\r'
  }

  function SkipSpace(s: string): (r: string)
    ensures |r| <= |s|
  {
    if s != "" && IsSpace(s[0]) then SkipSpace(s[1..]) else s
  }

  // tolower in the C locale: only A to Z change.
  function ToLower(c: char): char {
    if 'A' <= c <= 'Z' then c - 'A' + 'a' else c
  }

  function Lower(s: string): (r: string)
    ensures |r| == |s|
    ensures forall i :: 0 <= i < |s| ==> r[i] == ToLower(s[i])
  {
    seq(|s|, i requires 0 <= i < |s| => ToLower(s[i]))
  }

  // stricmp(a, b) == 0
  predicate SameName(a: string, b: string) {
    Lower(a) == Lower(b)
  }

  // strncmp(a, b, 1) == 0
  predicate SameLead(a: string, b: string) {
    if a == "" || b == "" then a == b else a[0] == b[0]
  }

  // The white space of the C locale, by its codes: tab to carriage return, and the space
  lemma SpaceCodes(c: char)
    ensures IsSpace(c) <==> c as int in {9, 10, 11, 12, 13, 32}
  {
  }

  lemma {:induction false} SpaceSkipped(s: string)
    ensures var r := SkipSpace(s); r == s[|s| - |r|..] && (r != "" ==> !IsSpace(r[0]))
    ensures forall i :: 0 <= i < |s| - |SkipSpace(s)| ==> IsSpace(s[i])
  {
    if s != "" && IsSpace(s[0]) {
      SpaceSkipped(s[1..]);
      assert forall i :: 0 < i < |s| ==> s[i] == s[1..][i - 1];
    }
  }

  // Two letters are the same but for case if their codes differ by 32.
  predicate SameLetter(a: char, b: char) {
    || a == b
    || ('A' <= a <= 'Z' && b as int == a as int + 32)
    || ('A' <= b <= 'Z' && a as int == b as int + 32)
  }

  lemma LowerLetters(a: char, b: char)
    ensures ToLower(a) == ToLower(b) <==> SameLetter(a, b)
  {
  }

  // Names are compared letter by letter, without regard to case.
  lemma SameNameMeans(a: string, b: string)
    ensures SameName(a, b) <==> |a| == |b| && forall i :: 0 <= i < |a| ==> SameLetter(a[i], b[i])
  {
    var la, lb := Lower(a), Lower(b);
    if |a| == |b| {
      assert la == lb <==> forall i :: 0 <= i < |a| ==> la[i] == lb[i];
      assert forall i :: 0 <= i < |a| ==> (la[i] == lb[i] <==> SameLetter(a[i], b[i])) by {
        forall i | 0 <= i < |a|
          ensures la[i] == lb[i] <==> SameLetter(a[i], b[i])
        {
          LowerLetters(a[i], b[i]);
        }
      }
    }
  }

  // strncmp(a, b, 1) compares the first characters, terminators included.
  lemma SameLeadMeans(a: string, b: string)
    requires '\0' !in a && '\0' !in b
    ensures SameLead(a, b) <==> (a + ['\0'])[0] == (b + ['\0'])[0]
  {
    assert a != "" ==> a[0] in a;
    assert b != "" ==> b[0] in b;
  }
}
