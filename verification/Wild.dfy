// misc.c: matching a string against a pattern with '*' and '?'.

module Wild {
  import opened CString

  predicate Same(a: char, b: char, docase: bool) {
    if docase then a == b else ToLower(a) == ToLower(b)
  }

  predicate IsWildcard(c: char) {
    c == '*' || c == '?'
  }

  // ---------- what a pattern means ----------

  // '?' stands for one character, '*' for any number of them.
  predicate Glob(p: string, s: string, docase: bool)
    decreases |p| + |s|
  {
    if p == "" then s == ""
    else if p[0] == '*' then Glob(p[1..], s, docase) || (s != "" && Glob(p, s[1..], docase))
    else s != "" && (p[0] == '?' || Same(s[0], p[0], docase)) && Glob(p[1..], s[1..], docase)
  }

  lemma {:induction false} GlobStar(p: string, s: string, docase: bool)
    requires p != "" && p[0] == '*'
    ensures Glob(p, s, docase) <==> exists i :: 0 <= i <= |s| && Glob(p[1..], s[i..], docase)
    decreases |s|
  {
    assert s[0..] == s;
    if s != "" {
      GlobStar(p, s[1..], docase);
      if i :| 0 <= i <= |s| && Glob(p[1..], s[i..], docase) {
        assert i > 0 ==> s[1..][i - 1..] == s[i..];
      }
      if i :| 0 <= i <= |s[1..]| && Glob(p[1..], s[1..][i..], docase) {
        assert s[1..][i..] == s[i + 1..];
      }
    }
  }

  // Without '*' a pattern means the strings of its length that have its characters where it has no '?'.
  lemma {:induction false} GlobNoStar(p: string, s: string, docase: bool)
    requires '*' !in p
    ensures Glob(p, s, docase) <==>
            |p| == |s| && forall i :: 0 <= i < |p| ==> p[i] == '?' || (if docase then s[i] == p[i] else SameLetter(s[i], p[i]))
    decreases |p|
  {
    if p != "" {
      assert p[0] in p;
      if s != "" {
        LowerLetters(s[0], p[0]);
        GlobNoStar(p[1..], s[1..], docase);
        var q, t := p[1..], s[1..];
        assert forall i :: 0 <= i < |q| ==> q[i] == p[i + 1];
        assert |s| == |p| ==> forall i :: 0 < i < |p| ==> p[i] == q[i - 1] && s[i] == t[i - 1];
      }
    }
  }

  // So a pattern without wildcard characters matches itself only.
  lemma GlobPlain(p: string, s: string)
    requires Plain(p)
    ensures Glob(p, s, true) <==> s == p
    ensures Glob(p, s, false) <==> SameName(s, p)
  {
    assert '*' !in p;
    GlobNoStar(p, s, true);
    GlobNoStar(p, s, false);
    SameNameMeans(s, p);
  }

  lemma {:induction false} GlobAnything(s: string, docase: bool)
    ensures Glob("*", s, docase)
    decreases |s|
  {
    if s != "" {
      GlobAnything(s[1..], docase);
    }
  }

  ghost predicate DividesAt(p: string, q: string, s: string, docase: bool, i: nat)
    requires i <= |s|
  {
    Glob(p, s[..i], docase) && Glob(q, s[i..], docase)
  }

  ghost predicate Divides(p: string, q: string, s: string, docase: bool) {
    exists i: nat :: i <= |s| && DividesAt(p, q, s, docase, i)
  }

  lemma TailDivides(p: string, q: string, s: string, docase: bool, i: nat)
    requires i < |s|
    ensures s[..i + 1][0] == s[0] && s[..i + 1][1..] == s[1..][..i] && s[i + 1..] == s[1..][i..]
  {
  }

  lemma DividesNone(q: string, s: string, docase: bool)
    ensures Divides("", q, s, docase) <==> Glob(q, s, docase)
  {
    assert s[..0] == "" && s[0..] == s;
    if Glob(q, s, docase) {
      assert DividesAt("", q, s, docase, 0);
    }
  }

  lemma DividesChar(p: string, q: string, s: string, docase: bool)
    requires p != "" && p[0] != '*'
    ensures Divides(p, q, s, docase) <==>
            s != "" && (p[0] == '?' || Same(s[0], p[0], docase)) && Divides(p[1..], q, s[1..], docase)
  {
    if i: nat :| i <= |s| && DividesAt(p, q, s, docase, i) {
      TailDivides(p, q, s, docase, i - 1);
      assert DividesAt(p[1..], q, s[1..], docase, i - 1);
    }
    if s != "" && (p[0] == '?' || Same(s[0], p[0], docase)) && Divides(p[1..], q, s[1..], docase) {
      var i: nat :| i <= |s[1..]| && DividesAt(p[1..], q, s[1..], docase, i);
      TailDivides(p, q, s, docase, i);
      assert DividesAt(p, q, s, docase, i + 1);
    }
  }

  lemma DividesStar(p: string, q: string, s: string, docase: bool)
    requires p != "" && p[0] == '*'
    ensures Divides(p, q, s, docase) <==> Divides(p[1..], q, s, docase) || (s != "" && Divides(p, q, s[1..], docase))
  {
    if i: nat :| i <= |s| && DividesAt(p, q, s, docase, i) {
      if Glob(p[1..], s[..i], docase) {
        assert DividesAt(p[1..], q, s, docase, i);
      } else {
        TailDivides(p, q, s, docase, i - 1);
        assert DividesAt(p, q, s[1..], docase, i - 1);
      }
    }
    if i: nat :| i <= |s| && DividesAt(p[1..], q, s, docase, i) {
      assert DividesAt(p, q, s, docase, i);
    }
    if s != "" && Divides(p, q, s[1..], docase) {
      var i: nat :| i <= |s[1..]| && DividesAt(p, q, s[1..], docase, i);
      TailDivides(p, q, s, docase, i);
      assert DividesAt(p, q, s, docase, i + 1);
    }
  }

  // Two patterns behind each other match a string that divides into one for each.
  lemma {:induction false} GlobConcat(p: string, q: string, s: string, docase: bool)
    ensures Glob(p + q, s, docase) <==> exists i: nat :: i <= |s| && DividesAt(p, q, s, docase, i)
    decreases |p| + |s|
  {
    if p == "" {
      assert p + q == q;
      DividesNone(q, s, docase);
    } else {
      assert (p + q)[0] == p[0] && (p + q)[1..] == p[1..] + q;
      if p[0] == '*' {
        DividesStar(p, q, s, docase);
        GlobConcat(p[1..], q, s, docase);
        if s != "" {
          GlobConcat(p, q, s[1..], docase);
        }
      } else {
        DividesChar(p, q, s, docase);
        if s != "" {
          GlobConcat(p[1..], q, s[1..], docase);
        }
      }
    }
  }

  // ---------- what do_match_wild computes ----------

  // After '*' the search tries the places where the next pattern character stands in the string, as
  // it is; if none will do, '*' is taken for nothing at all.
  ghost predicate Found(p: string, s: string, docase: bool)
    decreases |p|
  {
    if p == "" then s == ""
    else if p[0] == '?' then s != "" && Found(p[1..], s[1..], docase)
    else if p[0] == '*' then
      || |p| == 1
      || (exists i {:trigger s[i..]} :: 0 <= i < |s| && Same(s[i], p[1], docase) && Found(p[1..], s[i..], docase))
      || Found(p[1..], s, docase)
    else s != "" && Same(s[0], p[0], docase) && Found(p[1..], s[1..], docase)
  }

  method DoMatchWild(pattern: string, str: string, docase: bool) returns (r: bool)
    ensures r == Found(pattern, str, docase)
    decreases |pattern|
  {
    var p, t := pattern, str;
    while p != ""
      invariant Found(p, t, docase) == Found(pattern, str, docase)
      decreases |p|
    {
      var c := p[0];
      if c == '?' {
        if t == "" {
          return false;
        }
        t := t[1..];
      } else if c == '*' {
        if |p| == 1 {
          return true;   // trailing '*' matches everything else
        }
        var i := 0;
        while i < |t|
          invariant 0 <= i <= |t|
          invariant forall k {:trigger t[k..]} :: 0 <= k < i ==> !(Same(t[k], p[1], docase) && Found(p[1..], t[k..], docase))
        {
          if Same(t[i], p[1], docase) {
            var found := DoMatchWild(p[1..], t[i..], docase);
            if found {
              return true;
            }
          }
          i := i + 1;
        }
      } else {
        if t == "" || !Same(t[0], c, docase) {
          return false;
        }
        t := t[1..];
      }
      p := p[1..];
    }
    return t == "";
  }

  // ---------- soundness ----------

  lemma {:induction false} Sound(p: string, s: string, docase: bool)
    requires Found(p, s, docase)
    ensures Glob(p, s, docase)
    decreases |p|
  {
    if p == "" {
    } else if p[0] == '*' {
      GlobStar(p, s, docase);
      if |p| == 1 {
        assert s[|s|..] == "" && Glob(p[1..], s[|s|..], docase);
      } else if i :| 0 <= i < |s| && Same(s[i], p[1], docase) && Found(p[1..], s[i..], docase) {
        Sound(p[1..], s[i..], docase);
      } else {
        Sound(p[1..], s, docase);
        assert s[0..] == s;
      }
    } else {
      Sound(p[1..], s[1..], docase);
    }
  }

  // ---------- completeness, up to squeezing ----------

  // The pattern without the '*' that stand before another wildcard
  function Squeezed(p: string): string {
    if p == "" then ""
    else if p[0] == '*' && |p| > 1 && IsWildcard(p[1]) then Squeezed(p[1..])
    else [p[0]] + Squeezed(p[1..])
  }

  // Whatever the squeezed pattern means is found.
  lemma {:induction false} FindsSqueezed(p: string, s: string, docase: bool)
    requires Glob(Squeezed(p), s, docase)
    ensures Found(p, s, docase)
    decreases |p|
  {
    if p == "" {
    } else if p[0] == '*' {
      if |p| == 1 {
      } else if IsWildcard(p[1]) {
        FindsSqueezed(p[1..], s, docase);
      } else {
        var q := Squeezed(p);
        assert q[1..] == Squeezed(p[1..]) && q[1..][0] == p[1];
        GlobStar(q, s, docase);
        var i :| 0 <= i <= |s| && Glob(q[1..], s[i..], docase);
        assert i < |s| && Same(s[i], p[1], docase);
        FindsSqueezed(p[1..], s[i..], docase);
      }
    } else {
      assert Squeezed(p)[1..] == Squeezed(p[1..]);
      FindsSqueezed(p[1..], s[1..], docase);
    }
  }

  predicate Plain(s: string) {
    forall i :: 0 <= i < |s| ==> !IsWildcard(s[i])
  }

  // In a string without wildcard characters nothing else is found.
  lemma {:induction false} FindsOnlySqueezed(p: string, s: string, docase: bool)
    requires Plain(s) && Found(p, s, docase)
    ensures Glob(Squeezed(p), s, docase)
    decreases |p|
  {
    if p == "" {
    } else if p[0] == '*' {
      var q := Squeezed(p);
      if |p| == 1 {
        assert p[1..] == "" && Squeezed(p[1..]) == "";
        assert q == [p[0]];
        GlobStar(q, s, docase);
        assert s[|s|..] == "" && q[1..] == "" && Glob(q[1..], s[|s|..], docase);
      } else if IsWildcard(p[1]) {
        FindsOnlySqueezed(p[1..], s, docase);
      } else {
        assert q[1..] == Squeezed(p[1..]);
        GlobStar(q, s, docase);
        assert s[0..] == s;
        var i :| 0 <= i < |s| && Same(s[i], p[1], docase) && Found(p[1..], s[i..], docase);
        FindsOnlySqueezed(p[1..], s[i..], docase);
      }
    } else {
      assert Squeezed(p)[1..] == Squeezed(p[1..]);
      FindsOnlySqueezed(p[1..], s[1..], docase);
    }
  }

  // ---------- which patterns mean the same after squeezing ----------

  // One '?' or more, then a character of its own or the end
  predicate Stuck(r: string) {
    r != "" && r[0] == '?' && (|r| == 1 || !IsWildcard(r[1]) || Stuck(r[1..]))
  }

  // Somewhere '*' is followed by '?', one or more, and no '*' comes right behind them.
  predicate Lossy(p: string) {
    p != "" && ((p[0] == '*' && Stuck(p[1..])) || Lossy(p[1..]))
  }

  lemma {:induction false} StarMore(p: string, s: string, docase: bool, i: nat)
    requires p != "" && p[0] == '*' && i <= |s| && Glob(p, s[i..], docase)
    ensures Glob(p, s, docase)
    decreases i
  {
    if i == 0 {
      assert s[0..] == s;
    } else {
      assert s[1..][i - 1..] == s[i..];
      StarMore(p, s[1..], docase, i - 1);
    }
  }

  // Behind a '*' that is not lost, a longer string matches as well.
  lemma {:induction false} Absorbs(r: string, s: string, docase: bool, i: nat)
    requires r != "" && IsWildcard(r[0]) && !Stuck(r) && i <= |s| && Glob(r, s[i..], docase)
    ensures Glob(r, s, docase)
    decreases |r|
  {
    if r[0] == '*' {
      StarMore(r, s, docase, i);
    } else {
      assert s[1..][i..] == s[i..][1..];
      Absorbs(r[1..], s[1..], docase, i);
    }
  }

  lemma {:induction false} SqueezedSame(p: string, s: string, docase: bool)
    requires !Lossy(p) && Glob(p, s, docase)
    ensures Glob(Squeezed(p), s, docase)
    decreases |p|, |s|
  {
    if p == "" {
    } else if p[0] == '*' {
      GlobStar(p, s, docase);
      var i :| 0 <= i <= |s| && Glob(p[1..], s[i..], docase);
      if |p| > 1 && IsWildcard(p[1]) {
        Absorbs(p[1..], s, docase, i);
        SqueezedSame(p[1..], s, docase);
      } else {
        var q := Squeezed(p);
        assert q[1..] == Squeezed(p[1..]);
        SqueezedSame(p[1..], s[i..], docase);
        GlobStar(q, s, docase);
      }
    } else {
      assert Squeezed(p)[1..] == Squeezed(p[1..]);
      SqueezedSame(p[1..], s[1..], docase);
    }
  }

  // A pattern that is not lossy is matched exactly.
  lemma Exact(p: string, s: string, docase: bool)
    requires !Lossy(p)
    ensures Found(p, s, docase) <==> Glob(p, s, docase)
  {
    if Glob(p, s, docase) {
      SqueezedSame(p, s, docase);
      FindsSqueezed(p, s, docase);
    } else if Found(p, s, docase) {
      Sound(p, s, docase);
    }
  }

  // In particular if no '*' stands right before a '?'
  lemma {:induction false} NoStarQuestion(p: string)
    requires forall i :: 0 <= i < |p| - 1 ==> !(p[i] == '*' && p[i + 1] == '?')
    ensures !Lossy(p)
  {
    if p != "" {
      var r := p[1..];
      forall i | 0 <= i < |r| - 1
        ensures !(r[i] == '*' && r[i + 1] == '?')
      {
        assert r[i] == p[i + 1] && r[i + 1] == p[i + 2];
      }
      NoStarQuestion(p[1..]);
    }
  }

  // ---------- every other pattern misses something ----------

  // z differs from all of p.
  ghost predicate Fresh(z: char, p: string, docase: bool) {
    !IsWildcard(z) && forall i :: 0 <= i < |p| ==> !Same(z, p[i], docase)
  }

  // The pattern itself as a string, with z for '?' and nothing for '*'
  function Filled(p: string, z: char): string {
    if p == "" then ""
    else if p[0] == '*' then Filled(p[1..], z)
    else [if p[0] == '?' then z else p[0]] + Filled(p[1..], z)
  }

  // The same, with one more z for the first '*' that is lost
  function Missed(p: string, z: char): string
    requires Lossy(p)
  {
    if p[0] == '*' then if Stuck(p[1..]) then [z] + Filled(p[1..], z) else Missed(p[1..], z)
    else [if p[0] == '?' then z else p[0]] + Missed(p[1..], z)
  }

  lemma {:induction false} FilledMatches(p: string, z: char, docase: bool)
    ensures Glob(p, Filled(p, z), docase)
    decreases |p|
  {
    if p != "" {
      FilledMatches(p[1..], z, docase);
      if p[0] != '*' {
        assert Filled(p, z)[1..] == Filled(p[1..], z);
      }
    }
  }

  lemma {:induction false} MissedMatches(p: string, z: char, docase: bool)
    requires Lossy(p)
    ensures Glob(p, Missed(p, z), docase)
    decreases |p|
  {
    var s := Missed(p, z);
    if p[0] == '*' && Stuck(p[1..]) {
      FilledMatches(p[1..], z, docase);
      assert s[1..] == Filled(p[1..], z);
      assert Glob(p, s[1..], docase);
    } else {
      MissedMatches(p[1..], z, docase);
      if p[0] != '*' {
        assert s[1..] == Missed(p[1..], z);
      }
    }
  }

  // Characters of the pattern's own, and characters of the string other than z
  function Own(p: string): nat {
    if p == "" then 0 else (if IsWildcard(p[0]) then 0 else 1) + Own(p[1..])
  }

  function Other(s: string, z: char, docase: bool): nat {
    if s == "" then 0 else (if Same(z, s[0], docase) then 0 else 1) + Other(s[1..], z, docase)
  }

  lemma {:induction false} OwnNeedsOther(q: string, s: string, z: char, docase: bool)
    requires Fresh(z, q, docase) && Glob(q, s, docase)
    ensures Own(q) <= Other(s, z, docase)
    decreases |q| + |s|
  {
    if q == "" {
    } else if q[0] == '*' {
      if Glob(q[1..], s, docase) {
        OwnNeedsOther(q[1..], s, z, docase);
      } else {
        OwnNeedsOther(q, s[1..], z, docase);
      }
    } else {
      OwnNeedsOther(q[1..], s[1..], z, docase);
    }
  }

  lemma {:induction false} OtherDrop(s: string, z: char, docase: bool, i: nat)
    requires 0 < i <= |s| && !Same(z, s[0], docase)
    ensures Other(s[i..], z, docase) < Other(s, z, docase)
    decreases i
  {
    if i > 1 {
      OtherDropAny(s[1..], z, docase, i - 1);
      assert s[1..][i - 1..] == s[i..];
    }
  }

  lemma {:induction false} OtherDropAny(s: string, z: char, docase: bool, i: nat)
    requires i <= |s|
    ensures Other(s[i..], z, docase) <= Other(s, z, docase)
    decreases i
  {
    if i == 0 {
      assert s[0..] == s;
    } else {
      OtherDropAny(s[1..], z, docase, i - 1);
      assert s[1..][i - 1..] == s[i..];
    }
  }

  lemma {:induction false} FilledOther(p: string, z: char, docase: bool)
    requires Fresh(z, p, docase)
    ensures Other(Filled(p, z), z, docase) == Own(p)
  {
    if p != "" {
      FilledOther(p[1..], z, docase);
      if p[0] != '*' {
        assert Filled(p, z)[1..] == Filled(p[1..], z);
      }
    }
  }

  lemma {:induction false} MissedOther(p: string, z: char, docase: bool)
    requires Lossy(p) && Fresh(z, p, docase)
    ensures Other(Missed(p, z), z, docase) == Own(p)
  {
    var s := Missed(p, z);
    if p[0] == '*' && Stuck(p[1..]) {
      FilledOther(p[1..], z, docase);
      assert s[1..] == Filled(p[1..], z);
    } else {
      MissedOther(p[1..], z, docase);
      if p[0] != '*' {
        assert s[1..] == Missed(p[1..], z);
      }
    }
  }

  lemma {:induction false} SqueezedKeeps(p: string, z: char, docase: bool)
    requires Fresh(z, p, docase)
    ensures Own(Squeezed(p)) == Own(p) && Fresh(z, Squeezed(p), docase)
  {
    if p != "" {
      SqueezedKeeps(p[1..], z, docase);
      if !(p[0] == '*' && |p| > 1 && IsWildcard(p[1])) {
        assert Squeezed(p)[1..] == Squeezed(p[1..]);
      }
    }
  }

  lemma {:induction false} StuckTooShort(r: string, z: char, docase: bool)
    requires Stuck(r) && Fresh(z, r, docase)
    ensures !Glob(Squeezed(r), [z] + Filled(r, z), docase)
    decreases |r|
  {
    var q, s := Squeezed(r), [z] + Filled(r, z);
    assert q[1..] == Squeezed(r[1..]) && s[1..] == [z] + Filled(r[1..], z);
    if |r| > 1 && Stuck(r[1..]) {
      StuckTooShort(r[1..], z, docase);
    }
  }

  lemma {:induction false} SqueezedMisses(p: string, z: char, docase: bool)
    requires Lossy(p) && Fresh(z, p, docase)
    ensures !Glob(Squeezed(p), Missed(p, z), docase)
    decreases |p|
  {
    var q, s := Squeezed(p), Missed(p, z);
    if p[0] == '*' && Stuck(p[1..]) {
      StuckTooShort(p[1..], z, docase);
    } else {
      SqueezedMisses(p[1..], z, docase);
      if p[0] != '*' {
        assert q[1..] == Squeezed(p[1..]) && s[1..] == Missed(p[1..], z);
      } else if !IsWildcard(p[1]) {
        // '*' before a character of the pattern's own, which s starts with
        assert q[1..] == Squeezed(p[1..]) && s == Missed(p[1..], z) && s[0] == p[1];
        GlobStar(q, s, docase);
        assert s[0..] == s;
        if i :| 0 <= i <= |s| && Glob(q[1..], s[i..], docase) {
          SqueezedKeeps(p[1..], z, docase);
          OwnNeedsOther(q[1..], s[i..], z, docase);
          MissedOther(p[1..], z, docase);
          if i > 0 {
            OtherDrop(s, z, docase, i);
          }
        }
      }
    }
  }

  lemma {:induction false} MissedPlain(p: string, z: char)
    requires Lossy(p) && !IsWildcard(z)
    ensures Plain(Missed(p, z))
    decreases |p|
  {
    if p[0] == '*' && Stuck(p[1..]) {
      FilledPlain(p[1..], z);
    } else {
      MissedPlain(p[1..], z);
    }
  }

  lemma {:induction false} FilledPlain(p: string, z: char)
    requires !IsWildcard(z)
    ensures Plain(Filled(p, z))
  {
    if p != "" {
      FilledPlain(p[1..], z);
    }
  }

  // The patterns that are matched exactly are those that are not lossy, as long as some character is
  // left that the pattern does not use.
  lemma ExactlyWhen(p: string, docase: bool, z: char)
    requires Fresh(z, p, docase)
    ensures !Lossy(p) <==> forall s :: Found(p, s, docase) <==> Glob(p, s, docase)
  {
    if Lossy(p) {
      var s := Missed(p, z);
      MissedMatches(p, z, docase);
      MissedPlain(p, z);
      SqueezedMisses(p, z, docase);
      if Found(p, s, docase) {
        FindsOnlySqueezed(p, s, docase);
      }
      assert Glob(p, s, docase) && !Found(p, s, docase);
    } else {
      forall s
        ensures Found(p, s, docase) <==> Glob(p, s, docase)
      {
        Exact(p, s, docase);
      }
    }
  }

  // ---------- without regard to case ----------

  lemma {:induction false} NoCase(p: string, s: string)
    ensures Found(p, s, false) <==> Found(Lower(p), Lower(s), true)
    decreases |p|
  {
    if p != "" {
      assert Lower(p)[1..] == Lower(p[1..]);
      if p[0] == '*' {
        forall i | 0 <= i < |s|
          ensures Found(p[1..], s[i..], false) <==> Found(Lower(p)[1..], Lower(s)[i..], true)
        {
          assert Lower(s)[i..] == Lower(s[i..]);
          NoCase(p[1..], s[i..]);
        }
        NoCase(p[1..], s);
      } else if s != "" {
        assert Lower(s)[1..] == Lower(s[1..]);
        NoCase(p[1..], s[1..]);
      }
    }
  }

  method MatchWild(pattern: string, str: string) returns (r: bool)
    ensures r ==> Glob(pattern, str, true)
    ensures !Lossy(pattern) ==> r == Glob(pattern, str, true)
  {
    r := DoMatchWild(pattern, str, true);
    if r {
      Sound(pattern, str, true);
    }
    if !Lossy(pattern) {
      Exact(pattern, str, true);
    }
  }

  method MatchWildNocase(pattern: string, str: string) returns (r: bool)
    ensures r == Found(Lower(pattern), Lower(str), true)
    ensures r ==> Glob(pattern, str, false)
    ensures !Lossy(pattern) ==> r == Glob(pattern, str, false)
  {
    r := DoMatchWild(pattern, str, false);
    NoCase(pattern, str);
    if r {
      Sound(pattern, str, false);
    }
    if !Lossy(pattern) {
      Exact(pattern, str, false);
    }
  }
}
