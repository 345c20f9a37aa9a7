/**
  For which patterns the wildcard matcher of src/irc-core/irc-core.c finds every match.
*/
module IrcComplete {
  import opened IrcMatch

  const FILLER: Ascii := 97

  // Every non-empty text that matches the pattern, read with the '?'s after a '*' left out, is
  // accepted.
  ghost predicate Complete(pat: Text) {
    forall text: Text :: text != [] && Glob(text, Absorb(pat)) ==> Accepts(text, pat)
  }

  // ----- patterns in parts -----

  predicate Literal(s: Text) {
    STAR !in s && QUESTION !in s
  }

  // The position of the first '*', or the length of the pattern.
  function FirstStar(pat: Text): (n: nat)
    ensures n <= |pat| && (forall i :: 0 <= i < n ==> pat[i] != STAR) && (n < |pat| ==> pat[n] == STAR)
  {
    if pat == [] || pat[0] == STAR then 0 else 1 + FirstStar(pat[1..])
  }

  // The first character does not occur again.
  predicate FirstIsUnique(s: Text) {
    s == [] || forall i :: 0 < i < |s| ==> Lc(s[i]) != Lc(s[0])
  }

  // Behind the first '*': a literal whose first character does not recur, in front of it
  // perhaps one more character, which does not occur in the literal, and a second '*'.
  predicate RegularRest(rest: Text) {
    var m := FirstStar(rest);
    if m == |rest| then Literal(rest) && FirstIsUnique(rest)
    else
      && m == 1 && Literal(rest[2..]) && FirstIsUnique(rest[2..])
      && forall i :: 2 <= i < |rest| ==> Lc(rest[i]) != Lc(rest[0])
  }

  // No '*', or a regular rest behind the first one; but not just "?*" at the end.
  predicate Regular(pat: Text) {
    var a := Absorb(pat);
    var n := FirstStar(a);
    n == |a| || (RegularRest(a[n + 1..]) && !(n == |a| - 1 && n > 0 && a[n - 1] == QUESTION))
  }

  // No '?' directly after a '*'.
  ghost predicate Absorbed(pat: Text) {
    forall i :: 0 <= i < |pat| - 1 && pat[i] == STAR ==> pat[i + 1] != QUESTION
  }

  lemma AbsorbStart(pat: Text)
    ensures pat == [] <==> Absorb(pat) == []
    ensures pat != [] ==> Absorb(pat)[0] == pat[0]
  {
  }

  lemma {:induction false} AbsorbIsAbsorbed(pat: Text)
    ensures Absorbed(Absorb(pat))
    decreases |pat|
  {
    if pat != [] {
      var rest := if pat[0] == STAR then SkipQuestions(pat[1..]) else pat[1..];
      AbsorbIsAbsorbed(rest);
      AbsorbStart(rest);
      var a := Absorb(pat);
      assert a == [pat[0]] + Absorb(rest);
      forall i | 0 <= i < |a| - 1 && a[i] == STAR ensures a[i + 1] != QUESTION {
        if i > 0 { assert a[i] == Absorb(rest)[i - 1] && a[i + 1] == Absorb(rest)[i]; }
      }
    }
  }

  lemma AbsorbedTail(pat: Text, n: nat)
    requires Absorbed(pat) && n <= |pat|
    ensures Absorbed(pat[n..])
  {
    var rest := pat[n..];
    forall i | 0 <= i < |rest| - 1 && rest[i] == STAR ensures rest[i + 1] != QUESTION {
      assert rest[i] == pat[n + i] && rest[i + 1] == pat[n + i + 1];
    }
  }

  lemma AbsorbedRest(pat: Text, n: nat)
    requires Absorbed(pat) && n < |pat| && pat[n] == STAR
    ensures var rest := pat[n + 1..];
      Absorbed(rest) && (rest == [] || rest[0] != QUESTION)
  {
    AbsorbedTail(pat, n + 1);
    if n + 1 < |pat| { assert pat[n + 1..][0] == pat[n + 1]; }
  }

  lemma {:induction false} AbsorbedStays(pat: Text)
    requires Absorbed(pat)
    ensures Absorb(pat) == pat
  {
    if pat != [] {
      assert pat[0] == STAR && |pat| > 1 ==> pat[1] != QUESTION;
      assert pat[0] == STAR ==> SkipQuestions(pat[1..]) == pat[1..];
      AbsorbedTail(pat, 1);
      AbsorbedStays(pat[1..]);
    }
  }

  // The matcher does not look at the '?'s that are left out.
  lemma {:induction false} AcceptsAbsorbed(text: Text, pat: Text)
    ensures Accepts(text, Absorb(pat)) == Accepts(text, pat)
    decreases |pat|, 1
  {
    AbsorbStart(pat);
    if text != [] && pat != [] {
      BodyAbsorbed(text, pat);
    }
  }

  lemma {:induction false} BodyAbsorbed(text: Text, pat: Text)
    ensures Body(text, Absorb(pat)) == Body(text, pat)
    decreases |pat|, 0
  {
    if pat != [] {
      if pat[0] == STAR {
        var rest := SkipQuestions(pat[1..]);
        AbsorbStart(rest);
        assert Absorb(pat)[1..] == Absorb(rest);
        assert SkipQuestions(Absorb(rest)) == Absorb(rest);
        assert StarSkip(text, Absorb(rest)) == StarSkip(text, rest);
        AcceptsAbsorbed(text[StarSkip(text, rest)..], rest);
      } else {
        assert Absorb(pat)[1..] == Absorb(pat[1..]);
        if text != [] {
          if pat[0] == QUESTION {
            AcceptsAbsorbed(text[1..], pat[1..]);
          } else {
            BodyAbsorbed(text[1..], pat[1..]);
          }
        }
      }
    }
  }

  // ----- what is in front of the first '*' -----

  // Character by character; a '?' takes any.
  ghost predicate Fits(text: Text, s: Text) {
    |text| == |s| && forall i :: 0 <= i < |s| ==> s[i] == QUESTION || Lc(text[i]) == Lc(s[i])
  }

  lemma FitsCons(text: Text, s: Text)
    requires text != [] && s != []
    ensures Fits(text, s) <==> (s[0] == QUESTION || Lc(text[0]) == Lc(s[0])) && Fits(text[1..], s[1..])
  {
    if Fits(text, s) {
      assert forall i :: 0 <= i < |s| - 1 ==> s[1..][i] == s[i + 1] && text[1..][i] == text[i + 1];
    }
    if (s[0] == QUESTION || Lc(text[0]) == Lc(s[0])) && Fits(text[1..], s[1..]) {
      forall i | 0 <= i < |s| ensures s[i] == QUESTION || Lc(text[i]) == Lc(s[i]) {
        if i > 0 { assert s[i] == s[1..][i - 1] && text[i] == text[1..][i - 1]; }
      }
    }
  }

  // Without a '*' the matcher and the glob agree.
  lemma {:induction false} NoStar(text: Text, s: Text)
    requires STAR !in s
    ensures Glob(text, s) <==> Fits(text, s)
    ensures Body(text, s) <==> Fits(text, s)
    ensures Accepts(text, s) <==> Fits(text, s)
  {
    if text != [] && s != [] {
      NoStar(text[1..], s[1..]);
      FitsCons(text, s);
    }
  }

  // Up to the first '*' too; but after a '?' the matcher gives up at the end of the text.
  lemma {:induction false} Front(text: Text, s: Text, pat: Text)
    requires STAR !in s && pat != [] && pat[0] == STAR
    ensures Glob(text, s + pat) <==> |s| <= |text| && Fits(text[..|s|], s) && Glob(text[|s|..], pat)
    ensures Body(text, s + pat) <==>
      |s| <= |text| && Fits(text[..|s|], s)
      && if s != [] && s[|s| - 1] == QUESTION then Accepts(text[|s|..], pat) else Body(text[|s|..], pat)
  {
    if s == [] {
      assert s + pat == pat && text[0..] == text;
    } else {
      assert (s + pat)[1..] == s[1..] + pat;
      if text != [] {
        Front(text[1..], s[1..], pat);
        if |s| <= |text| {
          assert text[..|s|][1..] == text[1..][..|s| - 1];
          assert text[1..][|s| - 1..] == text[|s|..];
          FitsCons(text[..|s|], s);
        }
      }
    }
  }

  // ----- behind the first '*' -----

  // One pass over a '*' that is not followed by a '?'.
  lemma StarStep(text: Text, rest: Text)
    requires rest == [] || rest[0] != QUESTION
    ensures Body(text, [STAR] + rest) == Accepts(text[StarSkip(text, rest)..], rest)
  {
    assert ([STAR] + rest)[1..] == rest;
  }

  lemma GlobStar(text: Text, rest: Text, k: nat)
    requires k <= |text| && Glob(text[k..], rest)
    ensures Glob(text, [STAR] + rest)
  {
    assert ([STAR] + rest)[1..] == rest;
  }

  lemma StarSplit(text: Text, rest: Text) returns (k: nat)
    requires Glob(text, [STAR] + rest)
    ensures k <= |text| && Glob(text[k..], rest)
    ensures rest != [] && rest[0] != STAR ==> k < |text|
  {
    assert ([STAR] + rest)[1..] == rest;
    k :| 0 <= k <= |text| && Glob(text[k..], rest);
  }

  lemma GlobStep(text: Text, pat: Text)
    requires pat != [] && pat[0] != STAR
    ensures Glob(text, pat) <==>
      text != [] && (pat[0] == QUESTION || Lc(pat[0]) == Lc(text[0])) && Glob(text[1..], pat[1..])
  {
  }

  lemma CharStep(text: Text, c: Ascii, pat: Text)
    requires c != STAR && c != QUESTION && text != []
    ensures Accepts(text, [c] + pat) <==> Lc(text[0]) == Lc(c) && Body(text[1..], pat)
  {
    assert ([c] + pat)[1..] == pat;
  }

  // A literal behind the last '*'.
  lemma StarLiteral(text: Text, suffix: Text)
    requires Literal(suffix) && Glob(text, [STAR] + suffix)
    ensures Body(text, [STAR] + suffix) <==> FirstIsUnique(suffix)
  {
    var k := StarSplit(text, suffix);
    NoStar(text[k..], suffix);
    StarStep(text, suffix);
    var n := StarSkip(text, suffix);
    NoStar(text[n..], suffix);
    if suffix == [] {
      assert n == |text|;
    } else {
      forall i | 0 <= i < |suffix| ensures Lc(text[k + i]) == Lc(suffix[i]) {
        assert text[k..][i] == text[k + i] && suffix[i] in suffix;
      }
      assert Lc(text[k + 0]) == Lc(suffix[0]);
      if n > k {
        assert Lc(text[k + (n - k)]) == Lc(suffix[n - k]);
      } else {
        forall i | 0 < i < |suffix| ensures Lc(suffix[i]) != Lc(suffix[0]) {
          assert Lc(text[k + i]) == Lc(suffix[i]);
        }
      }
    }
  }

  // A single character between two '*'.
  lemma StarCharStar(text: Text, c: Ascii, suffix: Text)
    requires c != STAR && c != QUESTION && Literal(suffix) && FirstIsUnique(suffix)
    requires forall i :: 0 <= i < |suffix| ==> Lc(suffix[i]) != Lc(c)
    requires Glob(text, [STAR] + ([c] + ([STAR] + suffix)))
    ensures Body(text, [STAR] + ([c] + ([STAR] + suffix)))
  {
    hide Glob, Body, Accepts, FirstIsUnique;
    var last := [STAR] + suffix;
    var rest := [c] + last;
    var k := StarSplit(text, rest);
    var after := text[k..][1..];
    GlobStep(text[k..], rest);
    assert rest[1..] == last && text[k..][0] == text[k];
    var m := StarSplit(after, suffix);
    NoStar(after[m..], suffix);
    var start := k + 1 + m;
    CharBefore(text, start, c, suffix, after[m..]);
    StarStep(text, rest);
    var n := StarSkip(text, rest);
    assert k <= n < start;
    var t := text[n..];
    assert t[0] == text[n] && t[1..][start - (n + 1)..] == text[start..] == after[m..];
    GlobStar(t[1..], suffix, start - (n + 1));
    StarLiteral(t[1..], suffix);
    CharStep(t, c, last);
  }

  // The character does not occur where the literal is spelled.
  lemma CharBefore(text: Text, start: nat, c: Ascii, suffix: Text, end: Text)
    requires start <= |text| && end == text[start..] && Fits(end, suffix) && Literal(suffix)
    requires forall i :: 0 <= i < |suffix| ==> Lc(suffix[i]) != Lc(c)
    ensures forall i :: start <= i < |text| ==> Lc(text[i]) != Lc(c)
  {
    forall i | start <= i < |text| ensures Lc(text[i]) != Lc(c) {
      assert end[i - start] == text[i] && suffix[i - start] in suffix;
    }
  }

  lemma RegularRestAccepts(text: Text, rest: Text)
    requires RegularRest(rest) && (rest == [] || rest[0] != QUESTION) && Glob(text, [STAR] + rest)
    ensures Body(text, [STAR] + rest) && (rest != [] ==> text != [])
  {
    hide Glob, Body;
    var k := StarSplit(text, rest);
    if FirstStar(rest) == |rest| {
      StarLiteral(text, rest);
    } else {
      var (c, suffix) := (rest[0], rest[2..]);
      assert rest == [c] + ([STAR] + suffix);
      forall i | 0 <= i < |suffix| ensures Lc(suffix[i]) != Lc(c) {
        assert suffix[i] == rest[i + 2];
      }
      StarCharStar(text, c, suffix);
    }
  }

  // Every regular pattern is complete.
  lemma RegularAccepts(text: Text, a: Text)
    requires Absorbed(a) && Regular(a) && text != [] && Glob(text, a)
    ensures Accepts(text, a)
  {
    hide Glob, Accepts, Body, Fits, RegularRest, Absorb, Absorbed;
    AbsorbedStays(a);
    var n := FirstStar(a);
    if n == |a| {
      NoStar(text, a);
    } else {
      AbsorbedRest(a, n);
      assert a == a[..n] + ([STAR] + a[n + 1..]);
      RegularBehind(text, a[..n], a[n + 1..]);
    }
  }

  lemma RegularBehind(text: Text, front: Text, rest: Text)
    requires STAR !in front && RegularRest(rest) && (rest == [] || rest[0] != QUESTION)
    requires !(rest == [] && front != [] && front[|front| - 1] == QUESTION)
    requires text != [] && Glob(text, front + ([STAR] + rest))
    ensures Accepts(text, front + ([STAR] + rest))
  {
    hide Glob, Body, Fits, RegularRest;
    Front(text, front, [STAR] + rest);
    RegularRestAccepts(text[|front|..], rest);
  }

  // ----- texts that are missed -----

  // The shortest text that matches, with `f` for every '?'.
  function Instance(pat: Text, f: Ascii): Text {
    if pat == [] then []
    else (if pat[0] == STAR then [] else if pat[0] == QUESTION then [f] else [pat[0]]) + Instance(pat[1..], f)
  }

  lemma {:induction false} InstanceMatches(pat: Text, f: Ascii)
    ensures Glob(Instance(pat, f), pat)
  {
    if pat != [] {
      var (t, rest) := (Instance(pat, f), Instance(pat[1..], f));
      InstanceMatches(pat[1..], f);
      if pat[0] == STAR {
        assert t == rest && t[0..] == rest;
      } else {
        assert t[1..] == rest;
      }
    }
  }

  lemma {:induction false} InstanceConcat(p: Text, q: Text, f: Ascii)
    ensures Instance(p + q, f) == Instance(p, f) + Instance(q, f)
  {
    if p == [] {
      assert p + q == q;
    } else {
      assert (p + q)[1..] == p[1..] + q;
      InstanceConcat(p[1..], q, f);
    }
  }

  lemma {:induction false} InstanceHasNoStar(pat: Text, f: Ascii)
    requires f != STAR
    ensures STAR !in Instance(pat, f)
  {
    if pat != [] { InstanceHasNoStar(pat[1..], f); }
  }

  // Without a '*' the instance keeps positions.
  lemma {:induction false} InstanceAt(pat: Text, f: Ascii)
    requires STAR !in pat
    ensures |Instance(pat, f)| == |pat|
    ensures forall i :: 0 <= i < |pat| ==> Instance(pat, f)[i] == if pat[i] == QUESTION then f else pat[i]
  {
    if pat != [] {
      InstanceAt(pat[1..], f);
      forall i | 0 <= i < |pat| ensures Instance(pat, f)[i] == if pat[i] == QUESTION then f else pat[i] {
        if i > 0 { assert pat[i] == pat[1..][i - 1] && Instance(pat, f)[i] == Instance(pat[1..], f)[i - 1]; }
      }
    }
  }

  lemma {:induction false} GlobConcat(a: Text, p: Text, b: Text, q: Text)
    requires Glob(a, p) && Glob(b, q)
    ensures Glob(a + b, p + q)
    decreases |p|
  {
    if p == [] {
      assert a + b == b && p + q == q;
    } else if p[0] == STAR {
      hide Glob;
      assert p == [STAR] + p[1..] && p + q == [STAR] + (p[1..] + q);
      var k := StarSplit(a, p[1..]);
      GlobConcat(a[k..], p[1..], b, q);
      assert (a + b)[k..] == a[k..] + b;
      GlobStar(a + b, p[1..] + q, k);
    } else {
      hide Glob;
      GlobStep(a, p);
      GlobConcat(a[1..], p[1..], b, q);
      ConcatStep(a, p, b, q);
    }
  }

  lemma ConcatStep(a: Text, p: Text, b: Text, q: Text)
    requires p != [] && p[0] != STAR && a != [] && (p[0] == QUESTION || Lc(p[0]) == Lc(a[0]))
    requires Glob(a[1..] + b, p[1..] + q)
    ensures Glob(a + b, p + q)
  {
    hide Glob;
    assert (a + b)[1..] == a[1..] + b && (p + q)[1..] == p[1..] + q;
    GlobStep(a + b, p + q);
  }

  lemma {:induction false} MatchIsLong(text: Text, pat: Text, f: Ascii)
    requires Glob(text, pat)
    ensures |text| >= |Instance(pat, f)|
    decreases |pat|
  {
    if pat != [] {
      if pat[0] == STAR {
        assert pat == [STAR] + pat[1..];
        var k := StarSplit(text, pat[1..]);
        MatchIsLong(text[k..], pat[1..], f);
      } else {
        MatchIsLong(text[1..], pat[1..], f);
      }
    }
  }

  // Too little text is left.
  lemma TooShort(text: Text, pat: Text, f: Ascii)
    requires Absorbed(pat) && |text| < |Instance(pat, f)|
    ensures !Accepts(text, pat)
  {
    Sound(text, pat);
    AbsorbedStays(pat);
    if Glob(text, pat) { MatchIsLong(text, pat, f); }
  }

  // Two '*' in a row: the matcher looks for a '*' in the text.
  lemma TwoStars(text: Text, rest: Text)
    requires STAR !in text && rest != [] && rest[0] == STAR
    ensures !Body(text, [STAR] + rest)
  {
    StarStep(text, rest);
    var n := StarSkip(text, rest);
    assert text[n..] == [];
  }

  // If the character behind the '*' is found late, too little text is left.
  lemma LateSkip(text: Text, rest: Text, late: nat, f: Ascii)
    requires Absorbed(rest) && rest != [] && rest[0] != STAR && rest[0] != QUESTION
    requires late < |text| && Lc(text[late]) == Lc(rest[0]) && |text| - late < |Instance(rest, f)|
    ensures !Body(text, [STAR] + rest)
  {
    StarStep(text, rest);
    TooShort(text[StarSkip(text, rest)..], rest, f);
  }

  // `text` matches and is not accepted behind a '*'.
  ghost predicate Missed(text: Text, rest: Text) {
    text != [] && Glob(text, [STAR] + rest) && !Body(text, [STAR] + rest)
  }

  lemma MissedInstance(rest: Text, f: Ascii)
    ensures Glob(Instance(rest, f), [STAR] + rest)
  {
    InstanceMatches(rest, f);
    assert Instance(rest, f)[0..] == Instance(rest, f);
    GlobStar(Instance(rest, f), rest, 0);
  }

  // No second '*', but a '?' or a first character that recurs: the shortest match, with the
  // first character for every '?'.
  lemma MissedAfterOneStar(rest: Text) returns (text: Text)
    requires Absorbed(rest) && rest != [] && rest[0] != QUESTION && STAR !in rest
    requires !(Literal(rest) && FirstIsUnique(rest))
    ensures Missed(text, rest)
  {
    text := Instance(rest, rest[0]);
    InstanceAt(rest, rest[0]);
    MissedInstance(rest, rest[0]);
    if QUESTION in rest {
      var i :| 0 <= i < |rest| && rest[i] == QUESTION;
      LateSkip(text, rest, i, rest[0]);
    } else {
      assert forall i :: 0 <= i < |rest| ==> rest[i] in rest;
      assert text == rest;
      StarLiteral(text, rest);
    }
  }

  // "**": any text without a '*' that is longer than it has to be.
  lemma MissedTwoStars(rest: Text) returns (text: Text)
    requires rest != [] && rest[0] == STAR
    ensures Missed(text, rest)
  {
    var t := Instance(rest, FILLER);
    text := [FILLER] + t;
    InstanceHasNoStar(rest, FILLER);
    InstanceMatches(rest, FILLER);
    assert text[1..] == t;
    GlobStar(text, rest, 1);
    TwoStars(text, rest);
  }

  // At least two characters before another '*': there the first one occurs once more.
  lemma MissedRepeat(q: Text, l: Text) returns (text: Text)
    requires q != [] && q[0] != STAR && q[0] != QUESTION && |Instance(q, FILLER)| >= 2
    requires Absorbed(q + ([STAR] + l))
    ensures Missed(text, q + ([STAR] + l))
  {
    var (a, b) := (Instance(q, FILLER), Instance(l, FILLER));
    var rest := q + ([STAR] + l);
    var tail := [q[0]] + b;
    text := a + tail;
    InstanceMatches(q, FILLER);
    InstanceMatches(l, FILLER);
    assert tail[1..] == b;
    GlobStar(tail, l, 1);
    GlobConcat(a, q, tail, [STAR] + l);
    assert text[0..] == text;
    GlobStar(text, rest, 0);
    InstanceConcat(q, [STAR] + l, FILLER);
    assert ([STAR] + l)[1..] == l;
    assert Instance([STAR] + l, FILLER) == b;
    assert text[|a|] == q[0] && rest[0] == q[0];
    LateSkip(text, rest, |a|, FILLER);
  }

  lemma MissedCharTwoStars(c: Ascii, l: Text) returns (text: Text)
    requires c != STAR && c != QUESTION && l != [] && l[0] == STAR
    ensures Missed(text, [c] + ([STAR] + l))
  {
    var rest := [c] + ([STAR] + l);
    text := Instance(rest, FILLER);
    InstanceHasNoStar(rest, FILLER);
    MissedInstance(rest, FILLER);
    assert rest[1..] == [STAR] + l;
    assert text[0] == c;
    StarStep(text, rest);
    var n := StarSkip(text, rest);
    var t := text[n..];
    if t != [] {
      assert forall x :: x in t[1..] ==> x in text;
      TwoStars(t[1..], l);
    }
  }

  lemma CharStarInstance(c: Ascii, l: Text)
    requires c != STAR && c != QUESTION
    ensures Instance([c] + ([STAR] + l), c) == [c] + Instance(l, c)
  {
    assert ([c] + ([STAR] + l))[1..] == [STAR] + l && ([STAR] + l)[1..] == l;
  }

  // A character and a '*' in front of a literal that is not regular or has that character.
  lemma MissedCharStar(c: Ascii, l: Text) returns (text: Text)
    requires c != STAR && c != QUESTION && STAR !in l && Absorbed([c] + ([STAR] + l))
    requires !(Literal(l) && FirstIsUnique(l) && forall i :: 0 <= i < |l| ==> Lc(l[i]) != Lc(c))
    ensures Missed(text, [c] + ([STAR] + l))
  {
    hide Glob, Body, Accepts, Instance;
    var rest := [c] + ([STAR] + l);
    var g := Instance(l, c);
    InstanceAt(l, c);
    MissedInstance(rest, c);
    CharStarInstance(c, l);
    text := [c] + g;
    if i :| 0 <= i < |l| && Lc(g[i]) == Lc(c) {
      assert text[i + 1] == g[i];
      LateSkip(text, rest, i + 1, c);
    } else {
      assert forall i :: 0 <= i < |l| ==> l[i] != QUESTION && g[i] == l[i];
      assert g == l;
      MissedLiteral(c, l);
    }
  }

  lemma MissedLiteral(c: Ascii, l: Text)
    requires c != STAR && c != QUESTION && Literal(l) && !FirstIsUnique(l)
    requires forall i :: 0 <= i < |l| ==> Lc(l[i]) != Lc(c)
    ensures !Body([c] + l, [STAR] + ([c] + ([STAR] + l)))
  {
    var (text, rest) := ([c] + l, [c] + ([STAR] + l));
    forall i | 0 < i < |text| ensures Lc(text[i]) != Lc(c) { assert text[i] == l[i - 1]; }
    StarStep(text, rest);
    assert StarSkip(text, rest) == 0 && text[0..] == text && text[1..] == l && rest[1..] == [STAR] + l;
    NoStar(l, l);
    assert l[0..] == l;
    GlobStar(l, l, 0);
    StarLiteral(l, l);
  }

  // Behind the first '*': for every rest that is not regular there is a text that is missed.
  lemma MissedRest(rest: Text) returns (text: Text)
    requires Absorbed(rest) && (rest == [] || rest[0] != QUESTION) && !RegularRest(rest)
    ensures Missed(text, rest)
  {
    hide Missed;
    var m := FirstStar(rest);
    if m == |rest| {
      text := MissedAfterOneStar(rest);
    } else if m == 0 {
      text := MissedTwoStars(rest);
    } else {
      assert rest == rest[..m] + ([STAR] + rest[m + 1..]);
      if m >= 2 {
        InstanceAt(rest[..m], FILLER);
        text := MissedRepeat(rest[..m], rest[m + 1..]);
      } else {
        assert rest[..m] == [rest[0]] && rest[m + 1..] == rest[2..];
        assert rest == [rest[0]] + ([STAR] + rest[2..]);
        text := MissedBehindChar(rest[0], rest[2..]);
      }
    }
  }

  lemma MissedBehindChar(c: Ascii, l: Text) returns (text: Text)
    requires c != STAR && c != QUESTION && Absorbed([c] + ([STAR] + l)) && !RegularRest([c] + ([STAR] + l))
    ensures Missed(text, [c] + ([STAR] + l))
  {
    hide Missed;
    var rest := [c] + ([STAR] + l);
    var n := FirstStar(l);
    if n == |l| {
      assert FirstStar(rest) == 1 && rest[2..] == l;
      assert forall i :: 0 <= i < |l| ==> rest[i + 2] == l[i];
      text := MissedCharStar(c, l);
    } else if n == 0 {
      text := MissedCharTwoStars(c, l);
    } else {
      var q := [c] + ([STAR] + l[..n]);
      assert rest == q + ([STAR] + l[n + 1..]);
      assert q[1..] == [STAR] + l[..n] && ([STAR] + l[..n])[1..] == l[..n];
      InstanceAt(l[..n], FILLER);
      text := MissedRepeat(q, l[n + 1..]);
    }
  }

  // For every pattern that is not regular there is a text that is missed.
  lemma MissedText(a: Text) returns (text: Text)
    requires Absorbed(a) && !Regular(a)
    ensures text != [] && Glob(text, a) && !Accepts(text, a)
  {
    hide Glob, Accepts, RegularRest, Absorb, Absorbed;
    AbsorbedStays(a);
    var n := FirstStar(a);
    var (front, rest) := (a[..n], a[n + 1..]);
    assert a == front + ([STAR] + rest);
    if !RegularRest(rest) {
      AbsorbedRest(a, n);
      text := MissedBehind(front, rest);
    } else {
      assert rest == [];
      text := MissedAtEnd(front);
    }
  }

  lemma FrontInstance(front: Text) returns (text: Text)
    requires STAR !in front
    ensures Fits(text, front) && |text| == |front|
  {
    text := Instance(front, FILLER);
    InstanceAt(front, FILLER);
  }

  lemma MissedBehind(front: Text, rest: Text) returns (text: Text)
    requires STAR !in front && Absorbed(rest) && (rest == [] || rest[0] != QUESTION) && !RegularRest(rest)
    ensures text != [] && Glob(text, front + ([STAR] + rest)) && !Accepts(text, front + ([STAR] + rest))
  {
    hide Glob, Body, Fits, Absorbed, RegularRest;
    var t0 := FrontInstance(front);
    var t := MissedRest(rest);
    text := t0 + t;
    assert text[..|front|] == t0 && text[|front|..] == t;
    Front(text, front, [STAR] + rest);
  }

  // A '?' before the last '*': the shortest match.
  lemma MissedAtEnd(front: Text) returns (text: Text)
    requires STAR !in front && front != [] && front[|front| - 1] == QUESTION
    ensures text != [] && Glob(text, front + ([STAR] + [])) && !Accepts(text, front + ([STAR] + []))
  {
    hide Glob, Body, Fits;
    text := FrontInstance(front);
    StarMatchesNothing();
    assert text[..|front|] == text && text[|front|..] == [];
    Front(text, front, [STAR] + []);
  }

  lemma StarMatchesNothing()
    ensures Glob([], [STAR] + [])
  {
    var nothing: Text := [];
    assert nothing[0..] == [];
    GlobStar(nothing, [], 0);
  }

  // The matcher finds every match of exactly the regular patterns.
  lemma CompleteIff(pat: Text)
    ensures Complete(pat) <==> Regular(pat)
  {
    var a := Absorb(pat);
    AbsorbIsAbsorbed(pat);
    AbsorbedStays(a);
    if Regular(pat) {
      forall text: Text | text != [] && Glob(text, a) ensures Accepts(text, pat) {
        RegularAccepts(text, a);
        AcceptsAbsorbed(text, pat);
      }
    } else {
      var text := MissedText(a);
      AcceptsAbsorbed(text, pat);
    }
  }

  ghost predicate Misses(text: Text, pat: Text) {
    Glob(text, pat) && !Accepts(text, pat)
  }

  // Matches that are missed: "*" on no text, "?*" and "**" on "a", "*aba" on "aba".
  lemma MissedMatches()
    ensures Misses([], [STAR])
    ensures Misses([97], [QUESTION, STAR])
    ensures Misses([97], [STAR, STAR])
    ensures Misses([97, 98, 97], [STAR, 97, 98, 97])
  {
    hide Misses;
    MissedByStar([], [STAR]);
    MissedByQuestionStar([97], [QUESTION, STAR]);
    MissedByStars([97], [STAR, STAR]);
    MissedByRepeat([97, 98, 97], [STAR, 97, 98, 97]);
  }

  lemma MissedByStar(text: Text, pat: Text)
    requires text == [] && pat == [STAR]
    ensures Misses(text, pat)
  {
    StarMatchesNothing();
    assert [STAR] + [] == pat;
  }

  lemma MissedByQuestionStar(text: Text, pat: Text)
    requires |text| == 1 && pat == [QUESTION, STAR]
    ensures Misses(text, pat)
  {
    MissedByStar(text[1..], pat[1..]);
  }

  lemma MissedByStars(text: Text, pat: Text)
    requires text == [97] && pat == [STAR, STAR]
    ensures Misses(text, pat)
  {
    MissedByStar(text[1..], pat[1..]);
    assert [STAR] + pat[1..] == pat;
    GlobStar(text, pat[1..], 1);
    TwoStars(text, pat[1..]);
  }

  lemma MissedByRepeat(text: Text, pat: Text)
    requires text == [97, 98, 97] && pat == [STAR] + text
    ensures Misses(text, pat)
  {
    assert text[0..] == text;
    NoStar(text, text);
    GlobStar(text, text, 0);
    StarLiteral(text, text);
    assert Lc(text[2]) == Lc(text[0]);
  }
}
