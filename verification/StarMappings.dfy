/** What stars carry over: where a pattern's stars stand for parts of the path, the target has those
    parts in place of its own. */
module StarMappings {
  import opened Options
  import opened Paths
  import opened StarCapture
  import opened PathMapping
  import opened MappingChoice
  import opened ReverseMapping

  /** No wildcard. */
  predicate IsPlain(s: string) { forall c <- s :: c !in {'*', '?', '['} }

  lemma StarAt(f: string, g: string)
    requires IsPlain(f) && IsPlain(g)
    ensures var from := f + "*" + g;
            OneStarOnly(from) && HasStarsOnly(from) && IsGlob(from) && Find(from, '*') == |f| && from[..|f|] == f
  {
    var from := f + "*" + g;
    forall c | c in from ensures c == '*' || c in f || c in g {
      var k :| 0 <= k < |from| && from[k] == c;
    }
    assert from[|f|] == '*' && from[..|f|] == f && from[|f| + 1..] == g;
    assert '*' !in f by { if '*' in f { assert false; } }
    FindIs(from, '*', |f|);
  }

  /** A stretch of text that a star may stand for: all that is left when it ends its pattern, and up to
      the next slash otherwise. */
  predicate StarStandsFor(last: bool, s: string, behind: string) {
    if last then behind == "" else '/' !in s && (behind == "" || behind[0] == '/')
  }

  /** Something stands behind the last slash. */
  predicate EndsInName(s: string) { s != "" && s[|s| - 1] != '/' }

  predicate StartsInName(s: string) { s != "" && s[0] != '/' }

  /** The text behind the target's star, without a slash that is there already, or that would be the
      first character. */
  function Behind(before: string, u: string): string {
    if u != "" && u[0] == '/' && !EndsInName(before) then u[1..] else u
  }

  /** Text up to the star is copied. */
  lemma {:induction false} CopiesUpTo(t: string, u: string, i: nat, caps: seq<Capture>, size: nat)
    requires '*' !in t && i <= |t| && |t| < size
    ensures Substituted(t + "*" + u, 0, "", caps, size) == Substituted(t + "*" + u, i, t[..i], caps, size)
  {
    if i > 0 {
      CopiesUpTo(t, u, i - 1, caps, size);
      assert (t + "*" + u)[i - 1] == t[i - 1] && t[i - 1] in t;
      assert t[..i] == t[..i - 1] + [t[i - 1]];
    }
  }

  lemma OneStarFilled(t: string, u: string, c: Capture, size: nat)
    requires '*' !in t && |t| + c.length + |u| + 1 < size
    ensures Substituted(t + "*" + u, 0, "", [c], size) == Some(t + Taken(c) + Behind(t + Taken(c), u))
  {
    var to, n := t + "*" + u, |t|;
    CopiesUpTo(t, u, n, [c], size);
    assert t[..n] == t && to[n] == '*' && to[n + 1..] == u && [c][1..] == [];
    assert n > 0 ==> to[n - 1] == t[n - 1];
    var out := t + Taken(c);
    assert t + Slash(false) == t && out + Slash(false) == out;
    if u != "" {
      assert to[n + 1] == u[0];
    }
    if u != "" && u[0] == '/' {
      RestIsCopied(to, n + 2, out + Slash(EndsOpen(out)), size);
      assert to[n + 2..] == u[1..] && u == "/" + u[1..];
      assert out + "/" + u[1..] == out + u;
    } else {
      assert Substituted(to, n, t, [c], size) == Substituted(to, n + 1, out, [], size);
      RestIsCopied(to, n + 1, out, size);
    }
  }

  lemma RestIsCopied(to: string, i: nat, out: string, size: nat)
    requires i <= |to| && |out| + |to| - i < size
    ensures Substituted(to, i, out, [], size) == Some(out + to[i..])
    decreases |to| - i
  {
    if i < |to| {
      RestIsCopied(to, i + 1, out + [to[i]], size);
      assert out + [to[i]] + to[i + 1..] == out + to[i..];
    } else {
      assert out + to[i..] == out;
    }
  }

  /** Where a single-star pattern wins, what its star stands for goes in for the target's, and the rest
      of the path is dropped. */
  lemma OneStarMaps(ms: seq<Mapping>, i: nat, size: nat, globs: Globs, f: string, g: string, t: string, u: string,
                    s: string, behind: string)
    requires IsPlain(f) && IsPlain(g) && '*' !in t && StarStandsFor(g == "", s, behind)
    requires Wins(ms, |ms|, i, f + s + behind, globs) && ms[i] == Mapping(f + "*" + g, t + "*" + u)
    requires !UnderSomeTo(ms, f + s + behind) && |t| + |s| + |u| + 1 < size
    ensures Forward(ms, f + s + behind, size, globs) == Some(t + s + Behind(t + s, u))
  {
    var path, from := f + s + behind, f + "*" + g;
    var c: Capture := Stretch(s + behind, |s|);
    StarCaptured(f, g, s, behind);
    StarAt(f, g);
    OneStarFilled(t, u, c, size);
    hide Wins;
    hide Under;
    hide OneCapture;
    hide Substituted;
    hide OneStarOnly;
    hide IsGlob;
    hide MatchLength;
    WinnerIsBest(ms, i, path, globs);
    BestWins(ms, |ms|, path, globs);
  }

  /** What the star of a pattern that matches stands for. */
  lemma StarCaptured(f: string, g: string, s: string, behind: string)
    requires IsPlain(f) && IsPlain(g) && StarStandsFor(g == "", s, behind)
    ensures var from, path := f + "*" + g, f + s + behind;
            && OneStarOnly(from) && Find(from, '*') <= |path|
            && OneCapture(from, path) == [Stretch(s + behind, |s|)]
            && Taken(Stretch(s + behind, |s|)) == s
  {
    var from, path := f + "*" + g, f + s + behind;
    StarAt(f, g);
    StretchIs(g == "", s, behind);
    assert path[|f|..] == s + behind && from[|f| + 1..] == g;
  }

  lemma StretchIs(last: bool, s: string, behind: string)
    requires StarStandsFor(last, s, behind)
    ensures if last then |s + behind| == |s| else Find(s + behind, '/') == |s|
  {
    if !last {
      assert (s + behind)[..|s|] == s;
      FindIs(s + behind, '/', |s|);
    }
  }

  /** A stretch that a slash may follow as it is. */
  predicate Clean(c: Capture) { c.length > 0 && EndsInName(Taken(c)) }

  /** What goes in for so many stars: the captures, and stars when there are no more. */
  function Padded(caps: seq<Capture>, n: nat): (r: seq<Capture>)
    ensures |r| == n
  {
    if n == 0 then []
    else if caps == [] then [Stretch("*", 1)] + Padded([], n - 1)
    else [caps[0]] + Padded(caps[1..], n - 1)
  }

  /** A target with its stars filled as far as the captures go. */
  function Filled(to: string, caps: seq<Capture>): string { Fill(to, Padded(caps, Stars(to))) }

  lemma FilledAtStar(rest: string, caps: seq<Capture>)
    requires rest != "" && rest[0] == '*' && caps != []
    ensures Filled(rest, caps) == Taken(caps[0]) + Filled(rest[1..], caps[1..])
  {
    assert Padded(caps, Stars(rest))[1..] == Padded(caps[1..], Stars(rest[1..]));
  }

  /** With no captures left, what is left of the target stays. */
  lemma {:induction false} NothingToFill(rest: string)
    ensures Filled(rest, []) == rest
  {
    if rest != "" {
      NothingToFill(rest[1..]);
      if rest[0] == '*' {
        assert Padded([], Stars(rest))[1..] == Padded([], Stars(rest[1..]));
        assert rest[..1] == "*";
      }
      assert rest == [rest[0]] + rest[1..];
    }
  }

  /** What a clean stretch does for the star it goes in for: a slash behind that star is put in with it. */
  lemma CleanStretch(to: string, i: nat, out: string, caps: seq<Capture>, size: nat)
    requires i < |to| && to[i] == '*' && caps != [] && Clean(caps[0])
    requires to[i..][1..] == to[i + 1..] && (i > 0 && to[i - 1] == '/' ==> !EndsOpen(out))
    requires |out + Taken(caps[0])| + |Filled(to[i + 1..], caps[1..])| + 1 < size
    ensures var out2 := out + Taken(caps[0]);
            && EndsOpen(out2)
            && Substituted(to, i, out, caps, size)
               == (if i + 1 < |to| && to[i + 1] == '/' then Substituted(to, i + 2, out2 + "/", caps[1..], size)
                   else Substituted(to, i + 1, out2, caps[1..], size))
            && (i + 1 < |to| && to[i + 1] == '/' ==>
                  Filled(to[i + 1..], caps[1..]) == "/" + Filled(to[i + 2..], caps[1..]))
  {
    var c := caps[0];
    assert out + Slash(false) == out;
    var out2 := out + Taken(c);
    assert EndsOpen(out2);
    if i + 1 < |to| && to[i + 1] == '/' {
      assert to[i + 1..][1..] == to[i + 2..] && to[i + 1..][0] == '/';
    }
  }

  /** Stars filled in order, with captures that are neither empty nor end in a slash. */
  lemma {:induction false} SubstitutedIsFilled(to: string, i: nat, out: string, caps: seq<Capture>, size: nat)
    requires i <= |to| && forall c <- caps :: Clean(c)
    requires i > 0 && to[i - 1] == '/' ==> !EndsOpen(out)
    requires |out| + |Filled(to[i..], caps)| + 1 < size
    ensures Substituted(to, i, out, caps, size) == Some(out + Filled(to[i..], caps))
    decreases |to| - i
  {
    var rest := to[i..];
    if caps == [] {
      NothingToFill(rest);
      RestIsCopied(to, i, out, size);
    } else if i == |to| {
      assert rest == "" && out + "" == out;
    } else if to[i] == '*' {
      StarIsFilled(to, i, out, caps, size);
    } else {
      assert rest[1..] == to[i + 1..] && rest[0] == to[i];
      assert Filled(rest, caps) == [to[i]] + Filled(to[i + 1..], caps);
      SubstitutedIsFilled(to, i + 1, out + [to[i]], caps, size);
      assert out + [to[i]] + Filled(to[i + 1..], caps) == out + Filled(rest, caps);
    }
  }

  lemma {:induction false} StarIsFilled(to: string, i: nat, out: string, caps: seq<Capture>, size: nat)
    requires i < |to| && to[i] == '*' && caps != [] && forall c <- caps :: Clean(c)
    requires i > 0 && to[i - 1] == '/' ==> !EndsOpen(out)
    requires |out| + |Filled(to[i..], caps)| + 1 < size
    ensures Substituted(to, i, out, caps, size) == Some(out + Filled(to[i..], caps))
    decreases |to| - i, 0
  {
    var c, rest := caps[0], to[i..];
    assert c in caps && rest[1..] == to[i + 1..];
    FilledAtStar(rest, caps);
    hide Filled;
    var out2, more := out + Taken(c), Filled(to[i + 1..], caps[1..]);
    assert out + Filled(rest, caps) == out2 + more;
    CleanStretch(to, i, out, caps, size);
    hide Substituted;
    if i + 1 < |to| && to[i + 1] == '/' {
      assert to[i + 1..][1..] == to[i + 2..];
      var last := Filled(to[i + 2..], caps[1..]);
      SubstitutedIsFilled(to, i + 2, out2 + "/", caps[1..], size);
      assert out2 + "/" + last == out2 + ("/" + last);
    } else {
      SubstitutedIsFilled(to, i + 1, out2, caps[1..], size);
    }
  }

  /** As many captures as stars: all of them go in, and nothing else. */
  lemma {:induction false} AllAreFilled(caps: seq<Capture>, n: nat)
    requires n == |caps|
    ensures Padded(caps, n) == caps
  {
    if n > 0 {
      AllAreFilled(caps[1..], n - 1);
    }
  }

  /** A pattern with several stars that wins goes by its own captures. */
  lemma StarsChosen(ms: seq<Mapping>, i: nat, path: string, globs: Globs)
    requires Wins(ms, |ms|, i, path, globs)
    requires HasStarsOnly(ms[i].from) && !OneStarOnly(ms[i].from) && Captures(ms[i].from, path).Some?
    ensures var b, caps := BestOf(ms, |ms|, path, globs), Captures(ms[i].from, path).value;
            b.Best? && b.index == i && b.caps == caps[..Min(|caps|, MAX_CAPTURES)]
  {
    WinnerIsBest(ms, i, path, globs);
    BestWins(ms, |ms|, path, globs);
    hide Wins;
    hide Captures;
    hide OneStarOnly;
    hide MatchLength;
    hide BestOf;
  }

  lemma ForwardSubstitutes(ms: seq<Mapping>, path: string, size: nat, globs: Globs)
    requires !UnderSomeTo(ms, path)
    requires BestOf(ms, |ms|, path, globs).Best? && BestOf(ms, |ms|, path, globs).caps != []
    ensures var b := BestOf(ms, |ms|, path, globs);
            b.index < |ms| && Forward(ms, path, size, globs) == Substituted(ms[b.index].to, 0, "", b.caps, size)
  {
    hide Substituted;
    hide UnderSomeTo;
  }

  /** The captures that are kept. */
  function FirstEight(caps: seq<Capture>): seq<Capture> { if |caps| > 8 then caps[..8] else caps }

  /** Where a pattern with several stars wins, and its stars stand for clean stretches: in place of the
      pattern's stars these give the path; in place of the target's the first eight of them the
      answer, which keeps any star for which there is none. */
  lemma StarsMap(ms: seq<Mapping>, i: nat, path: string, size: nat, globs: Globs)
    requires Wins(ms, |ms|, i, path, globs) && !UnderSomeTo(ms, path)
    requires HasStarsOnly(ms[i].from) && !OneStarOnly(ms[i].from) && Captures(ms[i].from, path).Some?
    requires forall c <- FirstEight(Captures(ms[i].from, path).value) :: Clean(c)
    requires |Filled(ms[i].to, FirstEight(Captures(ms[i].from, path).value))| + 1 < size
    ensures var from, to, caps := ms[i].from, ms[i].to, Captures(ms[i].from, path).value;
            && |caps| == Stars(from) && Fill(from, caps) == path
            && Forward(ms, path, size, globs) == Some(Filled(to, FirstEight(caps)))
            && (Stars(to) == |caps| <= 8 ==> Forward(ms, path, size, globs) == Some(Fill(to, caps)))
  {
    var from, to, caps := ms[i].from, ms[i].to, Captures(ms[i].from, path).value;
    hide Wins;
    hide Fill;
    hide Captures;
    hide Substituted;
    hide UnderSomeTo;
    hide BestOf;
    hide Forward;
    CapturesAreSound(from, path);
    StarsChosen(ms, i, path, globs);
    var kept := FirstEight(caps);
    assert caps[..|caps|] == caps && to[0..] == to && "" + Filled(to, kept) == Filled(to, kept);
    SubstitutedIsFilled(to, 0, "", kept, size);
    assert caps != [] by { StarIsCounted(from); }
    ForwardSubstitutes(ms, path, size, globs);
    if Stars(to) == |caps| {
      AllAreFilled(caps, |caps|);
    }
  }

  /** The capture of a single star is what a path is joined by; the join for a rest that a star stands
      for but that was not captured is never come to. */
  lemma {:induction false} CapturedHasCaptures(ms: seq<Mapping>, n: nat, path: string, globs: Globs)
    requires n <= |ms|
    ensures var b := BestOf(ms, n, path, globs); b.Best? && b.captured ==> b.caps != []
  {
    hide GlobCaptures;
    hide Under;
    if n > 0 {
      CapturedHasCaptures(ms, n - 1, path, globs);
    }
  }

  lemma LastStarCaptured(t: string, s: string)
    requires IsPlain(t)
    ensures StarCaptures(t + "*", t + s) == Some([Stretch(s, |s|)])
  {
    var to, path := t + "*", t + s;
    StarAt(t, "");
    assert t + "*" + "" == to && to[|t|..] == "*" && path[|t|..] == s && to[..|t|] == t <= path;
    assert "*"[1..] == "" && s[|s|..] == "" && [Stretch(s, |s|)] + [] == [Stretch(s, |s|)];
    assert Captures("*", s) == Some([Stretch(s, |s|)]);
    if t != "" {
      assert to[0] == t[0] && t[0] in t;
    } else {
      assert to == "*" && path == s;
    }
    assert [Stretch(s, |s|)][..1] == [Stretch(s, |s|)];
  }

  lemma {:induction false} CopiesBackUpTo(f: string, u: string, i: nat, caps: seq<Capture>, size: nat)
    requires '*' !in f && i <= |f| && |f| < size
    ensures SubstitutedBack(f + "*" + u, 0, "", caps, size) == SubstitutedBack(f + "*" + u, i, f[..i], caps, size)
  {
    if i > 0 {
      CopiesBackUpTo(f, u, i - 1, caps, size);
      assert (f + "*" + u)[i - 1] == f[i - 1] && f[i - 1] in f;
      assert f[..i] == f[..i - 1] + [f[i - 1]];
    }
  }

  lemma RestIsCopiedBack(from: string, i: nat, out: string, size: nat)
    requires i <= |from| && |out| + |from| - i < size
    ensures SubstitutedBack(from, i, out, [], size) == Some(out + from[i..])
    decreases |from| - i
  {
    if i < |from| {
      RestIsCopiedBack(from, i + 1, out + [from[i]], size);
      assert out + [from[i]] + from[i + 1..] == out + from[i..];
    } else {
      assert out + from[i..] == out;
    }
  }

  /** What goes in for the source's star, behind the text before it, with a slash between them when
      neither has one. */
  function PutBack(f: string, s: string): string {
    if EndsInName(f) && (s == "" || StartsInName(s)) then f + "/" + s else f + s
  }

  /** And what follows the star, with a slash before it on the same terms. */
  function PutBefore(before: string, u: string): string {
    if EndsInName(before) && StartsInName(u) then before + "/" + u else before + u
  }

  lemma OneStarFilledBack(f: string, u: string, s: string, size: nat)
    requires '*' !in f && |f| + |s| + |u| + 3 < size
    ensures SubstitutedBack(f + "*" + u, 0, "", [Stretch(s, |s|)], size) == Some(PutBefore(PutBack(f, s), u))
  {
    var from, c, n := f + "*" + u, Stretch(s, |s|), |f|;
    CopiesBackUpTo(f, u, n, [c], size);
    assert f[..n] == f && from[n] == '*' && from[n + 1..] == u && [c][1..] == [] && c.rest[..c.length] == s;
    var out := PutBack(f, s);
    var after := EndsOpen(out) && StartsOpen(u);
    if u != "" {
      assert from[n + 1] == u[0];
    }
    assert out + Slash(false) == out && f + Slash(false) == f && Taken(c) == s;
    assert SubstitutedBack(from, n, f, [c], size) == SubstitutedBack(from, n + 1, out + Slash(after), [], size);
    RestIsCopiedBack(from, n + 1, out + Slash(after), size);
  }

  /** A path that a target with its one star at the end wins for comes back with what the star stands
      for in place of the source's. */
  lemma StarComesBack(ms: seq<Mapping>, i: nat, size: nat, globs: Globs, f: string, u: string, t: string, s: string)
    requires IsPlain(f) && IsPlain(t) && t + s != "" && |f| + |s| + |u| + 3 < size
    requires WinsBack(ms, |ms|, i, t + s, globs) && ms[i] == Mapping(f + "*" + u, t + "*")
    ensures Reverse(ms, t + s, size, globs) == MappedTo(PutBefore(PutBack(f, s), u))
  {
    LastStarCaptured(t, s);
    assert '*' !in f;
    OneStarFilledBack(f, u, s, size);
    assert (f + "*" + u)[|f|] == '*';
    hide WinsBack;
    hide StarCaptures;
    hide SubstitutedBack;
    hide PutBack;
    hide PutBefore;
    hide IsPlain;
    hide LengthBack;
    WinnerIsBestTo(ms, i, t + s, globs);
    BestToWins(ms, |ms|, t + s, globs);
    hide BestTo;
  }

  lemma PutBackIs(f: string, s: string)
    ensures PutBefore(PutBack(f, s), "") == f + s <==> !EndsInName(f) || (s != "" && s[0] == '/')
  {
    assert f + "" == f && PutBack(f, s) + "" + "" == PutBack(f, s);
    assert |f + "/" + s| == |f + s| + 1;
  }

  /** There and back through a star: what it stood for is put behind the source's text again, and the
      path is the one it was exactly when that text ends in a slash, or what follows starts with
      one. */
  lemma StarRoundTrip(ms: seq<Mapping>, i: nat, size: nat, globs: Globs, f: string, t: string, s: string)
    requires IsPlain(f) && IsPlain(t) && t + s != "" && |f| + |t| + |s| + 3 < size
    requires Wins(ms, |ms|, i, f + s, globs) && WinsBack(ms, |ms|, i, t + s, globs)
    requires ms[i] == Mapping(f + "*", t + "*") && !UnderSomeTo(ms, f + s)
    ensures Forward(ms, f + s, size, globs) == Some(t + s)
    ensures Reverse(ms, t + s, size, globs) == MappedTo(f + s) <==> !EndsInName(f) || (s != "" && s[0] == '/')
  {
    hide WinsBack;
    hide Reverse;
    assert f + "*" + "" == f + "*" && t + "*" + "" == t + "*" && f + s + "" == f + s && t + s + "" == t + s;
    assert '*' !in t;
    StarComesBack(ms, i, size, globs, f, "", t, s);
    PutBackIs(f, s);
    hide PutBack;
    hide PutBefore;
    hide Wins;
    hide Forward;
    hide UnderSomeTo;
    OneStarMaps(ms, i, size, globs, f, "", t, "", s, "");
  }
}
