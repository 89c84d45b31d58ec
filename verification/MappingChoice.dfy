/** Which mapping is chosen for a path, by lengths and order alone, and what follows from it. */
module MappingChoice {
  import opened Options
  import opened Paths
  import opened StarCapture
  import opened StarCompleteness
  import opened PathMapping

  /** How much of the path one mapping matches, if it matches. */
  function MatchLength(from: string, path: string, globs: Globs): Option<nat> {
    if !IsGlob(from) then if Under(from, path) then Some(PathLen(from)) else None
    else if OneStarOnly(from) then if from[..Find(from, '*')] <= path then Some(Find(from, '*')) else None
    else if GlobCaptures(from, path).Some? || (from, path) in globs then Some(|path|)
    else None
  }

  /** A match of this length takes the place of one of that length before it: a pattern when it
      is as long, a prefix only when it is longer. */
  predicate Replaces(from: string, length: nat, before: nat) {
    length > before || (length == before && IsGlob(from))
  }

  /** Mapping i matches, beats every match before it, and is beaten by none after it. */
  predicate Wins(ms: seq<Mapping>, n: nat, i: nat, path: string, globs: Globs)
    requires n <= |ms|
  {
    && i < n && MatchLength(ms[i].from, path, globs).Some?
    && var length := MatchLength(ms[i].from, path, globs).value;
    && Replaces(ms[i].from, length, 0)
    && forall k :: 0 <= k < n && k != i && MatchLength(ms[k].from, path, globs).Some? ==>
         var other := MatchLength(ms[k].from, path, globs).value;
         if k < i then Replaces(ms[i].from, length, other) else !Replaces(ms[k].from, other, length)
  }

  lemma MatchFits(from: string, path: string, globs: Globs)
    ensures MatchLength(from, path, globs).Some? ==> MatchLength(from, path, globs).value <= |path|
  {
    hide GlobCaptures;
  }

  /** What the star of a single-star pattern that matches stands for. */
  function OneCapture(from: string, path: string): seq<Capture>
    requires OneStarOnly(from) && Find(from, '*') <= |path|
  {
    [TailCapture(from, path[Find(from, '*')..])]
  }

  /** The captures of any other pattern that matches, if there are any. */
  function OtherCaptures(from: string, path: string): seq<Capture> {
    if GlobCaptures(from, path).Some? then GlobCaptures(from, path).value else []
  }

  /** One step of the selection, by lengths alone. */
  lemma ConsiderByLength(b: Best, i: nat, from: string, path: string, globs: Globs)
    ensures var length := MatchLength(from, path, globs);
            var c := Consider(b, i, from, path, globs);
            if length.Some? && Replaces(from, length.value, LengthOf(b)) then
              && c.Best? && c.index == i && c.length == length.value
              && c.tail == (if IsGlob(from) && !OneStarOnly(from) then "" else path[c.length..])
              && c.captured == (IsGlob(from) && OneStarOnly(from))
              && c.caps == (if !IsGlob(from) then CapsOf(b)
                            else if OneStarOnly(from) then OneCapture(from, path) else OtherCaptures(from, path))
            else c == b
  {
    hide GlobCaptures;
    hide Under;
    hide PathLen;
    hide TailCapture;
  }

  lemma StarIsGlob(from: string)
    ensures OneStarOnly(from) ==> IsGlob(from)
  {
  }

  /** The best match is the one that wins, and there is none only when nothing matches more
      than the root. */
  lemma {:induction false} BestWins(ms: seq<Mapping>, n: nat, path: string, globs: Globs)
    requires n <= |ms|
    ensures var b := BestOf(ms, n, path, globs);
            && (b.Best? ==>
                  && Wins(ms, n, b.index, path, globs) && Some(b.length) == MatchLength(ms[b.index].from, path, globs)
                  && var from := ms[b.index].from;
                  && b.tail == (if IsGlob(from) && !OneStarOnly(from) then "" else path[b.length..])
                  && b.captured == (IsGlob(from) && OneStarOnly(from))
                  && (IsGlob(from) && !OneStarOnly(from) ==> b.caps == OtherCaptures(from, path))
                  && (OneStarOnly(from) && Find(from, '*') <= |path| ==> b.caps == OneCapture(from, path)))
            && (b.NoMatch? ==> forall k :: 0 <= k < n && MatchLength(ms[k].from, path, globs).Some? ==>
                                 !Replaces(ms[k].from, MatchLength(ms[k].from, path, globs).value, 0))
  {
    hide Consider;
    hide MatchLength;
    hide OneStarOnly;
    hide IsGlob;
    hide OneCapture;
    if n > 0 {
      BestWins(ms, n - 1, path, globs);
      StarIsGlob(ms[n - 1].from);
      ConsiderByLength(BestOf(ms, n - 1, path, globs), n - 1, ms[n - 1].from, path, globs);
    }
  }

  /** Only one mapping wins. */
  lemma OneWinner(ms: seq<Mapping>, i: nat, j: nat, path: string, globs: Globs)
    requires Wins(ms, |ms|, i, path, globs) && Wins(ms, |ms|, j, path, globs)
    ensures i == j
  {
    hide MatchLength;
    hide IsGlob;
  }

  /** The mapping that wins is the one chosen. */
  lemma WinnerIsBest(ms: seq<Mapping>, i: nat, path: string, globs: Globs)
    requires Wins(ms, |ms|, i, path, globs)
    ensures BestOf(ms, |ms|, path, globs).Best? && BestOf(ms, |ms|, path, globs).index == i
  {
    hide MatchLength;
    hide IsGlob;
    BestWins(ms, |ms|, path, globs);
    var b := BestOf(ms, |ms|, path, globs);
    if b.Best? {
      OneWinner(ms, i, b.index, path, globs);
    }
  }

  /** No pattern but those with a single star and nothing else matches this path. */
  predicate StarsOnly(ms: seq<Mapping>, n: nat, path: string, globs: Globs)
    requires n <= |ms|
  {
    forall k :: 0 <= k < n && IsGlob(ms[k].from) && !OneStarOnly(ms[k].from) ==>
      MatchLength(ms[k].from, path, globs).None?
  }

  /** A single-star pattern matches as much as everything that matches before it. */
  predicate StarTakes(ms: seq<Mapping>, j: nat, path: string, globs: Globs)
    requires j < |ms|
  {
    && OneStarOnly(ms[j].from) && ms[j].from[..Find(ms[j].from, '*')] <= path
    && forall k :: 0 <= k < j && MatchLength(ms[k].from, path, globs).Some? ==>
         MatchLength(ms[k].from, path, globs).value <= Find(ms[j].from, '*')
  }

  /** The last such pattern among the first n mappings. */
  function LastStar(ms: seq<Mapping>, n: nat, path: string, globs: Globs): (r: Option<nat>)
    requires n <= |ms|
    ensures r.Some? ==> r.value < n && StarTakes(ms, r.value, path, globs)
    ensures forall j :: 0 <= j < n && StarTakes(ms, j, path, globs) ==> r.Some? && j <= r.value
  {
    if n == 0 then None else if StarTakes(ms, n - 1, path, globs) then Some(n - 1) else LastStar(ms, n - 1, path, globs)
  }

  /** Nothing that matches is longer than the best. */
  lemma NoneIsLonger(ms: seq<Mapping>, n: nat, k: nat, path: string, globs: Globs)
    requires k < n <= |ms| && MatchLength(ms[k].from, path, globs).Some?
    ensures MatchLength(ms[k].from, path, globs).value <= LengthOf(BestOf(ms, n, path, globs))
  {
    hide MatchLength;
    hide IsGlob;
    hide OneStarOnly;
    BestWins(ms, n, path, globs);
  }

  /** A single-star pattern takes the best one's place exactly when it is as long as that. */
  lemma TakesWhenLongest(ms: seq<Mapping>, j: nat, path: string, globs: Globs)
    requires j < |ms| && OneStarOnly(ms[j].from)
    ensures StarTakes(ms, j, path, globs)
            <==> && MatchLength(ms[j].from, path, globs).Some?
                 && MatchLength(ms[j].from, path, globs).value >= LengthOf(BestOf(ms, j, path, globs))
  {
    hide Under;
    hide PathLen;
    hide BestOf;
    hide GlobCaptures;
    BestWins(ms, j, path, globs);
    forall k | 0 <= k < j && MatchLength(ms[k].from, path, globs).Some?
      ensures MatchLength(ms[k].from, path, globs).value <= LengthOf(BestOf(ms, j, path, globs))
    {
      NoneIsLonger(ms, j, k, path, globs);
    }
  }

  /** What is left behind for a prefix that wins later: the capture of the last such pattern. */
  lemma {:induction false} CapturesAreLeftOver(ms: seq<Mapping>, n: nat, path: string, globs: Globs)
    requires n <= |ms| && StarsOnly(ms, n, path, globs)
    ensures CapsOf(BestOf(ms, n, path, globs))
            == match LastStar(ms, n, path, globs)
               case None => []
               case Some(j) => OneCapture(ms[j].from, path)
  {
    hide Consider;
    hide MatchLength;
    hide OneCapture;
    hide OneStarOnly;
    if n > 0 {
      CapturesAreLeftOver(ms, n - 1, path, globs);
      var b, from := BestOf(ms, n - 1, path, globs), ms[n - 1].from;
      ConsiderByLength(b, n - 1, from, path, globs);
      StarIsGlob(from);
      if OneStarOnly(from) {
        TakesWhenLongest(ms, n - 1, path, globs);
      }
    }
  }

  /** What a winning prefix makes of the path. The rest keeps its place under the target exactly
      as long as no capture is left behind. One that is goes in for the target's star, and the
      rest of the path is dropped; so where the target has no star, it is all that is left, and
      the rest is kept only when there is none. */
  lemma PrefixKeepsRest(ms: seq<Mapping>, i: nat, path: string, size: nat, globs: Globs)
    requires Wins(ms, |ms|, i, path, globs) && !IsGlob(ms[i].from) && !UnderSomeTo(ms, path)
    requires |ms[i].to| + |path| + 2 < size
    ensures var to, left, out := ms[i].to, LastStar(ms, |ms|, path, globs), Forward(ms, path, size, globs);
            var kept := JoinedTo(to, path[PathLen(ms[i].from)..]);
            && (left.None? ==> out == Some(kept))
            && (left.Some? ==> out == Substituted(to, 0, "", OneCapture(ms[left.value].from, path), size))
            && ('*' !in to ==> (left.Some? ==> out == Some(to))
                               && (out == Some(kept) <==> left.None? || PathLen(ms[i].from) == |path|))
  {
    hide Under;
    hide Wins;
    hide LastStar;
    hide StarsOnly;
    hide PathLen;
    hide Substituted;
    WinnerIsBest(ms, i, path, globs);
    BestWins(ms, |ms|, path, globs);
    PrefixWinsAlone(ms, i, path, globs);
    CapturesAreLeftOver(ms, |ms|, path, globs);
    var to, b := ms[i].to, BestOf(ms, |ms|, path, globs);
    if b.caps != [] && '*' !in to {
      NoStarsToReplace(to, 0, "", b.caps, size);
      assert "" + to[0..] == to;
      assert b.tail == "" ==> JoinedTo(to, b.tail) == to;
      assert b.tail != "" ==> |JoinedTo(to, b.tail)| > |to|;
    }
  }

  /** A star pattern that wins by fnmatch alone, without captures, has nothing to put in for the
      target's stars: the path becomes the target as it stands, stars included. */
  lemma StarsStay(ms: seq<Mapping>, i: nat, path: string, size: nat, globs: Globs)
    requires Wins(ms, |ms|, i, path, globs) && HasStarsOnly(ms[i].from) && !OneStarOnly(ms[i].from)
    requires Captures(ms[i].from, path).None? && !UnderSomeTo(ms, path) && |ms[i].to| + 1 < size
    ensures Forward(ms, path, size, globs) == Some(ms[i].to)
  {
    hide Under;
    hide PathLen;
    hide Substituted;
    hide Wins;
    hide Captures;
    WinnerIsBest(ms, i, path, globs);
    BestWins(ms, |ms|, path, globs);
    assert JoinedTo(ms[i].to, "") == ms[i].to;
  }

  lemma GreedyLengths()
    ensures HasStarsOnly("/*a*ba") && !OneStarOnly("/*a*ba") && PathLen("/x/*/*") == 6
  {
    assert '*' in "/*a*ba";
    FindIs("/*a*ba", '*', 1);
    assert "/*a*ba"[2..][1] == '*';
  }

  /** For instance /aba, which the pattern `*a*ba` below the root allows. */
  lemma StarsAreCopied(size: nat, globs: Globs)
    requires size > 7 && ("/*a*ba", "/aba") in globs
    ensures Forward([Mapping("/*a*ba", "/x/*/*")], "/aba", size, globs) == Some("/x/*/*")
  {
    hide PathLen;
    hide OneStarOnly;
    hide Captures;
    hide Forward;
    var ms := [Mapping("/*a*ba", "/x/*/*")];
    GreedyLengths();
    GreedyMisses();
    assert IsGlob("/*a*ba") by { assert '*' in "/*a*ba"; }
    assert Wins(ms, 1, 0, "/aba", globs);
    assert !Under("/x/*/*", "/aba");
    StarsStay(ms, 0, "/aba", size, globs);
  }

  /** A prefix wins only where no other wildcard matches: such a match is the whole path, and
      no prefix is longer. */
  lemma PrefixWinsAlone(ms: seq<Mapping>, i: nat, path: string, globs: Globs)
    requires Wins(ms, |ms|, i, path, globs) && !IsGlob(ms[i].from)
    ensures StarsOnly(ms, |ms|, path, globs)
    ensures MatchLength(ms[i].from, path, globs) == Some(PathLen(ms[i].from)) && PathLen(ms[i].from) <= |path|
  {
    hide Under;
    hide GlobCaptures;
    hide PathLen;
    MatchFits(ms[i].from, path, globs);
  }

  lemma ExampleLengths()
    ensures !IsGlob("/a/b") && PathLen("/a/b") == 4 && PathLen("/x") == 2 && PathLen("/t") == 2
    ensures OneStarOnly("/a*") && IsGlob("/a*") && Find("/a*", '*') == 2
  {
    FindIs("/a*", '*', 2);
    assert "/a*"[3..] == "";
  }

  /** For instance `/a*:/x` before `/a/b:/t`: what is under /a/b becomes /t. */
  lemma RestIsLost(size: nat, globs: Globs)
    requires size > 16
    ensures Forward([Mapping("/a*", "/x"), Mapping("/a/b", "/t")], "/a/b/c", size, globs) == Some("/t")
  {
    hide Forward;
    hide PathLen;
    hide OneStarOnly;
    hide IsGlob;
    hide Find;
    var ms := [Mapping("/a*", "/x"), Mapping("/a/b", "/t")];
    var path := "/a/b/c";
    ExampleLengths();
    assert "/a*"[..2] == path[..2] && "/a/b"[..4] == path[..4];
    assert StarTakes(ms, 0, path, globs);
    assert Wins(ms, 2, 1, path, globs);
    assert !Under("/x", path) && !Under("/t", path) by { assert "/x"[..2][1] != path[1] && "/t"[..2][1] != path[1]; }
    PrefixKeepsRest(ms, 1, path, size, globs);
  }

  /** Each capture is a stretch of the path. */
  lemma {:induction false} CapturesFit(pattern: string, text: string)
    requires Captures(pattern, text).Some?
    ensures forall c <- Captures(pattern, text).value :: c.length <= |text|
    decreases |pattern|
  {
    hide StarLength;
    if pattern != "" && pattern[0] != STAR {
      CapturesFit(pattern[Find(pattern, STAR)..], text[Find(pattern, STAR)..]);
    } else if pattern != "" {
      CapturesFit(pattern[1..], text[StarLength(pattern[1..], text).value..]);
    }
  }

  predicate Fit(caps: seq<Capture>, path: string) { forall c <- caps :: c.length <= |path| }

  lemma GlobCapturesFit(from: string, path: string)
    ensures GlobCaptures(from, path).Some? ==> Fit(GlobCaptures(from, path).value, path)
  {
    hide Captures;
    if Captures(from, path).Some? {
      CapturesFit(from, path);
    }
  }

  lemma ConsideredFits(b: Best, i: nat, from: string, path: string, globs: Globs)
    requires Fit(CapsOf(b), path)
    ensures Fit(CapsOf(Consider(b, i, from, path, globs)), path)
  {
    hide Under;
    hide PathLen;
    hide GlobCaptures;
    GlobCapturesFit(from, path);
  }

  lemma {:induction false} BestCapturesFit(ms: seq<Mapping>, n: nat, path: string, globs: Globs)
    requires n <= |ms|
    ensures Fit(CapsOf(BestOf(ms, n, path, globs)), path)
  {
    hide Consider;
    if n > 0 {
      BestCapturesFit(ms, n - 1, path, globs);
      ConsideredFits(BestOf(ms, n - 1, path, globs), n - 1, ms[n - 1].from, path, globs);
    }
  }

  /** Room for a target in which every character becomes the path with a slash on each side. */
  predicate Ample(to: string, path: string, size: nat) {
    |to| * (|path| + 2) + |path| + 2 < size
  }

  lemma {:induction false} RoomToReplace(to: string, i: nat, out: string, caps: seq<Capture>, size: nat, width: nat)
    requires i <= |to| && (forall c <- caps :: c.length + 2 <= width) && width > 0
    requires |out| + (|to| - i) * width < size
    ensures Substituted(to, i, out, caps, size).Some?
    decreases |to| - i
  {
    if i < |to| {
      assert (|to| - i) * width == (|to| - (i + 1)) * width + width;
      if to[i] == '*' && caps != [] {
        StarHasRoom(to, i, out, caps, size, width);
      } else {
        RoomToReplace(to, i + 1, out + [to[i]], caps, size, width);
      }
    }
  }

  lemma {:induction false} StarHasRoom(to: string, i: nat, out: string, caps: seq<Capture>, size: nat, width: nat)
    requires i < |to| && to[i] == '*' && caps != [] && (forall c <- caps :: c.length + 2 <= width)
    requires |out| + width + (|to| - (i + 1)) * width < size
    ensures Substituted(to, i, out, caps, size).Some?
    decreases |to| - i, 0
  {
    var c := caps[0];
    assert c in caps && c.length + 2 <= width;
    var before := EndsOpen(out) && (c.rest == "" || c.rest[0] != '/') && i > 0 && to[i - 1] == '/';
    var out2 := out + Slash(before) + Taken(c);
    assert 0 <= (|to| - (i + 1)) * width by { ProductNotNegative(|to| - (i + 1), width); }
    if i + 1 < |to| && to[i + 1] == '/' {
      assert (|to| - (i + 1)) * width == (|to| - (i + 2)) * width + width;
      RoomToReplace(to, i + 2, out2 + Slash(EndsOpen(out2)), caps[1..], size, width);
    } else {
      RoomToReplace(to, i + 1, out2, caps[1..], size, width);
    }
  }

  lemma ProductNotNegative(a: nat, b: nat)
    ensures a * b >= 0
  {
  }

  /** With room there is a result for every match. */
  lemma MatchesAreJoined(to: string, b: Best, path: string, size: nat)
    requires b.Best? && Ample(to, path, size) && |b.tail| <= |path| && Fit(b.caps, path)
    ensures Joined(to, b, size).Some?
  {
    hide Substituted;
    assert |to| * (|path| + 2) >= |to| by { AtLeastOnce(|to|, |path| + 2); }
    if b.caps != [] {
      RoomToReplace(to, 0, "", b.caps, size, |path| + 2);
    }
  }

  lemma AtLeastOnce(a: nat, b: nat)
    requires b > 0
    ensures a * b >= a
  {
    assert a * b == a + a * (b - 1);
    ProductNotNegative(a, b - 1);
  }

  /** A pattern with other wildcards than stars passes every path, whatever it says, and as the
      whole of it. So whatever the other mappings are, no prefix wins beside it, and every path
      that is under no target is mapped: by this pattern, or by one that comes after it. Where
      that one's target has no star, the path becomes the target as it stands. */
  lemma OtherWildcardsPassAll(ms: seq<Mapping>, i: nat, path: string, size: nat, globs: Globs)
    requires i < |ms| && ('?' in ms[i].from || '[' in ms[i].from)
    requires !UnderSomeTo(ms, path) && forall m <- ms :: Ample(m.to, path, size)
    ensures var b, out := BestOf(ms, |ms|, path, globs), Forward(ms, path, size, globs);
            && b.Best? && b.index >= i && b.length == |path| && IsGlob(ms[b.index].from)
            && out.Some? && ('*' !in ms[b.index].to ==> out == Some(ms[b.index].to))
  {
    hide Under;
    hide PathLen;
    hide Substituted;
    hide Captures;
    assert MatchLength(ms[i].from, path, globs) == Some(|path|);
    BestWins(ms, |ms|, path, globs);
    BestCapturesFit(ms, |ms|, path, globs);
    var b := BestOf(ms, |ms|, path, globs);
    hide BestOf;
    MatchFits(ms[b.index].from, path, globs);
    var to := ms[b.index].to;
    assert ms[b.index] in ms;
    MatchesAreJoined(to, b, path, size);
    if '*' !in to {
      NoStarsToReplace(to, 0, "", b.caps, size);
      assert "" + to[0..] == to && JoinedTo(to, "") == to;
    }
  }
}
