/** When the star matcher finds captures whenever there are some. It takes the last place for each
    literal and never goes back, so on some patterns it fails where an earlier place would do. */
module StarCompleteness {
  import opened Options
  import opened Paths
  import opened StarCapture

  /** What a pattern says: each star stands for any stretch without a slash, and one that ends the
      pattern for anything. */
  ghost predicate Says(pattern: string, text: string) {
    if pattern == "" then text == ""
    else if pattern[0] != STAR then text != "" && text[0] == pattern[0] && Says(pattern[1..], text[1..])
    else exists n: nat :: StandsFor(pattern[1..], text, n) && Says(pattern[1..], text[n..])
  }

  /** A star before `rest` may stand for the first n characters of the text. */
  predicate StandsFor(rest: string, text: string, n: nat) {
    n <= |text| && (rest != "" ==> '/' !in text[..n])
  }

  /** The literal after a star, and what comes after that: nothing, a slash or the next star. */
  function Literal(rest: string): string { rest[..Min(Find(rest, STAR), Find(rest, '/'))] }

  function After(rest: string): (r: string)
    ensures Literal(rest) + r == rest
    ensures STAR !in Literal(rest) && '/' !in Literal(rest)
    ensures r == "" || r[0] == STAR || r[0] == '/'
  {
    var n := Min(Find(rest, STAR), Find(rest, '/'));
    assert rest[..n] == rest[..Find(rest, STAR)][..n] && rest[..n] == rest[..Find(rest, '/')][..n];
    rest[n..]
  }

  /** Stars only, up to the next slash or the end. */
  predicate Open(s: string) { s == "" || s[0] == '/' || (s[0] == STAR && Open(s[1..])) }

  /** A literal, and then a slash or the end. */
  predicate Closed(rest: string) { Literal(rest) != "" && (After(rest) == "" || After(rest)[0] == '/') }

  /** `a` can end e characters into `b`, having started before it or in it. */
  predicate EndsInside(a: string, b: string, e: nat) {
    0 < e <= |b| && var m := Min(e, |a|); a[|a| - m..] == b[e - m..e]
  }

  predicate Overlap(a: string, b: string) { exists e: nat | e <= |b| :: EndsInside(a, b, e) }

  /** A star whose literal may be taken at its last place: after it come a slash, the end, or
      stars alone; or one more star and one more literal, into which this one does not reach. */
  predicate StarIsSafe(rest: string) {
    var literal, after := Literal(rest), After(rest);
    || Open(after)
    || (literal != "" && after[0] == STAR && Closed(after[1..]) && !Overlap(literal, Literal(after[1..])))
  }

  predicate Safe(pattern: string) {
    pattern == "" || ((pattern[0] == STAR ==> StarIsSafe(pattern[1..])) && Safe(pattern[1..]))
  }

  lemma {:induction false} LiteralSays(literal: string, rest: string, text: string)
    requires STAR !in literal
    ensures Says(literal + rest, text) <==> literal <= text && Says(rest, text[|literal|..])
  {
    if literal == "" {
      assert literal + rest == rest && text[0..] == text;
    } else {
      assert (literal + rest)[1..] == literal[1..] + rest;
      assert literal == [literal[0]] + literal[1..];
      if text != "" && text[0] == literal[0] {
        LiteralSays(literal[1..], rest, text[1..]);
        assert text == [text[0]] + text[1..];
        if literal[1..] <= text[1..] {
          assert text[|literal|..] == text[1..][|literal| - 1..];
        }
      }
    }
  }

  lemma RestSays(rest: string, text: string)
    ensures Says(rest, text) <==> Literal(rest) <= text && Says(After(rest), text[|Literal(rest)|..])
  {
    LiteralSays(Literal(rest), After(rest), text);
  }

  /** The matcher's answer is one the pattern allows. */
  lemma {:induction false} CapturedIsSaid(pattern: string, text: string)
    requires Captures(pattern, text).Some?
    ensures Says(pattern, text)
    decreases |pattern|
  {
    hide StarLength;
    if pattern != "" && pattern[0] != STAR {
      var k := Find(pattern, STAR);
      CapturedIsSaid(pattern[k..], text[k..]);
      assert pattern[..k] + pattern[k..] == pattern;
      LiteralSays(pattern[..k], pattern[k..], text);
    } else if pattern != "" {
      var n := StarLength(pattern[1..], text).value;
      CapturedIsSaid(pattern[1..], text[n..]);
      assert StandsFor(pattern[1..], text, n);
    }
  }

  lemma InNeither(a: string, b: string, c: char)
    requires c !in a && c !in b
    ensures c !in a + b
  {
  }

  lemma PartHasNone(s: string, a: nat, b: nat, c: char)
    requires a <= b <= |s| && c !in s
    ensures c !in s[a..b]
  {
  }

  lemma Regroup(a: string, b: string, c: string, d: string)
    ensures a + (b + (c + d)) == a + b + c + d
  {
  }

  lemma FrontOf(text: string, n: nat, k: nat)
    requires n + k <= |text|
    ensures text[..n + k] == text[..n] + text[n..][..k]
  {
  }

  lemma FindAfter(text: string, n: nat)
    requires n <= |text| && '/' !in text[..n]
    ensures Find(text, '/') == n + Find(text[n..], '/')
  {
    var k := Find(text[n..], '/');
    FrontOf(text, n, k);
    InNeither(text[..n], text[n..][..k], '/');
    assert n + k < |text| ==> text[n + k] == text[n..][k];
    FindIs(text, '/', n + k);
  }

  /** A star that stands for less, of a text that starts later. */
  lemma StandsForLess(rest: string, text: string, n: nat, d: nat)
    requires d <= n && StandsFor(rest, text, n)
    ensures StandsFor(rest, text[d..], n - d) && text[d..][n - d..] == text[n..]
  {
    if rest != "" {
      PartHasNone(text[..n], d, n, '/');
      assert text[..n][d..n] == text[d..][..n - d];
    }
  }

  /** From stars alone a stretch without a slash can be taken away. */
  lemma {:induction false} OpenShrinks(s: string, text: string, d: nat)
    requires Open(s) && Says(s, text) && d <= Find(text, '/')
    ensures Says(s, text[d..])
    decreases |s|
  {
    assert text[0..] == text;
    if s != "" && s[0] == STAR {
      var n: nat :| StandsFor(s[1..], text, n) && Says(s[1..], text[n..]);
      if d <= n {
        StandsForLess(s[1..], text, n, d);
      } else {
        FrontHasNoSlash(text, n);
        hide Find;
        FindAfter(text, n);
        OpenShrinks(s[1..], text[n..], d - n);
        assert text[n..][d - n..] == text[d..] && text[d..][0..] == text[d..];
        assert StandsFor(s[1..], text[d..], 0);
      }
    }
  }

  lemma FrontHasNoSlash(text: string, n: nat)
    requires n <= Find(text, '/')
    ensures '/' !in text[..n]
  {
    var front := text[..Find(text, '/')];
    PartHasNone(front, 0, n, '/');
    assert front[0..n] == text[..n];
  }

  lemma LiteralHasNoSlash(rest: string)
    ensures '/' !in Literal(rest) && STAR !in Literal(rest)
  {
    assert After(rest) == After(rest);
  }

  lemma SliceOfFront(text: string, a: nat, b: nat, n: nat)
    requires a <= b <= n <= |text|
    ensures text[..n][a..b] == text[a..b]
  {
  }

  lemma PlaceInSegment(text: string, literal: string, n: nat)
    requires n + |literal| <= |text| && text[n..n + |literal|] == literal && '/' !in text[..n] && '/' !in literal
    ensures Find(text, '/') == n + |literal| + Find(text[n + |literal|..], '/')
    ensures OccursAt(text[..Find(text, '/')], literal, n)
  {
    hide Find;
    assert text[..n + |literal|] == text[..n] + literal;
    InNeither(text[..n], literal, '/');
    FindAfter(text, n + |literal|);
    SliceOfFront(text, n, n + |literal|, Find(text, '/'));
  }

  /** A literal at a star's chosen length is followed in the text by what the pattern goes on
      with. */
  lemma SegmentLiteral(rest: string, text: string, n: nat)
    requires rest != "" && rest[0] != '/' && StandsFor(rest, text, n) && Says(rest, text[n..])
    ensures var literal := Literal(rest);
            && n + |literal| <= |text| && text[n..n + |literal|] == literal
            && Says(After(rest), text[n + |literal|..])
            && OccursAt(text[..Find(text, '/')], literal, n)
            && Find(text, '/') == n + |literal| + Find(text[n + |literal|..], '/')
  {
    var literal := Literal(rest);
    RestSays(rest, text[n..]);
    LiteralHasNoSlash(rest);
    hide Says;
    hide Literal;
    hide After;
    hide Find;
    assert text[n..][..|literal|] == text[n..n + |literal|];
    assert text[n..][|literal|..] == text[n + |literal|..];
    PlaceInSegment(text, literal, n);
  }

  /** Of a safe star the last place will do when the pattern can go on from any. */
  lemma LastPlaceWillDo(rest: string, text: string, n: nat)
    requires StarIsSafe(rest) && StandsFor(rest, text, n) && Says(rest, text[n..])
    ensures StarLength(rest, text).Some? && Says(rest, text[StarLength(rest, text).value..])
  {
    hide StarIsSafe;
    hide LastIn;
    if rest == "" {
      assert text[|text|..] == "";
    } else if rest[0] == '/' {
      assert text[n..] != "" && text[n] == '/';
      FindIs(text, '/', n);
    } else {
      LastLiteral(rest, text, n);
    }
  }

  lemma LastLiteral(rest: string, text: string, n: nat)
    requires rest != "" && rest[0] != '/' && StarIsSafe(rest) && StandsFor(rest, text, n) && Says(rest, text[n..])
    ensures StarLength(rest, text).Some? && Says(rest, text[StarLength(rest, text).value..])
  {
    hide StarIsSafe;
    hide Says;
    hide Find;
    hide LastIn;
    hide After;
    SegmentLiteral(rest, text, n);
    var literal, seg := Literal(rest), text[..Find(text, '/')];
    var k := LastIn(seg, literal).value;
    assert StarLength(rest, text) == Some(k);
    hide Literal;
    hide StarLength;
    assert seg[k..k + |literal|] == text[k..k + |literal|];
    AfterLastPlace(rest, text, n, k);
    assert text[k..][..|literal|] == literal && text[k..][|literal|..] == text[k + |literal|..];
    RestSays(rest, text[k..]);
  }

  lemma AfterLastPlace(rest: string, text: string, n: nat, k: nat)
    requires rest != "" && rest[0] != '/' && StarIsSafe(rest) && n <= k
    requires OccursAt(text[..Find(text, '/')], Literal(rest), n) && OccursAt(text[..Find(text, '/')], Literal(rest), k)
    requires Says(After(rest), text[n + |Literal(rest)|..])
    requires Find(text, '/') == n + |Literal(rest)| + Find(text[n + |Literal(rest)|..], '/')
    ensures Says(After(rest), text[k + |Literal(rest)|..])
  {
    hide Find;
    hide Says;
    hide Literal;
    hide Overlap;
    hide Closed;
    hide Open;
    var m := |Literal(rest)|;
    assert text[n + m..][k - n..] == text[k + m..];
    OpenAfter(rest);
    if Open(After(rest)) {
      OpenShrinks(After(rest), text[n + m..], k - n);
    } else {
      ClosedShrinks(Literal(rest), After(rest)[1..], text, n + m, k);
    }
  }

  lemma OpenAfter(rest: string)
    ensures !Open(After(rest)) ==> After(rest) == [STAR] + After(rest)[1..]
  {
  }

  /** Where two literals close a segment, and the first does not reach into the second, the star
      between them can take less. */
  lemma ClosedShrinks(literal: string, rest: string, text: string, from: nat, k: nat)
    requires Closed(rest) && !Overlap(literal, Literal(rest)) && literal != ""
    requires from <= |text| && Find(text, '/') == from + Find(text[from..], '/')
    requires OccursAt(text[..Find(text, '/')], literal, k) && from <= k + |literal|
    requires Says([STAR] + rest, text[from..])
    ensures Says([STAR] + rest, text[k + |literal|..])
  {
    hide Find;
    hide Overlap;
    hide Literal;
    hide Closed;
    hide OccursAt;
    var n := StarSaid(rest, text[from..]);
    hide Says;
    SegmentEnds(rest, text[from..], n);
    LessIsLeft(rest, text, from, n, Literal(rest), literal, k);
    StarSays(rest, text[k + |literal|..], from + n - (k + |literal|));
  }

  lemma StarSaid(rest: string, text: string) returns (n: nat)
    requires Says([STAR] + rest, text)
    ensures StandsFor(rest, text, n) && Says(rest, text[n..])
  {
    assert ([STAR] + rest)[1..] == rest;
    n :| StandsFor(rest, text, n) && Says(rest, text[n..]);
  }

  lemma LessIsLeft(rest: string, text: string, from: nat, n: nat, last: string, literal: string, k: nat)
    requires from + n + |last| <= |text| && text[from..][n..n + |last|] == last
    requires OccursAt(text[..from + n + |last|], literal, k) && from <= k + |literal|
    requires literal != "" && !Overlap(literal, last) && StandsFor(rest, text[from..], n)
    ensures var end := k + |literal|;
            && end <= from + n
            && StandsFor(rest, text[end..], from + n - end) && text[end..][from + n - end..] == text[from..][n..]
  {
    hide Overlap;
    var end := k + |literal|;
    assert text[..from + n + |last|][from + n..] == text[from..][n..n + |last|];
    NotInside(text[..from + n + |last|], literal, k, last);
    hide OccursAt;
    StandsForLess(rest, text[from..], n, end - from);
    assert text[from..][end - from..] == text[end..];
  }

  lemma StarSays(rest: string, text: string, n: int)
    ensures n >= 0 && StandsFor(rest, text, n) && Says(rest, text[n..]) ==> Says([STAR] + rest, text)
  {
    assert ([STAR] + rest)[1..] == rest;
  }

  lemma SegmentEnds(rest: string, u: string, n: nat)
    requires Closed(rest) && StandsFor(rest, u, n) && Says(rest, u[n..])
    ensures Find(u, '/') == n + |Literal(rest)| <= |u| && u[n..n + |Literal(rest)|] == Literal(rest)
  {
    SegmentLiteral(rest, u, n);
    var end := n + |Literal(rest)|;
    RestSays(rest, u[n..]);
    assert u[n..][..|Literal(rest)|] == u[n..end];
    if After(rest) == "" {
      assert u[end..] == "";
    } else {
      assert u[end..] != "" && u[end..][0] == '/';
    }
  }

  lemma SliceOfSlice(s: string, a: nat, b: nat, i: nat, j: nat)
    requires a <= b <= |s| && i <= j <= b - a
    ensures s[a..b][i..j] == s[a + i..a + j]
  {
    forall k | 0 <= k < j - i ensures s[a..b][i..j][k] == s[a + i..a + j][k] {
      assert s[a..b][i..j][k] == s[a..b][i + k] == s[a + i + k];
    }
  }

  /** An occurrence that ends in the literal at the end reaches into it. */
  lemma ReachesInto(seg: string, literal: string, k: nat, last: string)
    requires OccursAt(seg, literal, k) && |last| <= |seg| && seg[|seg| - |last|..] == last && literal != ""
    requires k + |literal| > |seg| - |last|
    ensures Overlap(literal, last)
  {
    var e := k + |literal| - (|seg| - |last|);
    var m := Min(e, |literal|);
    SliceOfSlice(seg, k, k + |literal|, |literal| - m, |literal|);
    SliceOfSlice(seg, |seg| - |last|, |seg|, e - m, e);
    assert EndsInside(literal, last, e);
  }

  lemma NotInside(seg: string, literal: string, k: nat, last: string)
    requires OccursAt(seg, literal, k) && |last| <= |seg| && seg[|seg| - |last|..] == last
    requires literal != "" && !Overlap(literal, last)
    ensures k + |literal| <= |seg| - |last|
  {
    hide Overlap;
    if k + |literal| > |seg| - |last| {
      ReachesInto(seg, literal, k, last);
    }
  }

  /** On a safe pattern the matcher finds captures for every text that the pattern allows. */
  lemma {:induction false} SafeIsComplete(pattern: string, text: string)
    requires Safe(pattern) && Says(pattern, text)
    ensures Captures(pattern, text).Some?
    decreases |pattern|
  {
    hide StarIsSafe;
    hide StarLength;
    if pattern != "" && pattern[0] != STAR {
      LiteralStep(pattern, text);
      SafeIsComplete(pattern[1..], text[1..]);
    } else if pattern != "" {
      var n: nat :| StandsFor(pattern[1..], text, n) && Says(pattern[1..], text[n..]);
      LastPlaceWillDo(pattern[1..], text, n);
      SafeIsComplete(pattern[1..], text[StarLength(pattern[1..], text).value..]);
    }
  }

  /** A character of the pattern is matched on its own. */
  lemma LiteralStep(pattern: string, text: string)
    requires pattern != "" && pattern[0] != STAR
    ensures text == "" || text[0] != pattern[0] ==> Captures(pattern, text).None?
    ensures text != "" && text[0] == pattern[0] ==> Captures(pattern, text) == Captures(pattern[1..], text[1..])
  {
    hide StarLength;
    var k := Find(pattern, STAR);
    assert k > 0 && pattern[..k] == [pattern[0]] + pattern[1..][..k - 1];
    if text != "" && text[0] == pattern[0] {
      assert text == [text[0]] + text[1..];
      assert pattern[..k] <= text <==> pattern[1..][..k - 1] <= text[1..] by {
        if pattern[1..][..k - 1] <= text[1..] {
          assert text[..k] == [text[0]] + text[1..][..k - 1];
        }
        if pattern[..k] <= text {
          assert text[1..][..k - 1] == text[..k][1..];
        }
      }
      FindStep(pattern);
      assert pattern[1..][k - 1..] == pattern[k..];
      if pattern[..k] <= text {
        assert text[1..][k - 1..] == text[k..];
      }
      assert pattern[1..][0..] == pattern[1..] && text[1..][0..] == text[1..];
    }
  }

  lemma FindStep(pattern: string)
    requires pattern != "" && pattern[0] != STAR
    ensures Find(pattern, STAR) == 1 + Find(pattern[1..], STAR)
  {
  }

  /** A star without a literal, with another star after it and then a literal in the same
      segment. It takes the whole segment, so that the literal finds none. */
  predicate IsDead(rest: string) { rest != "" && rest[0] == STAR && !Open(rest) }

  predicate HasDeadStar(pattern: string) {
    pattern != "" && ((pattern[0] == STAR && IsDead(pattern[1..])) || HasDeadStar(pattern[1..]))
  }

  /** How many characters the pattern asks for before the first slash. */
  function Need(pattern: string): nat {
    if pattern == "" || pattern[0] == '/' then 0 else (if pattern[0] == STAR then 0 else 1) + Need(pattern[1..])
  }

  lemma {:induction false} OpenNeedsNothing(pattern: string)
    ensures Open(pattern) <==> Need(pattern) == 0
  {
    if pattern != "" && pattern[0] == STAR {
      OpenNeedsNothing(pattern[1..]);
    }
  }

  lemma {:induction false} NeedIsThere(pattern: string, text: string)
    requires Says(pattern, text)
    ensures Find(text, '/') >= Need(pattern)
    decreases |pattern|
  {
    if pattern != "" && pattern[0] == STAR && pattern[1..] != "" {
      var n: nat :| StandsFor(pattern[1..], text, n) && Says(pattern[1..], text[n..]);
      NeedIsThere(pattern[1..], text[n..]);
      FindAfter(text, n);
    } else if pattern != "" && pattern[0] != '/' && pattern[0] != STAR {
      NeedIsThere(pattern[1..], text[1..]);
    }
  }

  /** A pattern with a dead star has no captures for any text. */
  lemma {:induction false} DeadIsNeverCaptured(pattern: string, text: string)
    requires HasDeadStar(pattern)
    ensures Captures(pattern, text).None?
    decreases |pattern|
  {
    hide StarLength;
    if pattern[0] != STAR {
      LiteralStep(pattern, text);
      if text != "" {
        DeadIsNeverCaptured(pattern[1..], text[1..]);
      }
    } else {
      var rest := pattern[1..];
      StarFirst(pattern, text);
      if Captures(pattern, text).Some? {
        var n := StarLength(rest, text).value;
        if IsDead(rest) {
          DeadStarTakesAll(rest, text);
          CapturedIsSaid(rest, text[n..]);
          NeedIsThere(rest, text[n..]);
          OpenNeedsNothing(rest);
          assert false;
        } else {
          DeadIsNeverCaptured(rest, text[n..]);
        }
      }
    }
  }

  lemma DeadStarTakesAll(rest: string, text: string)
    requires IsDead(rest)
    ensures StarLength(rest, text) == Some(Find(text, '/')) && Find(text[Find(text, '/')..], '/') == 0
  {
    var seg := text[..Find(text, '/')];
    assert Literal(rest) == "";
    assert OccursAt(seg, "", |seg|);
    FindAfter(text, Find(text, '/'));
  }

  /** The pattern without its stars, each of which may stand for nothing. */
  function Erased(pattern: string): string {
    if pattern == "" then "" else (if pattern[0] == STAR then "" else [pattern[0]]) + Erased(pattern[1..])
  }

  lemma {:induction false} ErasedIsSaid(pattern: string)
    ensures Says(pattern, Erased(pattern)) && Find(Erased(pattern), '/') == Need(pattern)
  {
    if pattern != "" {
      ErasedIsSaid(pattern[1..]);
      assert Erased(pattern)[0..] == Erased(pattern);
      if pattern[0] == STAR {
        assert StandsFor(pattern[1..], Erased(pattern), 0);
      } else {
        assert Erased(pattern)[1..] == Erased(pattern[1..]);
      }
    }
  }

  lemma {:induction false} LiteralErased(literal: string, rest: string)
    requires STAR !in literal && '/' !in literal
    ensures Erased(literal + rest) == literal + Erased(rest) && Need(literal + rest) == |literal| + Need(rest)
  {
    if literal == "" {
      assert literal + rest == rest;
    } else {
      assert (literal + rest)[1..] == literal[1..] + rest;
      LiteralErased(literal[1..], rest);
    }
  }

  /** No unsafe star before the first slash. */
  predicate SafeSegment(pattern: string) {
    || pattern == "" || pattern[0] == '/'
    || ((pattern[0] == STAR ==> StarIsSafe(pattern[1..])) && SafeSegment(pattern[1..]))
  }

  lemma {:induction false} OpenIsSafe(s: string)
    requires Open(s)
    ensures SafeSegment(s)
  {
    if s != "" && s[0] == STAR {
      OpenIsSafe(s[1..]);
      assert Open(s[1..]) && (s[1..] == "" || s[1..][0] == '/' || s[1..][0] == STAR);
      assert Literal(s[1..]) == "";
    }
  }

  lemma {:induction false} LiteralIsSafe(literal: string, rest: string)
    requires STAR !in literal && SafeSegment(rest)
    ensures SafeSegment(literal + rest)
  {
    if literal == "" {
      assert literal + rest == rest;
    } else {
      assert (literal + rest)[1..] == literal[1..] + rest;
      LiteralIsSafe(literal[1..], rest);
    }
  }

  /** After a safe star the rest of its segment is safe. */
  lemma SafeStarSafeSegment(rest: string)
    requires StarIsSafe(rest)
    ensures SafeSegment(rest)
  {
    LiteralHasNoSlash(rest);
    if Open(After(rest)) {
      OpenIsSafe(After(rest));
    } else {
      var more := After(rest)[1..];
      LiteralHasNoSlash(more);
      OpenIsSafe(After(more));
      LiteralIsSafe(Literal(more), After(more));
    }
    LiteralIsSafe(Literal(rest), After(rest));
  }

  /** A segment of the text is what its part of the pattern is without stars. */
  predicate SegmentErased(pattern: string, text: string) {
    Find(text, '/') == Need(pattern) <= |Erased(pattern)| && text[..Need(pattern)] == Erased(pattern)[..Need(pattern)]
  }

  /** A literal taken so late that less than the pattern needs is left of the segment. */
  lemma TooLittleLeft(rest: string, text: string, k: nat)
    requires rest != "" && rest[0] != '/' && OccursAt(text[..Find(text, '/')], Literal(rest), k)
    requires Find(text, '/') - k < Need(rest)
    ensures Captures([STAR] + rest, text).None?
  {
    var seg := text[..Find(text, '/')];
    var n := LastIn(seg, Literal(rest)).value;
    assert ([STAR] + rest)[1..] == rest;
    StarFirst([STAR] + rest, text);
    assert StarLength(rest, text) == Some(n);
    assert text[..n] == seg[..n];
    FindAfter(text, n);
    if Captures(rest, text[n..]).Some? {
      CapturedIsSaid(rest, text[n..]);
      NeedIsThere(rest, text[n..]);
    }
  }

  /** The segment of a literal, a stretch and a text that ends or goes on with a slash. */
  lemma SegmentOf(head: string, tail: string)
    requires '/' !in head
    ensures Find(head + tail, '/') == |head| + Find(tail, '/')
  {
    assert (head + tail)[..|head|] == head && (head + tail)[|head|..] == tail;
    FindAfter(head + tail, |head|);
  }

  lemma OverlapOccurs(literal: string, gap: string, last: string, e: nat)
    requires EndsInside(literal, last, e) && gap == literal[..|literal| - Min(e, |literal|)]
    ensures OccursAt(literal + gap + last, literal, |gap| + e)
  {
    var seg, m, k := literal + gap + last, Min(e, |literal|), |gap| + e;
    forall i | 0 <= i < |literal| ensures seg[k..k + |literal|][i] == literal[i] {
      if i < |literal| - m {
        assert seg[k + i] == gap[i];
      } else {
        var j := i - (|literal| - m);
        assert seg[k + i] == last[e - m + j] == last[e - m..e][j] == literal[|literal| - m..][j];
      }
    }
  }

  lemma NeedOfTwo(literal: string, last: string, tail: string)
    requires STAR !in literal && '/' !in literal && STAR !in last && '/' !in last
    ensures Need(literal + ([STAR] + (last + tail))) == |literal| + |last| + Need(tail)
  {
    LiteralErased(last, tail);
    assert ([STAR] + (last + tail))[1..] == last + tail;
    LiteralErased(literal, [STAR] + (last + tail));
  }

  lemma TwoAreSaid(literal: string, gap: string, last: string, tail: string, end: string)
    requires STAR !in literal && '/' !in gap && STAR !in last && Says(tail, end)
    ensures Says(literal + ([STAR] + (last + tail)), literal + (gap + (last + end)))
  {
    LiteralSays(last, tail, last + end);
    assert (last + end)[|last|..] == end;
    var u := gap + (last + end);
    assert u[|gap|..] == last + end && u[..|gap|] == gap;
    StarSays(last + tail, u, |gap|);
    LiteralSays(literal, [STAR] + (last + tail), literal + u);
    hide Says;
    assert (literal + u)[|literal|..] == u;
  }

  lemma NeedOfEnd(tail: string)
    requires tail == "" || tail[0] == '/'
    ensures Need(tail) == 0
  {
  }

  lemma OverlapText(literal: string, gap: string, last: string, tail: string, e: nat)
    requires EndsInside(literal, last, e) && gap == literal[..|literal| - Min(e, |literal|)]
    requires (tail == "" || tail[0] == '/') && '/' !in literal && '/' !in last
    ensures var text := literal + (gap + (last + Erased(tail)));
            && Find(text, '/') == |literal| + |gap| + |last|
            && OccursAt(text[..Find(text, '/')], literal, |gap| + e)
  {
    var seg, end := literal + gap + last, Erased(tail);
    ErasedIsSaid(tail);
    NeedOfEnd(tail);
    OverlapOccurs(literal, gap, last, e);
    hide Says;
    hide Find;
    hide Erased;
    hide EndsInside;
    hide OccursAt;
    PartHasNone(literal, 0, |gap|, '/');
    InNeither(literal, gap, '/');
    InNeither(literal + gap, last, '/');
    Regroup(literal, gap, last, end);
    SegmentOf(seg, end);
    assert (seg + end)[..|seg|] == seg;
  }

  /** One literal reaches into the next: it comes once, and then again where it does. */
  lemma OverlapMisses(literal: string, last: string, tail: string, e: nat) returns (text: string)
    requires EndsInside(literal, last, e) && literal != "" && (tail == "" || tail[0] == '/')
    requires STAR !in literal && '/' !in literal && STAR !in last && '/' !in last
    ensures var rest := literal + ([STAR] + (last + tail));
            && Says(rest, text)
            && exists k: nat :: OccursAt(text[..Find(text, '/')], literal, k) && Find(text, '/') - k < Need(rest)
  {
    hide Find;
    hide Need;
    hide OccursAt;
    var gap := literal[..|literal| - Min(e, |literal|)];
    ErasedIsSaid(tail);
    hide Erased;
    NeedOfTwo(literal, last, tail);
    TwoAreSaid(literal, gap, last, tail, Erased(tail));
    hide Says;
    OverlapText(literal, gap, last, tail, e);
    text := literal + (gap + (last + Erased(tail)));
  }

  lemma LaterIsSaid(literal: string, next: string, more: string)
    requires STAR !in literal && '/' !in literal && STAR !in next && '/' !in next
    ensures var rest := literal + ([STAR] + (next + ([STAR] + more)));
            && Says(rest, literal + ("" + (next + (literal + Erased(more)))))
            && Need(rest) == |literal| + |next| + Need(more)
  {
    var end := Erased(more);
    ErasedIsSaid(more);
    NeedOfTwo(literal, next, [STAR] + more);
    assert ([STAR] + more)[1..] == more;
    assert (literal + end)[|literal|..] == end && (literal + end)[..|literal|] == literal;
    StarSays(more, literal + end, |literal|);
    TwoAreSaid(literal, "", next, [STAR] + more, literal + end);
  }

  /** One literal, another one, and a star after both: the first comes again at the end. */
  lemma LaterMisses(literal: string, next: string, more: string) returns (text: string)
    requires literal != "" && next != ""
    requires STAR !in literal && '/' !in literal && STAR !in next && '/' !in next
    ensures var rest := literal + ([STAR] + (next + ([STAR] + more)));
            && Says(rest, text)
            && exists k: nat :: OccursAt(text[..Find(text, '/')], literal, k) && Find(text, '/') - k < Need(rest)
  {
    LaterIsSaid(literal, next, more);
    ErasedIsSaid(more);
    hide Says;
    hide Find;
    hide Need;
    hide Erased;
    var seg, end := literal + next + literal, Erased(more);
    hide OccursAt;
    text := literal + ("" + (next + (literal + end)));
    assert "" + (next + (literal + end)) == next + (literal + end);
    Regroup(literal, next, literal, end);
    InNeither(literal, next, '/');
    InNeither(literal + next, literal, '/');
    SegmentOf(seg, end);
    LastOfThree(literal, next, end);
    assert OccursAt(text[..Find(text, '/')], literal, |literal| + |next|);
  }

  lemma LastOfThree(literal: string, next: string, end: string)
    ensures var seg := literal + next + literal;
            forall n :: |seg| <= n <= |seg + end| ==> OccursAt((seg + end)[..n], literal, |literal| + |next|)
  {
    var seg := literal + next + literal;
    forall n | |seg| <= n <= |seg + end|
      ensures OccursAt((seg + end)[..n], literal, |literal| + |next|)
    {
      assert (seg + end)[..n][|literal| + |next|..|literal| + |next| + |literal|] == literal;
    }
  }

  lemma {:induction false} DeadInside(literal: string, rest: string)
    requires HasDeadStar(rest)
    ensures HasDeadStar(literal + rest)
  {
    if literal == "" {
      assert literal + rest == rest;
    } else {
      assert (literal + rest)[1..] == literal[1..] + rest;
      DeadInside(literal[1..], rest);
    }
  }

  /** The shape of an unsafe star that is not dead. */
  lemma UnsafeShape(rest: string)
    requires !StarIsSafe(rest) && !IsDead(rest) && !HasDeadStar(rest)
    ensures Literal(rest) != "" && rest[0] != '/' && After(rest) == [STAR] + After(rest)[1..]
    ensures var more := After(rest)[1..];
            && Literal(more) != ""
            && (if After(more) == "" || After(more)[0] == '/' then Overlap(Literal(rest), Literal(more))
                else After(more) == [STAR] + After(more)[1..])
  {
    hide Literal;
    hide After;
    hide Find;
    hide HasDeadStar;
    hide Overlap;
    var after := After(rest);
    OpenAfter(rest);
    LiteralHasNoSlash(rest);
    LiteralFirst(rest);
    var more := after[1..];
    if Literal(more) == "" {
      LiteralFirst(more);
      DeadFirst(after);
      DeadInside(Literal(rest), after);
    }
  }

  lemma LiteralFirst(rest: string)
    ensures Literal(rest) == "" ==> After(rest) == rest
    ensures Literal(rest) != "" ==> rest != "" && rest[0] != '/'
  {
    LiteralHasNoSlash(rest);
    assert Literal(rest) + After(rest) == rest;
    assert Literal(rest) != "" ==> Literal(rest)[0] == rest[0];
  }

  lemma DeadFirst(pattern: string)
    ensures pattern != "" && pattern[0] == STAR && IsDead(pattern[1..]) ==> HasDeadStar(pattern)
  {
  }

  lemma MissedStar(rest: string) returns (text: string)
    requires !StarIsSafe(rest) && !IsDead(rest) && !HasDeadStar(rest)
    ensures Says(rest, text) && Captures([STAR] + rest, text).None?
  {
    hide StarIsSafe;
    hide IsDead;
    hide HasDeadStar;
    hide Says;
    hide Captures;
    hide Need;
    hide Find;
    UnsafeShape(rest);
    var literal, more := Literal(rest), After(rest)[1..];
    LiteralHasNoSlash(rest);
    LiteralHasNoSlash(more);
    assert rest == literal + ([STAR] + (Literal(more) + After(more)));
    if After(more) == "" || After(more)[0] == '/' {
      var e: nat :| e <= |Literal(more)| && EndsInside(literal, Literal(more), e);
      text := OverlapMisses(literal, Literal(more), After(more), e);
    } else {
      text := LaterMisses(literal, Literal(more), After(more)[1..]);
    }
    var k: nat :| OccursAt(text[..Find(text, '/')], literal, k) && Find(text, '/') - k < Need(rest);
    TooLittleLeft(rest, text, k);
  }

  lemma OnlyAtFront(seg: string, literal: string, last: string)
    requires seg == literal + last && (last != "" ==> literal != "" && !Overlap(literal, last))
    ensures LastIn(seg, literal) == Some(0)
  {
    assert seg[0..0 + |literal|] == literal;
    assert OccursAt(seg, literal, 0);
    var k := LastIn(seg, literal).value;
    if last != "" {
      assert seg[|seg| - |last|..] == last;
      NotInside(seg, literal, k, last);
    }
  }

  lemma StarErased(rest: string)
    ensures Erased([STAR] + rest) == Erased(rest) && Need([STAR] + rest) == Need(rest)
  {
    assert ([STAR] + rest)[1..] == rest;
  }

  /** What is left of a segment after a safe star's literal. */
  lemma SafeSegmentText(rest: string) returns (last: string)
    requires StarIsSafe(rest)
    ensures Need(rest) == |Literal(rest)| + |last| <= |Erased(rest)|
    ensures Erased(rest)[..Need(rest)] == Literal(rest) + last
    ensures last != "" ==> Literal(rest) != "" && !Overlap(Literal(rest), last)
  {
    hide Overlap;
    hide Find;
    hide Literal;
    hide After;
    hide Need;
    hide Erased;
    var literal, after := Literal(rest), After(rest);
    LiteralHasNoSlash(rest);
    LiteralErased(literal, after);
    OpenNeedsNothing(after);
    assert "" + Erased(after) == Erased(after);
    last := "";
    if !Open(after) {
      OpenAfter(rest);
      var more := after[1..];
      last := Literal(more);
      StarErased(more);
      LiteralHasNoSlash(more);
      LiteralErased(last, After(more));
      OpenNeedsNothing(After(more));
      FrontOfThree(literal, last, Erased(After(more)));
    } else {
      FrontOfThree(literal, "", Erased(after));
    }
  }

  lemma FrontOfThree(a: string, b: string, c: string)
    ensures (a + (b + c))[..|a| + |b|] == a + b
  {
  }

  /** At a safe star before an unsafe one, nothing is taken of a text without stars. */
  lemma SafeStarTakesNothing(rest: string, text: string)
    requires rest != "" && StarIsSafe(rest) && SegmentErased(rest, text) && Find(text, '/') < |text|
    ensures StarLength(rest, text) == Some(0)
  {
    hide StarIsSafe;
    hide Find;
    hide LastIn;
    hide Overlap;
    if rest[0] != '/' {
      var last := SafeSegmentText(rest);
      OnlyAtFront(text[..Find(text, '/')], Literal(rest), last);
    }
  }

  /** Of an unsafe pattern without dead stars some text that it allows is missed. */
  lemma {:induction false} UnsafeMisses(pattern: string) returns (text: string)
    requires !Safe(pattern) && !HasDeadStar(pattern)
    ensures Says(pattern, text) && Captures(pattern, text).None?
    ensures SafeSegment(pattern) ==> SegmentErased(pattern, text) && Find(text, '/') < |text|
    decreases |pattern|
  {
    hide StarIsSafe;
    hide IsDead;
    hide Says;
    hide Captures;
    hide SegmentErased;
    hide Find;
    var rest := pattern[1..];
    assert pattern == [pattern[0]] + rest;
    if pattern[0] == STAR && !StarIsSafe(rest) {
      text := MissedStar(rest);
      assert text[0..] == text;
      StarSays(rest, text, 0);
    } else {
      text := UnsafeMisses(rest);
      if pattern[0] == STAR {
        StillMissed(rest, text);
      } else {
        MissedWith(pattern[0], rest, text);
        text := [pattern[0]] + text;
      }
    }
  }

  lemma StillMissed(rest: string, text: string)
    requires !Safe(rest) && StarIsSafe(rest) && Says(rest, text) && Captures(rest, text).None?
    requires SafeSegment(rest) ==> SegmentErased(rest, text) && Find(text, '/') < |text|
    ensures Says([STAR] + rest, text) && Captures([STAR] + rest, text).None?
    ensures SegmentErased([STAR] + rest, text) && Find(text, '/') < |text|
  {
    hide StarIsSafe;
    hide StarLength;
    hide Says;
    hide Captures;
    hide Find;
    hide Need;
    hide Erased;
    hide SafeSegment;
    hide Safe;
    hide Literal;
    hide After;
    assert text[0..] == text && ([STAR] + rest)[1..] == rest;
    StarErased(rest);
    StarSays(rest, text, 0);
    SafeStarSafeSegment(rest);
    NotSafeIsNotEmpty(rest);
    SafeStarTakesNothing(rest, text);
    StarFirst([STAR] + rest, text);
  }

  lemma NotSafeIsNotEmpty(pattern: string)
    requires !Safe(pattern)
    ensures pattern != ""
  {
  }

  lemma MissedWith(c: char, rest: string, text: string)
    requires c != STAR && Says(rest, text) && Captures(rest, text).None?
    requires SafeSegment(rest) ==> SegmentErased(rest, text) && Find(text, '/') < |text|
    ensures Says([c] + rest, [c] + text) && Captures([c] + rest, [c] + text).None?
    ensures SafeSegment([c] + rest) ==> SegmentErased([c] + rest, [c] + text) && Find([c] + text, '/') < |[c] + text|
  {
    hide StarIsSafe;
    hide Captures;
    assert ([c] + rest)[1..] == rest && ([c] + text)[1..] == text;
    LiteralStep([c] + rest, [c] + text);
    if c != '/' && SafeSegment(rest) {
      assert ([c] + text)[..Need(rest) + 1] == [c] + text[..Need(rest)];
      assert ([c] + Erased(rest))[..Need(rest) + 1] == [c] + Erased(rest)[..Need(rest)];
    }
  }

  /** The matcher finds captures for every text that the pattern allows. */
  ghost predicate Complete(pattern: string) {
    forall text :: Says(pattern, text) ==> Captures(pattern, text).Some?
  }

  /** Captures are found for every text that the pattern allows exactly when each star is safe:
      when after its literal come a slash, the end or stars alone, or one more star and one more
      literal that it does not reach into. */
  lemma CompleteExactlyWhenSafe(pattern: string)
    ensures Complete(pattern) <==> Safe(pattern)
  {
    hide Says;
    hide Captures;
    hide Safe;
    hide HasDeadStar;
    if Safe(pattern) {
      forall text | Says(pattern, text) ensures Captures(pattern, text).Some? {
        SafeIsComplete(pattern, text);
      }
    } else if HasDeadStar(pattern) {
      ErasedIsSaid(pattern);
      DeadIsNeverCaptured(pattern, Erased(pattern));
    } else {
      var text := UnsafeMisses(pattern);
    }
  }

  lemma GreedyShape()
    ensures "a*ba" == "a" + ([STAR] + ("ba" + "")) && "aba" == "a" + ("" + ("ba" + ""))
    ensures Literal("a*ba") == "a" && Find("aba", '/') == 3 && Need("a*ba") == 3
    ensures OccursAt("aba"[..3], "a", 2)
  {
    FindIs("a*ba", STAR, 1);
    FindIs("a*ba", '/', 4);
    FindIs("aba", '/', 3);
    NeedOfTwo("a", "ba", "");
  }

  lemma GreedySays()
    ensures Says([STAR] + "a*ba", "aba")
  {
    GreedyShape();
    hide Find;
    hide Need;
    hide Literal;
    TwoAreSaid("a", "", "ba", "", "");
    assert "aba"[0..] == "aba";
    StarSays("a*ba", "aba", 0);
  }

  lemma GreedyMissesBelow()
    ensures Captures([STAR] + "a*ba", "aba").None?
  {
    GreedyShape();
    hide *;
    TooLittleLeft("a*ba", "aba", 2);
  }

  lemma SlashFirst(pattern: string, text: string)
    ensures Says(['/'] + pattern, ['/'] + text) <==> Says(pattern, text)
    ensures Captures(['/'] + pattern, ['/'] + text) == Captures(pattern, text)
  {
    hide Captures;
    assert (['/'] + pattern)[1..] == pattern && (['/'] + text)[1..] == text;
    LiteralStep(['/'] + pattern, ['/'] + text);
  }

  lemma CompleteMeansCaptured(pattern: string, text: string)
    requires Says(pattern, text) && Captures(pattern, text).None?
    ensures !Safe(pattern)
  {
    hide *;
    if Safe(pattern) {
      SafeIsComplete(pattern, text);
    }
  }

  /** For instance the pattern `*a*ba` below the root: it allows /aba, where none are found. */
  lemma GreedyMisses()
    ensures Says("/*a*ba", "/aba") && Captures("/*a*ba", "/aba").None? && !Safe("/*a*ba")
  {
    GreedySays();
    GreedyMissesBelow();
    SlashFirst([STAR] + "a*ba", "aba");
    hide Captures;
    hide Says;
    hide Safe;
    assert "/*a*ba" == ['/'] + ([STAR] + "a*ba") && "/aba" == ['/'] + "aba";
    CompleteMeansCaptured("/*a*ba", "/aba");
  }
}
