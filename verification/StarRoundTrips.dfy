/** There and back by patterns with several stars, each a whole segment. */
module StarRoundTrips {
  import opened Options
  import opened Paths
  import opened StarCapture
  import opened PathMapping
  import opened MappingChoice
  import opened ReverseMapping
  import opened StarMappings

  /** Every star stands between slashes, or ends the pattern. */
  predicate WholeSegments(s: string) {
    forall k :: 0 <= k < |s| && s[k] == '*' ==>
      (k > 0 && s[k - 1] == '/') && forall n :: n == k + 1 && n < |s| ==> s[n] == '/'
  }

  predicate Alike(a: seq<Capture>, b: seq<Capture>) {
    |a| == |b| && forall k :: 0 <= k < |a| ==> Taken(a[k]) == Taken(b[k])
  }

  /** Only what a capture stands for goes in. */
  lemma {:induction false} FillsAlike(pattern: string, a: seq<Capture>, b: seq<Capture>)
    requires |a| == Stars(pattern) && Alike(a, b)
    ensures Fill(pattern, a) == Fill(pattern, b)
  {
    if pattern == "" {
    } else if pattern[0] == STAR {
      FillsAlike(pattern[1..], a[1..], b[1..]);
    } else {
      FillsAlike(pattern[1..], a, b);
    }
  }

  /** After each star a slash or the end, which is all that matters from some place on. */
  predicate SlashBehindStars(s: string) {
    forall k :: 0 <= k < |s| && s[k] == '*' ==> s[k + 1..] == "" || s[k + 1..][0] == '/'
  }

  /** The matcher finds in a filled pattern what was put in. */
  lemma {:induction false} FilledIsCaptured(pattern: string, caps: seq<Capture>)
    requires |caps| == Stars(pattern) && SlashBehindStars(pattern) && SlashOnlyLast(pattern, caps)
    ensures Captures(pattern, Fill(pattern, caps)).Some?
    ensures Alike(Captures(pattern, Fill(pattern, caps)).value, caps)
    decreases |pattern|
  {
    var text := Fill(pattern, caps);
    if pattern == "" {
    } else if pattern[0] != STAR {
      var k := Find(pattern, STAR);
      FillLiteral(pattern[..k], pattern[k..], caps);
      assert pattern == pattern[..k] + pattern[k..];
      assert text[..k] == pattern[..k] && text[k..] == Fill(pattern[k..], caps);
      Behind(pattern, k);
      FilledIsCaptured(pattern[k..], caps);
    } else {
      StarIsCaptured(pattern, caps);
    }
  }

  lemma Behind(pattern: string, k: nat)
    requires k <= |pattern| && SlashBehindStars(pattern)
    ensures SlashBehindStars(pattern[k..])
  {
    forall j | 0 <= j < |pattern[k..]| && pattern[k..][j] == '*'
      ensures pattern[k..][j + 1..] == "" || pattern[k..][j + 1..][0] == '/'
    {
      assert pattern[k + j] == '*' && pattern[k + j + 1..] == pattern[k..][j + 1..];
    }
  }

  lemma {:induction false} StarIsCaptured(pattern: string, caps: seq<Capture>)
    requires pattern != "" && pattern[0] == STAR
    requires |caps| == Stars(pattern) && SlashBehindStars(pattern) && SlashOnlyLast(pattern, caps)
    ensures Captures(pattern, Fill(pattern, caps)).Some?
    ensures Alike(Captures(pattern, Fill(pattern, caps)).value, caps)
    decreases |pattern|, 0
  {
    var rest, text, c := pattern[1..], Fill(pattern, caps), caps[0];
    var more := Fill(rest, caps[1..]);
    Behind(pattern, 1);
    if rest == "" {
      assert more == "" && text == Taken(c) && text[|text|..] == "" && caps[1..] == [];
      assert Captures(pattern, text) == Some([Stretch(text, |text|)] + []);
    } else {
      assert rest[0] == '/' && more[0] == '/' && text == Taken(c) + more;
      assert '/' !in Taken(c) by {
        StarIsCounted(rest);
        assert pattern[|pattern| - 1] == rest[|rest| - 1];
      }
      assert text[..c.length] == Taken(c) && text[c.length..] == more;
      FindIs(text, '/', c.length);
      FilledIsCaptured(rest, caps[1..]);
    }
  }

  /** Captures that a slash may follow, and a name may come before. */
  predicate AllClean(caps: seq<Capture>) { forall c <- caps :: Clean(c) }

  /** Nothing is put in around stars that are whole segments. */
  lemma {:induction false} FilledBack(from: string, i: nat, out: string, caps: seq<Capture>, size: nat)
    requires i <= |from| && |caps| == Stars(from[i..]) && WholeSegments(from)
    requires i > 0 && from[i - 1] == '/' ==> !EndsOpen(out)
    requires |out| + |Fill(from[i..], caps)| + 1 < size
    ensures SubstitutedBack(from, i, out, caps, size) == Some(out + Fill(from[i..], caps))
    decreases |from| - i
  {
    var rest := from[i..];
    if i == |from| {
      assert rest == "" && out + "" == out;
    } else if from[i] == '*' {
      var c := caps[0];
      assert rest[1..] == from[i + 1..] && out + Slash(false) == out;
      var out2, more := out + Taken(c), Fill(from[i + 1..], caps[1..]);
      assert out + Fill(rest, caps) == out2 + more && out2 + Slash(false) == out2;
      FilledBack(from, i + 1, out2, caps[1..], size);
    } else {
      assert rest[1..] == from[i + 1..] && rest[0] == from[i];
      FilledBack(from, i + 1, out + [from[i]], caps, size);
      assert out + [from[i]] + Fill(from[i + 1..], caps) == out + Fill(rest, caps);
    }
  }

  lemma BehindWhole(s: string)
    requires WholeSegments(s)
    ensures SlashBehindStars(s)
  {
    forall k | 0 <= k < |s| && s[k] == '*' ensures s[k + 1..] == "" || s[k + 1..][0] == '/' {
      var n := k + 1;
      assert n < |s| ==> s[n] == '/';
    }
  }

  /** Where a target with several stars wins, and source and target have as many, each a whole segment,
      and no more than eight: the captures go in for the source's stars. */
  lemma StarsComeBack(ms: seq<Mapping>, i: nat, path: string, size: nat, globs: Globs)
    requires WinsBack(ms, |ms|, i, path, globs) && path != "" && size >= 2
    requires HasStarsOnly(ms[i].to) && Captures(ms[i].to, path).Some?
    requires 0 < Stars(ms[i].from) == Stars(ms[i].to) <= 8 && WholeSegments(ms[i].from)
    requires |Captures(ms[i].to, path).value| == Stars(ms[i].to)
    requires |Fill(ms[i].from, Captures(ms[i].to, path).value)| + 1 < size
    ensures Reverse(ms, path, size, globs) == MappedTo(Fill(ms[i].from, Captures(ms[i].to, path).value))
  {
    var m := ms[i];
    var caps := Captures(m.to, path).value;
    assert caps[..|caps|] == caps && m.from[0..] == m.from && "" + Fill(m.from, caps) == Fill(m.from, caps);
    hide Captures;
    hide Fill;
    FilledBack(m.from, 0, "", caps, size);
    HasStar(m.from);
    WinnerIsBestTo(ms, i, path, globs);
    BestToWins(ms, |ms|, path, globs);
    hide WinsBack;
    hide BestTo;
    hide SubstitutedBack;
    hide WholeSegments;
  }

  lemma {:induction false} HasStar(s: string)
    ensures Stars(s) > 0 ==> '*' in s
  {
    if s != "" && s[0] != '*' && Stars(s) > 0 {
      HasStar(s[1..]);
    }
  }

  predicate EndsInStar(s: string) { s != "" && s[|s| - 1] == '*' }

  /** There and back: where the mapping wins both ways, its stars are whole segments, as many on both
      sides and no more than eight, and stand for names that no slash ends, the path is what it
      was. */
  lemma StarsRoundTrip(ms: seq<Mapping>, i: nat, path: string, size: nat, globs: Globs)
    requires Wins(ms, |ms|, i, path, globs) && !UnderSomeTo(ms, path)
    requires HasStarsOnly(ms[i].from) && !OneStarOnly(ms[i].from) && Captures(ms[i].from, path).Some?
    requires HasStarsOnly(ms[i].to) && |Captures(ms[i].from, path).value| == Stars(ms[i].to) <= 8
    requires WholeSegments(ms[i].from) && WholeSegments(ms[i].to) && (EndsInStar(ms[i].from) ==> EndsInStar(ms[i].to))
    requires AllClean(Captures(ms[i].from, path).value)
    requires var there := Fill(ms[i].to, Captures(ms[i].from, path).value);
             WinsBack(ms, |ms|, i, there, globs) && |there| + |path| + 1 < size
    ensures var there := Fill(ms[i].to, Captures(ms[i].from, path).value);
            && Forward(ms, path, size, globs) == Some(there)
            && Reverse(ms, there, size, globs) == MappedTo(path)
  {
    var from, to, caps := ms[i].from, ms[i].to, Captures(ms[i].from, path).value;
    var there := Fill(to, caps);
    AllAreFilled(caps, |caps|);
    CapturesAreSound(from, path);
    assert to[0] != '*' && there != "";
    StarsMap(ms, i, path, size, globs);
    BehindWhole(to);
    FilledIsCaptured(to, caps);
    FillsAlike(from, caps, Captures(to, there).value);
    StarIsCounted(from);
    hide Captures;
    hide Fill;
    hide Wins;
    hide WinsBack;
    hide Forward;
    hide Reverse;
    hide WholeSegments;
    StarsComeBack(ms, i, there, size, globs);
  }
}
