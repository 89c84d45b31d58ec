/** What a PATH_MAPPING says, by its characters alone, and that this is what is parsed. */
module MappingTexts {
  import opened Options
  import opened Paths
  import opened MappingEnv

  predicate Padding(s: string) { forall k :: 0 <= k < |s| ==> s[k] in {' ', '\t'} }

  /** A text with something in it and no blanks around it. */
  predicate Bare(s: string) { s != "" && s[0] !in {' ', '\t'} && s[|s| - 1] !in {' ', '\t'} }

  /** `from:to`, with blanks around either. */
  predicate SaysWith(segment: string, w: Written) {
    && Padding(w.before) && Padding(w.afterFrom) && Padding(w.beforeTo) && Padding(w.after)
    && Bare(w.from) && Bare(w.to) && ':' !in w.from
    && segment == w.before + w.from + w.afterFrom + ":" + w.beforeTo + w.to + w.after
  }

  ghost predicate Says(segment: string, p: Pair) {
    exists w :: SaysWith(segment, w) && p == Pair(w.from, w.to)
  }

  /** Blanks at the front. */
  function Leading(s: string): (n: nat)
    ensures n <= |s| && Padding(s[..n]) && (n < |s| ==> !IsBlank(s[n]))
  {
    if s != "" && IsBlank(s[0]) then
      assert forall k :: 0 <= k < Leading(s[1..]) ==> s[k + 1] == s[1..][..Leading(s[1..])][k];
      1 + Leading(s[1..])
    else 0
  }

  /** Where the blanks at the end start. */
  function Trailing(s: string): (n: nat)
    ensures n <= |s| && Padding(s[n..]) && (n > 0 ==> !IsBlank(s[n - 1]))
  {
    if s != "" && IsBlank(s[|s| - 1]) then
      var n := Trailing(s[..|s| - 1]);
      assert forall k :: n <= k < |s| - 1 ==> s[k] == s[..|s| - 1][n..][k - n];
      n
    else |s|
  }

  lemma {:induction false} LeftOff(s: string)
    ensures TrimLeft(s) == s[Leading(s)..]
  {
    if s != "" && IsBlank(s[0]) {
      LeftOff(s[1..]);
    }
  }

  lemma {:induction false} RightOff(s: string)
    ensures TrimRight(s) == s[..Trailing(s)]
  {
    if s != "" && IsBlank(s[|s| - 1]) {
      RightOff(s[..|s| - 1]);
    }
  }

  /** Between the blanks. */
  lemma TrimIs(s: string)
    ensures var left := s[Leading(s)..]; Trim(s) == left[..Trailing(left)]
  {
    LeftOff(s);
    RightOff(s[Leading(s)..]);
    hide Leading;
    hide Trailing;
    hide Padding;
    hide TrimLeft;
    hide TrimRight;
  }

  /** A text and what is left of it: padding around something bare, or around nothing. */
  predicate TrimsTo(s: string, before: string, t: string, after: string) {
    Padding(before) && Padding(after) && s == before + t + after && (t != "" ==> Bare(t))
  }

  lemma TrimmedOff(s: string) returns (before: string, after: string)
    ensures TrimsTo(s, before, Trim(s), after)
  {
    TrimIs(s);
    hide Trim;
    hide Leading;
    hide Trailing;
    hide Padding;
    var left := s[Leading(s)..];
    before, after := s[..Leading(s)], left[Trailing(left)..];
    InThree(s, Leading(s), Trailing(left));
  }

  lemma InThree(s: string, n: nat, m: nat)
    requires n <= |s| && m <= |s[n..]|
    ensures s == s[..n] + s[n..][..m] + s[n..][m..]
  {
  }

  /** The two sides of the first colon. */
  lemma EntryParts(segment: string)
    requires Entry(segment).Some?
    ensures var t := Trim(segment);
            exists left, right :: Sides(t, left, right) && Entry(segment) == Some(Pair(Trim(left), Trim(right)))
                                  && Trim(left) != "" && Trim(right) != ""
  {
    hide Trim;
    var t := Trim(segment);
    var colon := Find(t, ':');
    assert Sides(t, t[..colon], t[colon + 1..]);
  }

  predicate Sides(t: string, left: string, right: string) { t == left + ":" + right && ':' !in left }

  lemma EntryIsSaid(segment: string)
    requires Entry(segment).Some?
    ensures Says(segment, Entry(segment).value)
  {
    hide Trim;
    hide Entry;
    hide TrimsTo;
    hide Says;
    EntryParts(segment);
    var left, right :| Sides(Trim(segment), left, right) && Entry(segment) == Some(Pair(Trim(left), Trim(right)))
                       && Trim(left) != "" && Trim(right) != "";
    var before, after := TrimmedOff(segment);
    var a, b := TrimmedOff(left);
    var c, d := TrimmedOff(right);
    SaysInside(segment, before, left, right, after, a, Trim(left), b, c, Trim(right), d);
  }

  /** A pair that is padded twice. */
  lemma SaysInside(segment: string, before: string, left: string, right: string, after: string,
                   a: string, from: string, b: string, c: string, to: string, d: string)
    requires TrimsTo(segment, before, left + ":" + right, after) && ':' !in left
    requires TrimsTo(left, a, from, b) && TrimsTo(right, c, to, d) && from != "" && to != ""
    ensures Says(segment, Pair(from, to))
  {
    var w := Written(before + a, from, b, c, to, d + after);
    assert ':' !in from by {
      assert forall k :: 0 <= k < |from| ==> from[k] == left[|a| + k];
    }
    BothPad(before, a);
    BothPad(d, after);
    hide Bare;
    hide Padding;
    Regrouped(before, a, from, b, c, to, d, after);
    assert SaysWith(segment, w);
  }

  lemma Regrouped(before: string, a: string, from: string, b: string, c: string, to: string, d: string, after: string)
    ensures before + ((a + from + b) + ":" + (c + to + d)) + after
            == (before + a) + from + b + ":" + c + to + (d + after)
  {
  }

  lemma BothPad(a: string, b: string)
    requires Padding(a) && Padding(b)
    ensures Padding(a + b)
  {
  }

  lemma SaidIsEntry(segment: string, w: Written)
    requires SaysWith(segment, w)
    ensures Entry(segment) == Some(Pair(w.from, w.to))
  {
    assert Shown(w) == segment;
    ShownIsOneEntry(w);
  }

  /** A segment has a pair exactly when it says one, and then that one. */
  lemma EntryExactlyWhen(segment: string, p: Pair)
    ensures Entry(segment) == Some(p) <==> Says(segment, p)
  {
    if Entry(segment).Some? {
      EntryIsSaid(segment);
    }
    forall w | SaysWith(segment, w) ensures Entry(segment) == Some(Pair(w.from, w.to)) {
      SaidIsEntry(segment, w);
    }
  }

  /** This segment, up to a comma or the end of a line. */
  predicate IsSegment(env: string, k: nat) {
    && k <= |env| && (forall c <- env[..k] :: c !in {',', '\n', '\r'}) && (k < |env| ==> env[k] in {',', '\n', '\r'})
  }

  ghost predicate SegmentSays(segment: string, pairs: seq<Pair>) {
    if |pairs| == 1 then Says(segment, pairs[0]) else pairs == [] && forall p :: !Says(segment, p)
  }

  /** The variable says these pairs: its first segment the first of them, or none, and the rest the
      others. */
  ghost predicate SaysAll(env: string, k: nat, n: nat, pairs: seq<Pair>)
    requires IsSegment(env, k) && n <= |pairs|
    decreases |env|, 0
  {
    && SegmentSays(env[..k], pairs[..n])
    && if k == |env| then n == |pairs| else Reads(env[k + 1..], pairs[n..])
  }

  ghost predicate Reads(env: string, pairs: seq<Pair>)
    decreases |env|, 1
  {
    exists k: nat, n: nat :: IsSegment(env, k) && n <= |pairs| && SaysAll(env, k, n, pairs)
  }

  lemma SegmentIsFirst(env: string, k: nat)
    ensures IsSegment(env, k) <==> k == FirstSeparator(env)
  {
    if IsSegment(env, k) {
      forall i | 0 <= i < k ensures !IsSeparator(env[i]) {
        assert env[i] == env[..k][i] && env[..k][i] in env[..k];
      }
      FirstSeparatorIs(env, k);
    }
    if k == FirstSeparator(env) {
      forall c | c in env[..k] ensures c !in {',', '\n', '\r'} {
        var i :| 0 <= i < k && env[..k][i] == c;
        assert !IsSeparator(env[..k][i]);
      }
    }
  }

  lemma SegmentSaysEntry(segment: string, pairs: seq<Pair>)
    ensures SegmentSays(segment, pairs) <==> pairs == OneOrNone(Entry(segment))
  {
    forall p ensures Entry(segment) == Some(p) <==> Says(segment, p) {
      EntryExactlyWhen(segment, p);
    }
    hide Entry;
    hide Says;
    if Entry(segment).Some? {
      assert Says(segment, Entry(segment).value);
    }
  }

  /** What is parsed is what the variable says, and nothing else is said by it. */
  lemma {:induction false} ParsedExactlyWhenSaid(env: string, pairs: seq<Pair>)
    ensures Reads(env, pairs) <==> pairs == Pairs(env)
    decreases |env|
  {
    var k := FirstSeparator(env);
    forall j: nat ensures IsSegment(env, j) <==> j == k {
      SegmentIsFirst(env, j);
    }
    hide IsSegment;
    hide FirstSeparator;
    var first := OneOrNone(Entry(env[..k]));
    forall n: nat | n <= |pairs| ensures SaysAll(env, k, n, pairs) <==> n == |first| && pairs == Pairs(env) {
      FirstSays(env, k, n, pairs);
    }
    if pairs == Pairs(env) {
      assert IsSegment(env, k) && |first| <= |pairs| && SaysAll(env, k, |first|, pairs);
    }
  }

  lemma {:induction false} FirstSays(env: string, k: nat, n: nat, pairs: seq<Pair>)
    requires k == FirstSeparator(env) && IsSegment(env, k) && n <= |pairs|
    ensures SaysAll(env, k, n, pairs) <==> n == |OneOrNone(Entry(env[..k]))| && pairs == Pairs(env)
    decreases |env|, 0
  {
    hide SegmentSays;
    hide Entry;
    SegmentSaysEntry(env[..k], pairs[..n]);
    assert pairs == pairs[..n] + pairs[n..];
    if k < |env| {
      ParsedExactlyWhenSaid(env[k + 1..], pairs[n..]);
      var first, rest := OneOrNone(Entry(env[..k])), Pairs(env[k + 1..]);
      assert Pairs(env) == first + rest && (first + rest)[..|first|] == first && (first + rest)[|first|..] == rest;
    }
  }
}
