/** The star matcher: which stretches of a path the stars of a pattern stand for. */
module StarCapture {
  import opened Options
  import opened Paths

  const STAR: char := '*'

  /** A stretch of the path: a pointer to where it starts, which is to say the path from
      there on, and its length. */
  datatype Stretch = Stretch(rest: string, length: nat)

  type Capture = c: Stretch | c.length <= |c.rest| witness Stretch("", 0)

  function Taken(c: Capture): string { c.rest[..c.length] }

  function Stars(pattern: string): nat {
    if pattern == "" then 0 else (if pattern[0] == STAR then 1 else 0) + Stars(pattern[1..])
  }

  /** The pattern with its stars replaced, in order. */
  function Fill(pattern: string, caps: seq<Capture>): string
    requires |caps| == Stars(pattern)
  {
    if pattern == "" then ""
    else if pattern[0] == STAR then Taken(caps[0]) + Fill(pattern[1..], caps[1..])
    else [pattern[0]] + Fill(pattern[1..], caps)
  }

  predicate OccursAt(text: string, literal: string, k: nat) {
    k + |literal| <= |text| && text[k..k + |literal|] == literal
  }

  /** Where a literal last occurs in a text. */
  function LastIn(text: string, literal: string): (r: Option<nat>)
    ensures r.Some? ==> OccursAt(text, literal, r.value)
    ensures forall k: nat :: OccursAt(text, literal, k) ==> r.Some? && k <= r.value
  {
    LastUpTo(text, literal, |text| + 1)
  }

  /** The last occurrence before `n`. */
  function LastUpTo(text: string, literal: string, n: nat): (r: Option<nat>)
    ensures r.Some? ==> r.value < n && OccursAt(text, literal, r.value)
    ensures forall k: nat :: k < n && OccursAt(text, literal, k) ==> r.Some? && k <= r.value
  {
    if n == 0 then None
    else if OccursAt(text, literal, n - 1) then Some(n - 1)
    else LastUpTo(text, literal, n - 1)
  }

  function Min(a: nat, b: nat): nat { if a < b then a else b }

  /** What a star followed by `rest` stands for at the front of a text: all of it, up to the
      next slash, or up to the last place in this segment where the literal after the star
      occurs. */
  function StarLength(rest: string, text: string): (r: Option<nat>)
    ensures r.Some? ==> r.value <= |text| && (rest != "" ==> '/' !in text[..r.value])
  {
    if rest == "" then Some(|text|)
    else if rest[0] == '/' then if Find(text, '/') == |text| then None else Some(Find(text, '/'))
    else
      var literal := rest[..Min(Find(rest, STAR), Find(rest, '/'))];
      LastIn(text[..Find(text, '/')], literal)
  }

  /** The captures of a pattern against a text, or None when it does not match. */
  function Captures(pattern: string, text: string): Option<seq<Capture>>
    decreases |pattern|
  {
    if pattern == "" then if text == "" then Some([]) else None
    else if pattern[0] != STAR then
      var k := Find(pattern, STAR);
      if pattern[..k] <= text then Captures(pattern[k..], text[k..]) else None
    else
      match StarLength(pattern[1..], text)
      case None => None
      case Some(n) =>
        match Captures(pattern[1..], text[n..])
        case None => None
        case Some(more) => Some([Stretch(text, n)] + more)
  }

  lemma {:induction false} FillLiteral(literal: string, rest: string, caps: seq<Capture>)
    requires STAR !in literal
    ensures Stars(literal + rest) == Stars(rest)
    ensures |caps| == Stars(rest) ==> Fill(literal + rest, caps) == literal + Fill(rest, caps)
  {
    if literal == "" {
      assert literal + rest == rest;
    } else {
      assert (literal + rest)[1..] == literal[1..] + rest;
      FillLiteral(literal[1..], rest, caps);
    }
  }

  /** Only the star that ends a pattern captures a slash. */
  predicate SlashOnlyLast(pattern: string, caps: seq<Capture>) {
    forall k :: 0 <= k < |caps| && '/' in Taken(caps[k]) ==>
      k == |caps| - 1 && pattern != "" && pattern[|pattern| - 1] == STAR
  }

  lemma SlashStillLast(pattern: string, k: nat, caps: seq<Capture>, first: seq<Capture>)
    requires 0 < k < |pattern| && SlashOnlyLast(pattern[k..], caps)
    requires forall f <- first :: '/' !in Taken(f)
    ensures SlashOnlyLast(pattern, first + caps)
  {
  }

  /** Putting the captures in place of the stars gives the path back, and only the star that
      ends a pattern can capture a slash. */
  lemma {:induction false} CapturesAreSound(pattern: string, text: string)
    requires Captures(pattern, text).Some?
    ensures var caps := Captures(pattern, text).value;
            && |caps| == Stars(pattern)
            && Fill(pattern, caps) == text
            && SlashOnlyLast(pattern, caps)
    decreases |pattern|
  {
    hide SlashOnlyLast;
    hide StarLength;
    if pattern == "" {
      NoneIsFine(pattern);
    } else {
      hide Captures;
      hide Fill;
      hide Stars;
      if pattern[0] != STAR {
        LiteralIsSound(pattern, text);
      } else {
        StarIsSound(pattern, text);
      }
    }
  }

  lemma {:induction false} LiteralIsSound(pattern: string, text: string)
    requires pattern != "" && pattern[0] != STAR && Captures(pattern, text).Some?
    ensures var caps := Captures(pattern, text).value;
            && |caps| == Stars(pattern)
            && Fill(pattern, caps) == text
            && SlashOnlyLast(pattern, caps)
    decreases |pattern|, 0
  {
    hide SlashOnlyLast;
    hide StarLength;
    hide Fill;
    hide Find;
    hide Stars;
    var caps, k := Captures(pattern, text).value, Find(pattern, STAR);
    var literal, rest := pattern[..k], pattern[k..];
    CapturesAreSound(rest, text[k..]);
    FillLiteral(literal, rest, caps);
    assert literal + rest == pattern && literal + text[k..] == text;
    if k < |pattern| {
      assert [] + caps == caps;
      SlashStillLast(pattern, k, caps, []);
    } else {
      EmptyHasNoStars(rest);
      NoneIsFine(pattern);
    }
  }

  lemma EmptyHasNoStars(s: string)
    requires s == ""
    ensures Stars(s) == 0
  {
  }

  lemma NoneIsFine(pattern: string)
    ensures SlashOnlyLast(pattern, [])
  {
  }

  lemma {:induction false} StarIsSound(pattern: string, text: string)
    requires pattern != "" && pattern[0] == STAR && Captures(pattern, text).Some?
    ensures var caps := Captures(pattern, text).value;
            && |caps| == Stars(pattern)
            && Fill(pattern, caps) == text
            && SlashOnlyLast(pattern, caps)
    decreases |pattern|, 0
  {
    hide StarLength;
    var caps := Captures(pattern, text).value;
    var rest, n := pattern[1..], StarLength(pattern[1..], text).value;
    var more := Captures(rest, text[n..]).value;
    CapturesAreSound(rest, text[n..]);
    assert caps == [Stretch(text, n)] + more && caps[1..] == more;
    assert text[..n] + text[n..] == text;
    if rest != "" {
      SlashStillLast(pattern, 1, more, [Stretch(text, n)]);
    }
  }

  /** The matcher understands no other wildcards. */
  function Matched(pattern: string, path: string): Option<seq<Capture>> {
    if '?' in pattern || '[' in pattern then None else Captures(pattern, path)
  }

  /** What is still to be matched decides the whole, and adds to what is done. */
  ghost predicate Ahead(pattern: string, path: string, pp: nat, sp: nat, done: seq<Capture>) {
    && pp <= |pattern| && sp <= |path|
    && Captures(pattern, path) == match Captures(pattern[pp..], path[sp..])
                                  case None => None
                                  case Some(more) => Some(done + more)
  }

  lemma AheadAtStart(pattern: string, path: string)
    ensures Ahead(pattern, path, 0, 0, [])
  {
    assert pattern[0..] == pattern && path[0..] == path;
    if Captures(pattern, path).Some? {
      assert [] + Captures(pattern, path).value == Captures(pattern, path).value;
    }
  }

  lemma LiteralAhead(pattern: string, path: string, pp: nat, sp: nat, done: seq<Capture>, n: nat)
    requires Ahead(pattern, path, pp, sp, done) && n == Find(pattern[pp..], STAR) && n > 0
    ensures pattern[pp..][..n] <= path[sp..] ==> Ahead(pattern, path, pp + n, sp + n, done)
    ensures !(pattern[pp..][..n] <= path[sp..]) ==> Captures(pattern, path).None?
  {
    assert pattern[pp..][n..] == pattern[pp + n..];
    if pattern[pp..][..n] <= path[sp..] {
      assert path[sp..][n..] == path[sp + n..];
    }
  }

  lemma StarFirst(pattern: string, text: string)
    requires pattern != "" && pattern[0] == STAR
    ensures Captures(pattern, text) ==
            match StarLength(pattern[1..], text)
            case None => None
            case Some(n) =>
              match Captures(pattern[1..], text[n..])
              case None => None
              case Some(more) => Some([Stretch(text, n)] + more)
  {
    hide StarLength;
  }

  lemma StarAhead(pattern: string, path: string, pp: nat, sp: nat, done: seq<Capture>)
    requires Ahead(pattern, path, pp, sp, done) && pp < |pattern| && pattern[pp] == STAR
    ensures match StarLength(pattern[pp + 1..], path[sp..])
            case None => Captures(pattern, path).None?
            case Some(n) => Ahead(pattern, path, pp + 1, sp + n, done + [Stretch(path[sp..], n)])
  {
    var rest, text := pattern[pp + 1..], path[sp..];
    assert pattern[pp..][1..] == rest;
    StarFirst(pattern[pp..], text);
    hide StarLength;
    hide Captures;
    if StarLength(rest, text).Some? {
      var n := StarLength(rest, text).value;
      assert text[n..] == path[sp + n..];
      if Captures(rest, text[n..]).Some? {
        var more := Captures(rest, text[n..]).value;
        assert done + ([Stretch(text, n)] + more) == done + [Stretch(text, n)] + more;
      }
    }
  }

  /** Every place in turn; the last match stays. */
  method FindLast(text: string, literal: string) returns (found: Option<nat>)
    ensures found == LastIn(text, literal)
  {
    hide LastIn;
    found := None;
    var search := 0;
    while search + |literal| <= |text|
      invariant found == LastUpTo(text, literal, search)
    {
      if text[search..search + |literal|] == literal {
        found := Some(search);
      }
      search := search + 1;
    }
    NoLaterOccurrence(text, literal, search);
  }

  /** How much of the path a star stands for. */
  method MeasureStar(rest: string, text: string) returns (n: Option<nat>)
    ensures n == StarLength(rest, text)
  {
    hide LastIn;
    if rest == "" {
      return Some(|text|);
    }
    var end := Find(text, '/');
    if rest[0] == '/' {
      return if end == |text| then None else Some(end);
    }
    n := FindLast(text[..end], rest[..Min(Find(rest, STAR), Find(rest, '/'))]);
  }

  lemma {:induction false} NoLaterOccurrence(text: string, literal: string, n: nat)
    requires n + |literal| > |text|
    ensures LastIn(text, literal) == LastUpTo(text, literal, n)
  {
    var a, b := LastIn(text, literal), LastUpTo(text, literal, n);
    if a.Some? {
      assert OccursAt(text, literal, a.value);
    }
    if b.Some? {
      assert OccursAt(text, literal, b.value);
    }
  }

  /** The first captures, as many as there is room for. */
  predicate Kept(caps: seq<Capture>, done: seq<Capture>, maxcaps: nat) {
    caps == done[..Min(|done|, maxcaps)]
  }

  lemma KeepOne(caps: seq<Capture>, done: seq<Capture>, maxcaps: nat, c: Capture)
    requires Kept(caps, done, maxcaps)
    ensures Kept(if |caps| < maxcaps then caps + [c] else caps, done + [c], maxcaps)
  {
  }

  /** The literal up to the next star, compared and passed over. */
  method PassLiteral(pattern: string, path: string, pp: nat, sp: nat, ghost done: seq<Capture>)
    returns (ok: bool, n: nat)
    requires Ahead(pattern, path, pp, sp, done) && pp < |pattern|
    ensures !ok ==> Captures(pattern, path).None?
    ensures ok ==> Ahead(pattern, path, pp + n, sp + n, done) && (pattern[pp] != STAR ==> n > 0)
                   && (pp + n < |pattern| ==> pattern[pp + n] == STAR)
  {
    hide Captures;
    n := Find(pattern[pp..], STAR);
    if n == 0 {
      return true, 0;
    }
    LiteralAhead(pattern, path, pp, sp, done, n);
    ok := pattern[pp..][..n] <= path[sp..];
  }

  /** What a star stands for, kept when there is room. */
  method PassStar(pattern: string, path: string, pp: nat, sp: nat, caps: seq<Capture>, maxcaps: nat,
                  ghost done: seq<Capture>)
    returns (ok: bool, n: nat, kept: seq<Capture>, ghost more: seq<Capture>)
    requires Ahead(pattern, path, pp, sp, done) && pp < |pattern| && pattern[pp] == STAR && Kept(caps, done, maxcaps)
    ensures !ok ==> Captures(pattern, path).None?
    ensures ok ==> Ahead(pattern, path, pp + 1, sp + n, more) && Kept(kept, more, maxcaps)
  {
    hide Captures;
    hide StarLength;
    hide Kept;
    StarAhead(pattern, path, pp, sp, done);
    var measured := MeasureStar(pattern[pp + 1..], path[sp..]);
    ok, n, kept, more := measured.Some?, 0, caps, done;
    if ok {
      n := measured.value;
      var c: Capture := Stretch(path[sp..], n);
      KeepOne(caps, done, maxcaps, c);
      if |caps| < maxcaps {
        kept := caps + [c];
      }
      more := done + [c];
    }
  }

  /** The loop of the matcher. */
  method MatchStars(pattern: string, path: string, maxcaps: nat) returns (ok: bool, caps: seq<Capture>)
    ensures ok <==> Captures(pattern, path).Some?
    ensures ok ==> Kept(caps, Captures(pattern, path).value, maxcaps)
  {
    hide *;
    caps := [];
    var pp: nat, sp: nat := 0, 0;
    ghost var done: seq<Capture> := [];
    AheadAtStart(pattern, path);
    assert Kept([], [], maxcaps) by { KeepNone(maxcaps); }
    while pp < |pattern|
      invariant Ahead(pattern, path, pp, sp, done) && Kept(caps, done, maxcaps)
      decreases |pattern| - pp
    {
      var n;
      ok, n := PassLiteral(pattern, path, pp, sp, done);
      if !ok {
        return false, caps;
      }
      pp, sp := pp + n, sp + n;
      if pp < |pattern| {
        ok, n, caps, done := PassStar(pattern, path, pp, sp, caps, maxcaps, done);
        if !ok {
          return false, caps;
        }
        pp, sp := pp + 1, sp + n;
      }
    }
    AheadBounds(pattern, path, pp, sp, done);
    EndAhead(pattern, path, sp, done);
    ok := sp == |path|;
  }

  /** The matcher: the number of captures kept, or -1. Captures beyond `maxcaps` are matched
      but not kept. */
  method CaptureStars(pattern: string, path: string, maxcaps: nat) returns (count: int, caps: seq<Capture>)
    ensures count == -1 <==> Matched(pattern, path).None?
    ensures Matched(pattern, path).Some? ==> count == |caps| && Kept(caps, Matched(pattern, path).value, maxcaps)
  {
    hide Captures;
    hide Kept;
    if '?' in pattern || '[' in pattern {
      return -1, [];
    }
    var ok;
    ok, caps := MatchStars(pattern, path, maxcaps);
    count := if ok then |caps| else -1;
  }

  lemma AheadBounds(pattern: string, path: string, pp: nat, sp: nat, done: seq<Capture>)
    requires Ahead(pattern, path, pp, sp, done)
    ensures pp <= |pattern| && sp <= |path|
  {
    hide Captures;
  }

  lemma EndAhead(pattern: string, path: string, sp: nat, done: seq<Capture>)
    requires Ahead(pattern, path, |pattern|, sp, done)
    ensures Captures(pattern, path) == if sp == |path| then Some(done) else None
  {
    assert pattern[|pattern|..] == "" && done + [] == done;
  }

  lemma KeepNone(maxcaps: nat)
    ensures Kept([], [], maxcaps)
  {
  }

  /** What the matcher promises when there is room for every star. */
  lemma CapturesRebuildPath(pattern: string, path: string, caps: seq<Capture>, maxcaps: nat)
    requires Matched(pattern, path).Some? && Kept(caps, Matched(pattern, path).value, maxcaps)
    requires Stars(pattern) <= maxcaps
    ensures |caps| == Stars(pattern) && Fill(pattern, caps) == path && SlashOnlyLast(pattern, caps)
  {
    hide Captures;
    hide Fill;
    hide SlashOnlyLast;
    CapturesAreSound(pattern, path);
    assert caps == Matched(pattern, path).value;
  }
}
