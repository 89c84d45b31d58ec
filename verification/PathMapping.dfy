/** Mapping a path forward, from what an application names to where that is. */
module PathMapping {
  import opened Options
  import opened Paths
  import opened StarCapture

  datatype Mapping = Mapping(from: string, to: string)

  const MAX_CAPTURES: nat := 8

  predicate IsGlob(s: string) { '*' in s || '?' in s || '[' in s }

  /** Answers of fnmatch, as (pattern, path) pairs that match. */
  type Globs = set<(string, string)>

  /** The best match so far: whose it is, how much of the path it matched, the rest of the
      path, whether that rest was captured by a star, and the captures. Captures stay when
      a prefix later wins. */
  datatype Best = NoMatch | Best(index: nat, length: nat, tail: string, captured: bool, caps: seq<Capture>)

  function LengthOf(b: Best): nat { if b.NoMatch? then 0 else b.length }

  function CapsOf(b: Best): seq<Capture> { if b.NoMatch? then [] else b.caps }

  predicate OneStarOnly(from: string) {
    '*' in from && '?' !in from && '[' !in from && '*' !in from[Find(from, '*') + 1..]
  }

  /** The single star's stretch: to the end, or up to the next slash. */
  function TailCapture(from: string, rest: string): Capture
    requires OneStarOnly(from)
  {
    Stretch(rest, if Find(from, '*') + 1 == |from| then |rest| else Find(rest, '/'))
  }

  /** Stars, and no other wildcards. */
  predicate HasStarsOnly(s: string) { '*' in s && '?' !in s && '[' !in s }

  /** The captures that are kept of a pattern with nothing but stars. */
  function StarCaptures(pattern: string, path: string): Option<seq<Capture>> {
    if !HasStarsOnly(pattern) then None
    else
      match Captures(pattern, path)
      case None => None
      case Some(caps) => Some(caps[..Min(|caps|, MAX_CAPTURES)])
  }

  /** With no stars to look at, or wildcards of other kinds, no captures are asked for, and
      the pattern passes. */
  function GlobCaptures(from: string, path: string): Option<seq<Capture>> {
    if HasStarsOnly(from) then StarCaptures(from, path) else Some([])
  }

  function ConsiderOneStar(b: Best, i: nat, from: string, path: string): Best
    requires OneStarOnly(from)
  {
    var n := Find(from, '*');
    if from[..n] <= path && n >= LengthOf(b) then Best(i, n, path[n..], true, [TailCapture(from, path[n..])]) else b
  }

  function ConsiderGlob(b: Best, i: nat, from: string, path: string, globs: Globs): Best {
    var caps := GlobCaptures(from, path);
    if (caps.Some? || (from, path) in globs) && |path| >= LengthOf(b)
    then Best(i, |path|, "", false, if caps.Some? then caps.value else [])
    else b
  }

  function ConsiderPrefix(b: Best, i: nat, from: string, path: string): Best {
    var n := PathLen(from);
    if Under(from, path) && n > LengthOf(b) then Best(i, n, path[n..], false, CapsOf(b)) else b
  }

  function Consider(b: Best, i: nat, from: string, path: string, globs: Globs): Best {
    if !IsGlob(from) then ConsiderPrefix(b, i, from, path)
    else if OneStarOnly(from) then ConsiderOneStar(b, i, from, path)
    else ConsiderGlob(b, i, from, path, globs)
  }

  /** The best among the first n mappings. */
  function BestOf(ms: seq<Mapping>, n: nat, path: string, globs: Globs): (b: Best)
    requires n <= |ms|
    ensures b.Best? ==> b.index < n
  {
    if n == 0 then NoMatch else Consider(BestOf(ms, n - 1, path, globs), n - 1, ms[n - 1].from, path, globs)
  }

  predicate EndsOpen(s: string) { s != "" && s[|s| - 1] != '/' }

  predicate StartsOpen(s: string) { s != "" && s[0] != '/' }

  function Slash(needed: bool): string { if needed then "/" else "" }

  /** Stars replaced in order, with slashes put in where a star is a whole segment. None when
      the buffer is too small. */
  function Substituted(to: string, i: nat, out: string, caps: seq<Capture>, size: nat): Option<string>
    requires i <= |to|
    decreases |to| - i
  {
    if i == |to| then Some(out)
    else if to[i] == '*' && caps != [] then
      var c := caps[0];
      var before := EndsOpen(out) && (c.rest == "" || c.rest[0] != '/') && i > 0 && to[i - 1] == '/';
      var out1 := out + Slash(before);
      if (before && |out1| >= size) || |out1| + c.length >= size then None
      else
        var out2 := out1 + Taken(c);
        if i + 1 < |to| && to[i + 1] == '/' then
          if EndsOpen(out2) && |out2| + 1 >= size then None
          else Substituted(to, i + 2, out2 + Slash(EndsOpen(out2)), caps[1..], size)
        else Substituted(to, i + 1, out2, caps[1..], size)
    else if |out| + 1 >= size then None
    else Substituted(to, i + 1, out + [to[i]], caps, size)
  }

  /** The target and the rest of the path, with a slash between them when neither has one. */
  function JoinedTo(to: string, tail: string): string { to + Slash(EndsOpen(to) && StartsOpen(tail)) + tail }

  /** The rest of the path in place of the target's first star. */
  function TailInserted(to: string, tail: string): string
    requires '*' in to
  {
    var star := Find(to, '*');
    var left, right := to[..star], to[star + 1..];
    left + Slash(EndsOpen(left) && StartsOpen(tail)) + tail + Slash(EndsOpen(tail) && StartsOpen(right)) + right
  }

  /** What a match makes of the path; None when the buffer is too small. */
  function Joined(to: string, b: Best, size: nat): Option<string>
    requires b.Best?
  {
    if b.caps != [] then Substituted(to, 0, "", b.caps, size)
    else if b.captured && '*' in to && |TailInserted(to, b.tail)| + 1 < size then Some(TailInserted(to, b.tail))
    else if |JoinedTo(to, b.tail)| + 1 < size then Some(JoinedTo(to, b.tail))
    else None
  }

  predicate UnderSomeTo(ms: seq<Mapping>, path: string) { exists m <- ms :: Under(m.to, path) }

  /** Forward: None when the path is returned as it came. */
  function Forward(ms: seq<Mapping>, path: string, size: nat, globs: Globs): Option<string> {
    if UnderSomeTo(ms, path) then None
    else
      match BestOf(ms, |ms|, path, globs)
      case NoMatch => None
      case Best(i, length, tail, captured, caps) => Joined(ms[i].to, BestOf(ms, |ms|, path, globs), size)
  }

  function Applied(path: string, mapped: Option<string>): string { if mapped.Some? then mapped.value else path }

  /** A target with no stars is copied out as it is. */
  lemma {:induction false} NoStarsToReplace(to: string, i: nat, out: string, caps: seq<Capture>, size: nat)
    requires i <= |to| && '*' !in to
    ensures Substituted(to, i, out, caps, size).Some? ==> Substituted(to, i, out, caps, size) == Some(out + to[i..])
    ensures |out| + |to| - i < size ==> Substituted(to, i, out, caps, size).Some?
    decreases |to| - i
  {
    if i < |to| {
      NoStarsToReplace(to, i + 1, out + [to[i]], caps, size);
      assert out + [to[i]] + to[i + 1..] == out + to[i..];
    } else {
      assert out + to[i..] == out;
    }
  }

  lemma UnderItself(to: string)
    ensures Under(to, to)
  {
  }

  lemma JoinedIsUnder(to: string, tail: string)
    requires to != ""
    ensures Under(to, JoinedTo(to, tail))
  {
    var n := PathLen(to);
    assert to[..n] <= JoinedTo(to, tail);
  }

  /** Every way of joining gives a path under the target. */
  lemma OutputIsUnder(to: string, b: Best, size: nat)
    requires b.Best? && '*' !in to && to != ""
    ensures Joined(to, b, size).Some? ==> Under(to, Joined(to, b, size).value)
  {
    hide Under;
    if b.caps != [] {
      NoStarsToReplace(to, 0, "", b.caps, size);
      assert "" + to[0..] == to;
      UnderItself(to);
    } else {
      JoinedIsUnder(to, b.tail);
    }
  }

  /** When no target has a star, mapping a second time changes nothing, whatever the
      patterns on the other side are. */
  lemma ForwardIsIdempotent(ms: seq<Mapping>, path: string, size: nat, size': nat, globs: Globs)
    requires forall m <- ms :: '*' !in m.to && m.to != ""
    ensures var once := Applied(path, Forward(ms, path, size, globs));
            && (Forward(ms, path, size, globs).Some? ==> Forward(ms, once, size', globs).None?)
            && Applied(once, Forward(ms, once, size, globs)) == once
  {
    hide Under;
    hide Joined;
    if Forward(ms, path, size, globs).Some? {
      var b := BestOf(ms, |ms|, path, globs);
      assert ms[b.index] in ms;
      OutputIsUnder(ms[b.index].to, b, size);
    }
  }

  /** One mapping against the best so far. */
  method Weigh(b: Best, i: nat, from: string, path: string, globs: Globs) returns (r: Best)
    ensures r == Consider(b, i, from, path, globs)
  {
    hide Captures;
    var length := if b.NoMatch? then 0 else b.length;
    r := b;
    if IsGlob(from) {
      if OneStarOnly(from) {
        var n := Find(from, '*');
        if from[..n] <= path && n >= length {
          var rest := path[n..];
          var slash := Find(rest, '/');
          r := Best(i, n, rest, true, [Stretch(rest, if n + 1 == |from| then |rest| else slash)]);
        }
      } else {
        var count: int, caps := 0, [];
        if '*' in from && '?' !in from && '[' !in from {
          count, caps := CaptureStars(from, path, MAX_CAPTURES);
        }
        if (count >= 0 || (from, path) in globs) && |path| >= length {
          r := Best(i, |path|, "", false, if count > 0 then caps else []);
        }
      }
    } else {
      var under := PrefixMatches(from, path);
      if under {
        var n := PathLength(from);
        if n > length {
          r := Best(i, n, path[n..], false, CapsOf(b));
        }
      }
    }
  }

  method FindBest(ms: seq<Mapping>, path: string, globs: Globs) returns (b: Best)
    ensures b == BestOf(ms, |ms|, path, globs)
  {
    hide Consider;
    b := NoMatch;
    for i := 0 to |ms|
      invariant b == BestOf(ms, i, path, globs)
    {
      b := Weigh(b, i, ms[i].from, path, globs);
    }
  }

  method AlreadyMapped(ms: seq<Mapping>, path: string) returns (r: bool)
    ensures r == UnderSomeTo(ms, path)
  {
    hide Under;
    for i := 0 to |ms|
      invariant forall j :: 0 <= j < i ==> !Under(ms[j].to, path)
    {
      r := PrefixMatches(ms[i].to, path);
      if r {
        assert ms[i] in ms;
        return true;
      }
    }
    r := false;
  }

  /** A buffer that starts with a text and a terminator. */
  predicate Terminated(buffer: seq<char>, s: string) {
    |s| < |buffer| && buffer[..|s|] == s && buffer[|s|] == NUL
  }

  method Push(out: array<char>, pos: nat, c: char) returns (end: nat)
    requires pos + 1 < out.Length
    modifies out
    ensures end == pos + 1 && out[..end] == old(out[..pos]) + [c]
  {
    out[pos] := c;
    end := pos + 1;
  }

  method PushSlash(out: array<char>, pos: nat, needed: bool) returns (end: nat)
    requires needed ==> pos + 1 < out.Length
    requires pos <= out.Length
    modifies out
    ensures end == pos + |Slash(needed)| && out[..end] == old(out[..pos]) + Slash(needed)
  {
    end := pos;
    if needed {
      end := Push(out, pos, '/');
    }
  }

  /** A capture, after a slash when one is needed, if it fits. */
  method CaptureInto(out: array<char>, pos: nat, before: bool, c: Capture) returns (ok: bool, end: nat)
    requires pos <= out.Length
    modifies out
    ensures ok <==> (before ==> pos + 1 < out.Length) && pos + |Slash(before)| + c.length < out.Length
    ensures ok ==> end < out.Length && out[..end] == old(out[..pos]) + Slash(before) + Taken(c)
  {
    ok, end := false, pos;
    if before && pos + 1 >= out.Length {
      return;
    }
    end := PushSlash(out, pos, before);
    if end + c.length >= out.Length {
      return;
    }
    end := Append(out, end, c.rest[..c.length]);
    ok := true;
  }

  /** The rest of the work, one character or star further on. */
  ghost predicate Continues(to: string, i: nat, text: string, caps: seq<Capture>, size: nat, whole: Option<string>) {
    i <= |to| && Substituted(to, i, text, caps, size) == whole
  }

  /** What is left to do from a star on. */
  lemma StarContinues(to: string, i: nat, text: string, caps: seq<Capture>, size: nat, whole: Option<string>)
    requires Continues(to, i, text, caps, size, whole) && i < |to| && to[i] == '*' && caps != []
    ensures var c := caps[0];
            var before := EndsOpen(text) && (c.rest == "" || c.rest[0] != '/') && i > 0 && to[i - 1] == '/';
            var out1 := text + Slash(before);
            var out2 := out1 + Taken(c);
            var slash := i + 1 < |to| && to[i + 1] == '/';
            if (before && |out1| >= size) || |out1| + c.length >= size
               || (slash && EndsOpen(out2) && |out2| + 1 >= size)
            then whole.None?
            else if slash then Continues(to, i + 2, out2 + Slash(EndsOpen(out2)), caps[1..], size, whole)
            else Continues(to, i + 1, out2, caps[1..], size, whole)
  {
  }

  /** One star of the target. */
  method StarInto(out: array<char>, pos: nat, to: string, i: nat, caps: seq<Capture>, ghost whole: Option<string>)
    returns (ok: bool, end: nat, next: nat)
    requires i < |to| && to[i] == '*' && caps != [] && pos <= out.Length
    requires Continues(to, i, out[..pos], caps, out.Length, whole)
    modifies out
    ensures !ok ==> whole.None?
    ensures ok ==> i < next && end < out.Length
                   && Continues(to, next, out[..end], caps[1..], out.Length, whole)
  {
    StarContinues(to, i, out[..pos], caps, out.Length, whole);
    hide Continues;
    var c := caps[0];
    ok, end, next := false, pos, i + 1;
    var before := pos > 0 && out[pos - 1] != '/' && (c.rest == "" || c.rest[0] != '/') && i > 0 && to[i - 1] == '/';
    ok, end := CaptureInto(out, pos, before, c);
    if !ok {
      return;
    }
    if i + 1 < |to| && to[i + 1] == '/' {
      var after := end > 0 && out[end - 1] != '/';
      if after && end + 1 >= out.Length {
        return false, end, next;
      }
      end := PushSlash(out, end, after);
      next := i + 2;
    }
  }

  method SubstituteInto(out: array<char>, to: string, caps: seq<Capture>) returns (ok: bool)
    requires to != ""
    modifies out
    ensures ok <==> Substituted(to, 0, "", caps, out.Length).Some?
    ensures ok ==> Terminated(out[..], Substituted(to, 0, "", caps, out.Length).value)
  {
    ghost var whole := Substituted(to, 0, "", caps, out.Length);
    var pos: nat, i: nat, left := 0, 0, caps;
    assert out[..0] == "";
    while i < |to|
      invariant pos <= out.Length && (pos < out.Length || i == 0)
                && Continues(to, i, out[..pos], left, out.Length, whole)
      decreases |to| - i
    {
      if to[i] == '*' && left != [] {
        ok, pos, i := StarInto(out, pos, to, i, left, whole);
        if !ok {
          return;
        }
        left := left[1..];
      } else {
        if pos + 1 >= out.Length {
          return false;
        }
        pos := Push(out, pos, to[i]);
        i := i + 1;
      }
    }
    out[pos] := NUL;
    ok := true;
  }

  /** Write out a text, when it fits. */
  method TextInto(out: array<char>, text: string) returns (ok: bool)
    modifies out
    ensures ok <==> |text| + 1 < out.Length
    ensures ok ==> Terminated(out[..], text)
  {
    ok := |text| + 1 < out.Length;
    if ok {
      var end := Append(out, 0, text);
      assert out[..end] == text;
      out[end] := NUL;
    }
  }

  /** The match written out: its captures in the target, or the rest of the path in place of
      the target's star or after it. */
  method JoinInto(out: array<char>, to: string, b: Best) returns (ok: bool)
    requires to != "" && b.Best?
    modifies out
    ensures ok <==> Joined(to, b, out.Length).Some?
    ensures ok ==> Terminated(out[..], Joined(to, b, out.Length).value)
  {
    hide Substituted;
    hide TailInserted;
    hide JoinedTo;
    hide Terminated;
    if b.caps != [] {
      ok := SubstituteInto(out, to, b.caps);
      return;
    }
    if b.captured && '*' in to {
      ok := TextInto(out, TailInserted(to, b.tail));
      if ok {
        return;
      }
    }
    ok := TextInto(out, JoinedTo(to, b.tail));
  }

  /** Forward mapping: whether the path is mapped, and then where to. */
  method ApplyMapping(ms: seq<Mapping>, path: string, out: array<char>, globs: Globs) returns (mapped: bool)
    requires forall m <- ms :: m.to != ""
    modifies out
    ensures mapped <==> Forward(ms, path, out.Length, globs).Some?
    ensures mapped ==> Terminated(out[..], Forward(ms, path, out.Length, globs).value)
  {
    hide Joined;
    hide Terminated;
    hide UnderSomeTo;
    var already := AlreadyMapped(ms, path);
    if already {
      return false;
    }
    var b := FindBest(ms, path, globs);
    if b.NoMatch? {
      return false;
    }
    assert ms[b.index] in ms;
    mapped := JoinInto(out, ms[b.index].to, b);
  }
}
