/** Mapping a path back, from where it is to what an application names. */
module ReverseMapping {
  import opened Options
  import opened Paths
  import opened StarCapture
  import opened PathMapping
  import opened MappingChoice

  /** The best target so far: whose it is, how much of the path it matched, and its captures. */
  datatype BestBack = NoTarget | Target(index: nat, score: nat, caps: seq<Capture>)

  function ScoreOf(b: BestBack): nat { if b.NoTarget? then 0 else b.score }

  /** A wildcard target matches by its stars or by fnmatch, and then as the whole path. */
  predicate MatchesBack(to: string, path: string, globs: Globs) {
    if IsGlob(to) then StarCaptures(to, path).Some? || (to, path) in globs else Under(to, path)
  }

  function ConsiderTo(b: BestBack, i: nat, to: string, path: string, globs: Globs): BestBack {
    if !MatchesBack(to, path, globs) then b
    else if IsGlob(to) then
      if |path| < ScoreOf(b) then b
      else Target(i, |path|, if StarCaptures(to, path).Some? then StarCaptures(to, path).value else [])
    else if PathLen(to) > ScoreOf(b) then Target(i, PathLen(to), [])
    else b
  }

  function BestTo(ms: seq<Mapping>, n: nat, path: string, globs: Globs): (b: BestBack)
    requires n <= |ms|
    ensures b.Target? ==> b.index < n
  {
    if n == 0 then NoTarget else ConsiderTo(BestTo(ms, n - 1, path, globs), n - 1, ms[n - 1].to, path, globs)
  }

  /** Captures in place of the source's stars, with slashes around them where neither side has
      one. None when the buffer is too small. */
  function SubstitutedBack(from: string, i: nat, out: string, caps: seq<Capture>, size: nat): Option<string>
    requires i <= |from|
    decreases |from| - i
  {
    if i == |from| then Some(out)
    else if from[i] == '*' && caps != [] then
      var c := caps[0];
      var before := EndsOpen(out) && (c.rest == "" || c.rest[0] != '/');
      var out1 := out + Slash(before);
      if (before && |out1| >= size) || |out1| + c.length >= size then None
      else
        var out2 := out1 + Taken(c);
        var after := i + 1 < |from| && from[i + 1] != '/' && EndsOpen(out2);
        if after && |out2| + 1 >= size then None
        else SubstitutedBack(from, i + 1, out2 + Slash(after), caps[1..], size)
    else if |out| + 1 >= size then None
    else SubstitutedBack(from, i + 1, out + [from[i]], caps, size)
  }

  /** The source's stars are filled from the target's. */
  predicate FillsStars(m: Mapping, path: string) { '*' in m.from && StarCaptures(m.to, path).Some? }

  /** What comes of mapping a path back: the path as it came, another one, a buffer that starts
      with this text and is not terminated, or a copy of more bytes than there are. */
  datatype Back = Unchanged | MappedTo(text: string) | Unterminated(text: string) | Overrun

  predicate GoesWrong(b: Back) { b.Unterminated? || b.Overrun? }

  /** Lengths are counted in 64 bits. */
  const SIZE_T: nat := 0x1_0000_0000_0000_0000

  /** The sum that is held against the size of the buffer, as it wraps around. */
  function NeededBytes(m: Mapping, path: string): nat { (PathLen(m.from) + |path| + 1 - PathLen(m.to)) % SIZE_T }

  /** The target is cut off the path and the source put in its place, and the rest of the path
      copied with its terminator. When the target is the longer of the two, that rest wraps
      around: to no bytes at all when it is longer by one, and to nearly 2^64 otherwise. */
  function Fallback(m: Mapping, path: string, size: nat): Back {
    var f, n := PathLen(m.from), PathLen(m.to);
    if n > |path| then
      if NeededBytes(m, path) >= size then Unchanged
      else if n == |path| + 1 && f < size then Unterminated(m.from[..f])
      else Overrun
    else if f + |path| - n + 1 < size then MappedTo(m.from[..f] + path[n..])
    else Unchanged
  }

  function Reverse(ms: seq<Mapping>, path: string, size: nat, globs: Globs): Back {
    if path == "" || size < 2 then Unchanged
    else
      match BestTo(ms, |ms|, path, globs)
      case NoTarget => Unchanged
      case Target(i, _, caps) =>
        if caps != [] && '*' in ms[i].from then
          match SubstitutedBack(ms[i].from, 0, "", caps, size)
          case None => Unchanged
          case Some(text) => MappedTo(text)
        else Fallback(ms[i], path, size)
  }

  function AppliedBack(path: string, b: Back): string { if b.MappedTo? then b.text else path }

  /** How much of the path a target matches, if it matches. */
  function LengthBack(to: string, path: string, globs: Globs): Option<nat> {
    if !MatchesBack(to, path, globs) then None else Some(if IsGlob(to) then |path| else PathLen(to))
  }

  /** Mapping i's target matches, beats every match before it, and is beaten by none after it. */
  predicate WinsBack(ms: seq<Mapping>, n: nat, i: nat, path: string, globs: Globs)
    requires n <= |ms|
  {
    && i < n && LengthBack(ms[i].to, path, globs).Some?
    && var length := LengthBack(ms[i].to, path, globs).value;
    && Replaces(ms[i].to, length, 0)
    && forall k :: 0 <= k < n && k != i && LengthBack(ms[k].to, path, globs).Some? ==>
         var other := LengthBack(ms[k].to, path, globs).value;
         if k < i then Replaces(ms[i].to, length, other) else !Replaces(ms[k].to, other, length)
  }

  lemma ConsiderToByLength(b: BestBack, i: nat, to: string, path: string, globs: Globs)
    ensures var length := LengthBack(to, path, globs);
            ConsiderTo(b, i, to, path, globs)
            == if length.Some? && Replaces(to, length.value, ScoreOf(b))
               then Target(i, length.value, if StarCaptures(to, path).Some? then StarCaptures(to, path).value else [])
               else b
  {
    hide Under;
    hide PathLen;
    hide StarCaptures;
    hide HasStarsOnly;
    StarsAreCaptured(to, path);
  }

  /** The best target is the one that wins, and there is none only when nothing matches more
      than the root. */
  lemma {:induction false} BestToWins(ms: seq<Mapping>, n: nat, path: string, globs: Globs)
    requires n <= |ms|
    ensures var b := BestTo(ms, n, path, globs);
            && (b.Target? ==>
                  && WinsBack(ms, n, b.index, path, globs) && Some(b.score) == LengthBack(ms[b.index].to, path, globs)
                  && var caps := StarCaptures(ms[b.index].to, path);
                  && b.caps == (if caps.Some? then caps.value else []))
            && (b.NoTarget? ==> forall k :: 0 <= k < n && LengthBack(ms[k].to, path, globs).Some? ==>
                                  !Replaces(ms[k].to, LengthBack(ms[k].to, path, globs).value, 0))
  {
    hide ConsiderTo;
    hide LengthBack;
    hide StarCaptures;
    hide IsGlob;
    if n > 0 {
      BestToWins(ms, n - 1, path, globs);
      ConsiderToByLength(BestTo(ms, n - 1, path, globs), n - 1, ms[n - 1].to, path, globs);
    }
  }

  /** The target that wins is the one chosen. */
  lemma WinnerIsBestTo(ms: seq<Mapping>, i: nat, path: string, globs: Globs)
    requires WinsBack(ms, |ms|, i, path, globs)
    ensures BestTo(ms, |ms|, path, globs).Target? && BestTo(ms, |ms|, path, globs).index == i
  {
    hide LengthBack;
    hide IsGlob;
    BestToWins(ms, |ms|, path, globs);
  }

  /** The wildcard target of this mapping is longer than the path and does not fill the source's
      stars, and the sum that wraps around fits the buffer. */
  predicate TooLong(m: Mapping, path: string, size: nat) {
    IsGlob(m.to) && !FillsStars(m, path) && PathLen(m.to) > |path| && NeededBytes(m, path) < size
  }

  /** Mapping back goes wrong exactly when the target that wins is such a one. */
  lemma WrongExactlyWhen(ms: seq<Mapping>, path: string, size: nat, globs: Globs)
    ensures GoesWrong(Reverse(ms, path, size, globs))
            <==> && path != "" && size >= 2
                 && exists i: nat :: WinsBack(ms, |ms|, i, path, globs) && TooLong(ms[i], path, size)
  {
    hide WinsBack;
    hide StarCaptures;
    hide NeededBytes;
    BestToWins(ms, |ms|, path, globs);
    forall i: nat | WinsBack(ms, |ms|, i, path, globs)
      ensures BestTo(ms, |ms|, path, globs).Target? && BestTo(ms, |ms|, path, globs).index == i
    {
      WinnerIsBestTo(ms, i, path, globs);
    }
    var b := BestTo(ms, |ms|, path, globs);
    hide BestTo;
    if b.Target? {
      StarsAreCaptured(ms[b.index].to, path);
      MatchesWhenWins(ms, b.index, path, globs);
    }
  }

  lemma MatchesWhenWins(ms: seq<Mapping>, i: nat, path: string, globs: Globs)
    requires WinsBack(ms, |ms|, i, path, globs)
    ensures MatchesBack(ms[i].to, path, globs)
    ensures PathLen(ms[i].to) > |path| ==> IsGlob(ms[i].to)
  {
    hide StarCaptures;
  }

  lemma BracketLengths()
    ensures IsGlob("/a/[bc]") && IsGlob("/a/?") && IsGlob("/a/*")
    ensures PathLen("/a/[bc]") == 7 && PathLen("/a/?") == 4 && PathLen("/a/*") == 4
    ensures PathLen("/x") == 2 && PathLen("/y") == 2
  {
  }

  /** For instance `/x:/a/[bc]` for the path /a/b, which it matches. */
  lemma BracketOverruns(size: nat, globs: Globs)
    requires size >= 2 && ("/a/[bc]", "/a/b") in globs
    ensures Reverse([Mapping("/x", "/a/[bc]")], "/a/b", size, globs) == Overrun
  {
    hide PathLen;
    hide IsGlob;
    BracketLengths();
    var ms := [Mapping("/x", "/a/[bc]")];
    assert WinsBack(ms, 1, 0, "/a/b", globs);
    WinnerIsBestTo(ms, 0, "/a/b", globs);
    BestToWins(ms, 1, "/a/b", globs);
  }

  /** And with a star for the `[bc]` the path /a/ gets an answer without an end. */
  lemma StarIsUnterminated(size: nat, globs: Globs)
    requires size > 2 && ("/a/*", "/a/") in globs
    ensures Reverse([Mapping("/x", "/a/*")], "/a/", size, globs) == Unterminated("/x")
  {
    hide PathLen;
    hide IsGlob;
    hide StarCaptures;
    BracketLengths();
    var ms := [Mapping("/x", "/a/*")];
    assert WinsBack(ms, 1, 0, "/a/", globs);
    WinnerIsBestTo(ms, 0, "/a/", globs);
    BestToWins(ms, 1, "/a/", globs);
  }

  /** With `/y:/a/?` after it, which matches as much and is no longer than the path, all is
      well. */
  lemma LaterTargetIsFine(size: nat, globs: Globs)
    requires size > 3 && ("/a/[bc]", "/a/b") in globs && ("/a/?", "/a/b") in globs
    ensures Reverse([Mapping("/x", "/a/[bc]"), Mapping("/y", "/a/?")], "/a/b", size, globs) == MappedTo("/y")
  {
    hide PathLen;
    hide IsGlob;
    BracketLengths();
    var ms := [Mapping("/x", "/a/[bc]"), Mapping("/y", "/a/?")];
    assert WinsBack(ms, 2, 1, "/a/b", globs);
    WinnerIsBestTo(ms, 1, "/a/b", globs);
    BestToWins(ms, 2, "/a/b", globs);
    assert "/y"[..2] + "/a/b"[4..] == "/y";
  }

  lemma StarsAreCaptured(pattern: string, path: string)
    ensures StarCaptures(pattern, path).Some? ==>
            HasStarsOnly(pattern) && IsGlob(pattern) && StarCaptures(pattern, path).value != []
  {
    if StarCaptures(pattern, path).Some? {
      CapturesAreSound(pattern, path);
      StarIsCounted(pattern);
    }
  }

  lemma {:induction false} StarIsCounted(pattern: string)
    ensures STAR in pattern ==> Stars(pattern) > 0
  {
    if pattern != "" && pattern[0] != STAR {
      StarIsCounted(pattern[1..]);
    }
  }

  /** One target against the best so far. */
  method WeighBack(b: BestBack, i: nat, to: string, path: string, globs: Globs) returns (r: BestBack)
    ensures r == ConsiderTo(b, i, to, path, globs)
  {
    hide Captures;
    var score := if b.NoTarget? then 0 else b.score;
    r := b;
    if IsGlob(to) {
      var count: int, caps := -1, [];
      if '*' in to && '?' !in to && '[' !in to {
        count, caps := CaptureStars(to, path, MAX_CAPTURES);
      }
      if (count >= 0 || (to, path) in globs) && |path| >= score {
        r := Target(i, |path|, if count > 0 then caps else []);
      }
    } else {
      var under := PrefixMatches(to, path);
      if under {
        var n := PathLength(to);
        if n > score {
          r := Target(i, n, []);
        }
      }
    }
  }

  method FindTo(ms: seq<Mapping>, path: string, globs: Globs) returns (b: BestBack)
    ensures b == BestTo(ms, |ms|, path, globs)
  {
    hide ConsiderTo;
    b := NoTarget;
    for i := 0 to |ms|
      invariant b == BestTo(ms, i, path, globs)
    {
      b := WeighBack(b, i, ms[i].to, path, globs);
    }
  }

  /** The rest of the work, one character or star further on. */
  ghost predicate ContinuesBack(from: string, i: nat, text: string, caps: seq<Capture>, size: nat,
                                whole: Option<string>) {
    i <= |from| && SubstitutedBack(from, i, text, caps, size) == whole
  }

  /** What is left to do from a star on. */
  lemma StarContinuesBack(from: string, i: nat, text: string, caps: seq<Capture>, size: nat, whole: Option<string>)
    requires ContinuesBack(from, i, text, caps, size, whole) && i < |from| && from[i] == '*' && caps != []
    ensures var c := caps[0];
            var before := EndsOpen(text) && (c.rest == "" || c.rest[0] != '/');
            var out1 := text + Slash(before);
            var out2 := out1 + Taken(c);
            var after := i + 1 < |from| && from[i + 1] != '/' && EndsOpen(out2);
            if (before && |out1| >= size) || |out1| + c.length >= size || (after && |out2| + 1 >= size) then whole.None?
            else ContinuesBack(from, i + 1, out2 + Slash(after), caps[1..], size, whole)
  {
  }

  /** One star of the source. */
  method StarBackInto(out: array<char>, pos: nat, from: string, i: nat, caps: seq<Capture>, ghost whole: Option<string>)
    returns (ok: bool, end: nat)
    requires i < |from| && from[i] == '*' && caps != [] && pos <= out.Length
    requires ContinuesBack(from, i, out[..pos], caps, out.Length, whole)
    modifies out
    ensures !ok ==> whole.None?
    ensures ok ==> end < out.Length && ContinuesBack(from, i + 1, out[..end], caps[1..], out.Length, whole)
  {
    StarContinuesBack(from, i, out[..pos], caps, out.Length, whole);
    hide ContinuesBack;
    var c := caps[0];
    ok, end := false, pos;
    var before := pos > 0 && out[pos - 1] != '/' && (c.rest == "" || c.rest[0] != '/');
    ok, end := CaptureInto(out, pos, before, c);
    if !ok {
      return;
    }
    var after := i + 1 < |from| && from[i + 1] != '/' && end > 0 && out[end - 1] != '/';
    if after && end + 1 >= out.Length {
      return false, end;
    }
    end := PushSlash(out, end, after);
  }

  method SubstituteBackInto(out: array<char>, from: string, caps: seq<Capture>) returns (ok: bool)
    requires out.Length > 0
    modifies out
    ensures ok <==> SubstitutedBack(from, 0, "", caps, out.Length).Some?
    ensures ok ==> Terminated(out[..], SubstitutedBack(from, 0, "", caps, out.Length).value)
  {
    ghost var whole := SubstitutedBack(from, 0, "", caps, out.Length);
    var pos: nat, left := 0, caps;
    assert out[..0] == "";
    for i := 0 to |from|
      invariant pos < out.Length && ContinuesBack(from, i, out[..pos], left, out.Length, whole)
    {
      if from[i] == '*' && left != [] {
        ok, pos := StarBackInto(out, pos, from, i, left, whole);
        if !ok {
          return;
        }
        left := left[1..];
      } else {
        if pos + 1 >= out.Length {
          return false;
        }
        pos := Push(out, pos, from[i]);
      }
    }
    out[pos] := NUL;
    ok := true;
  }

  /** Reverse mapping, up to the copy that overruns, which is not made here. */
  method ApplyReverse(ms: seq<Mapping>, path: string, out: array<char>, globs: Globs) returns (r: Back)
    modifies out
    ensures r == Reverse(ms, path, out.Length, globs)
    ensures r.MappedTo? ==> Terminated(out[..], r.text)
    ensures r.Unterminated? ==> r.text <= out[..] && out[|r.text|..] == old(out[|r.text|..])
  {
    hide Terminated;
    hide SubstitutedBack;
    if path == "" || out.Length < 2 {
      return Unchanged;
    }
    var b := FindTo(ms, path, globs);
    if b.NoTarget? {
      return Unchanged;
    }
    var m := ms[b.index];
    if b.caps != [] && '*' in m.from {
      var ok := SubstituteBackInto(out, m.from, b.caps);
      return if ok then MappedTo(SubstitutedBack(m.from, 0, "", b.caps, out.Length).value) else Unchanged;
    }
    r := FallbackInto(out, m, path);
  }

  /** The text at the front of the buffer, and no terminator. */
  method FrontInto(out: array<char>, text: string)
    requires |text| <= out.Length
    modifies out
    ensures out[..|text|] == text && out[|text|..] == old(out[|text|..])
  {
    for i := 0 to |text|
      invariant out[..i] == text[..i]
      invariant out[|text|..] == old(out[|text|..])
    {
      out[i] := text[i];
    }
  }

  lemma WrapsAlike(from: nat, length: nat, to: nat)
    ensures (from + (length - to) % SIZE_T + 1) % SIZE_T == (from + length + 1 - to) % SIZE_T
  {
  }

  method FallbackInto(out: array<char>, m: Mapping, path: string) returns (r: Back)
    modifies out
    ensures r == Fallback(m, path, out.Length)
    ensures r.MappedTo? ==> Terminated(out[..], r.text)
    ensures r.Unterminated? ==> r.text <= out[..] && out[|r.text|..] == old(out[|r.text|..])
  {
    hide Terminated;
    hide PathLen;
    var toLength := PathLength(m.to);
    var fromLength := PathLength(m.from);
    if toLength <= |path| {
      var text := m.from[..fromLength] + path[toLength..];
      var ok := TextInto(out, text);
      return if ok then MappedTo(text) else Unchanged;
    }
    var tailLength := (|path| - toLength) % SIZE_T;
    WrapsAlike(fromLength, |path|, toLength);
    if (fromLength + tailLength + 1) % SIZE_T >= out.Length {
      return Unchanged;
    }
    if toLength != |path| + 1 || fromLength >= out.Length {
      return Overrun;
    }
    FrontInto(out, m.from[..fromLength]);
    r := Unterminated(m.from[..fromLength]);
  }
}
