/** Mappings as texts: what is cut off a path and what is put in its place, without stars. */
module PrefixMappings {
  import opened Options
  import opened Paths
  import opened PathMapping
  import opened MappingChoice
  import opened ReverseMapping

  predicate Slashes(s: string) { forall c <- s :: c == '/' }

  /** Text that ends before any slashes at its end. */
  predicate IsTrimmed(s: string) { s == "" || s[|s| - 1] != '/' }

  lemma {:induction false} SlashesAreCut(s: string, slashes: string)
    requires IsTrimmed(s) && Slashes(slashes)
    ensures PathLen(s + slashes) == |s| && (s + slashes)[..|s|] == s
  {
    var t := s + slashes;
    assert t[..|s|] == s;
    if slashes != "" {
      var n := |slashes| - 1;
      assert slashes[n] in slashes && t[|t| - 1] == slashes[n];
      assert t[..|t| - 1] == s + slashes[..n];
      forall c | c in slashes[..n] ensures c == '/' {
        assert c in slashes;
      }
      SlashesAreCut(s, slashes[..n]);
    }
  }

  /** Without patterns no captures are left behind. */
  lemma {:induction false} NoneAreLeft(ms: seq<Mapping>, n: nat, path: string, globs: Globs)
    requires n <= |ms| && forall m <- ms :: !IsGlob(m.from)
    ensures CapsOf(BestOf(ms, n, path, globs)) == []
  {
    hide Under;
    hide PathLen;
    hide ConsiderOneStar;
    hide ConsiderGlob;
    if n > 0 {
      NoneAreLeft(ms, n - 1, path, globs);
      assert ms[n - 1] in ms;
    }
  }

  /** Without patterns the source that wins, less the slashes at its end, is cut off the path, and the
      target put in its place as it is, exactly when there is room. */
  lemma PrefixGoes(ms: seq<Mapping>, i: nat, size: nat, globs: Globs, f: string, slashes: string, rest: string)
    requires IsTrimmed(f) && Slashes(slashes) && (forall m <- ms :: !IsGlob(m.from))
    requires Wins(ms, |ms|, i, f + rest, globs) && ms[i].from == f + slashes && !UnderSomeTo(ms, f + rest)
    ensures f != "" && (rest == "" || rest[0] == '/')
    ensures Forward(ms, f + rest, size, globs)
            == if |ms[i].to| + |rest| + 1 < size then Some(ms[i].to + rest) else None
  {
    var path, to := f + rest, ms[i].to;
    SlashesAreCut(f, slashes);
    assert ms[i] in ms && path[..|f|] == f && path[|f|..] == rest;
    assert to + "" == to;
    NoneAreLeft(ms, |ms|, path, globs);
    hide BestOf;
    hide PathLen;
    WinnerIsBest(ms, i, path, globs);
    BestWins(ms, |ms|, path, globs);
  }

  /** Where no stars are filled, the target that wins, less the slashes at its end, is cut off by its
      length, and the source, less its own, put in its place, exactly when there is room. A target
      without wildcards is what was cut off. */
  lemma PrefixComesBack(ms: seq<Mapping>, i: nat, path: string, size: nat, globs: Globs, f: string, t: string,
                        fs: string, ts: string)
    requires IsTrimmed(f) && IsTrimmed(t) && Slashes(fs) && Slashes(ts) && path != "" && size >= 2
    requires WinsBack(ms, |ms|, i, path, globs) && ms[i] == Mapping(f + fs, t + ts) && !FillsStars(ms[i], path)
    requires |t| <= |path|
    ensures Reverse(ms, path, size, globs)
            == if |f| + |path| - |t| + 1 < size then MappedTo(f + path[|t|..]) else Unchanged
    ensures !IsGlob(t + ts) ==> path[..|t|] == t && path == t + path[|t|..]
  {
    SlashesAreCut(f, fs);
    SlashesAreCut(t, ts);
    FallbackIsTaken(ms, i, path, size, globs);
    MatchesWhenWins(ms, i, path, globs);
    hide WinsBack;
    hide Reverse;
    hide PathLen;
    hide StarCaptures;
  }

  lemma FallbackIsTaken(ms: seq<Mapping>, i: nat, path: string, size: nat, globs: Globs)
    requires WinsBack(ms, |ms|, i, path, globs) && !FillsStars(ms[i], path) && path != "" && size >= 2
    ensures Reverse(ms, path, size, globs) == Fallback(ms[i], path, size)
  {
    WinnerIsBestTo(ms, i, path, globs);
    BestToWins(ms, |ms|, path, globs);
    hide WinsBack;
    hide BestTo;
    hide StarCaptures;
    hide Fallback;
    hide SubstitutedBack;
  }

  /** A wildcard target longer than the path: the path is left alone exactly when the target is longer
      than source and path together or there is no room; of the others, one that is longer by one
      leaves the source without an end, and any longer one lets the copy run on. */
  lemma LongerComesBack(ms: seq<Mapping>, i: nat, path: string, size: nat, globs: Globs, f: string, t: string,
                        fs: string, ts: string)
    requires IsTrimmed(f) && IsTrimmed(t) && Slashes(fs) && Slashes(ts) && path != "" && size >= 2
    requires WinsBack(ms, |ms|, i, path, globs) && ms[i] == Mapping(f + fs, t + ts) && !FillsStars(ms[i], path)
    requires |t| > |path| && |f| + |path| + |t| + size < SIZE_T
    ensures Reverse(ms, path, size, globs)
            == if |t| > |f| + |path| + 1 || |f| + |path| + 1 - |t| >= size then Unchanged
               else if |t| == |path| + 1 then Unterminated(f)
               else Overrun
  {
    SlashesAreCut(f, fs);
    SlashesAreCut(t, ts);
    FallbackIsTaken(ms, i, path, size, globs);
    hide WinsBack;
    hide Reverse;
    hide PathLen;
    hide StarCaptures;
    WrapsTo(|f| + |path| + 1 - |t|);
  }

  lemma WrapsTo(x: int)
    requires 0 <= x + SIZE_T && x < SIZE_T
    ensures x % SIZE_T == if x < 0 then x + SIZE_T else x
  {
  }
}
