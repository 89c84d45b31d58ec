/** Without wildcards, mapping forward and mapping back undo each other. */
module RoundTrips {
  import opened Paths
  import opened PathMapping
  import opened ReverseMapping

  /** A side without wildcards that names something below the root. */
  predicate PlainSide(s: string) { !IsGlob(s) && s != "" && PathLen(s) == |s| }

  predicate Plain(ms: seq<Mapping>) { forall m <- ms :: PlainSide(m.from) && PlainSide(m.to) }

  /** No target is another one's parent. */
  predicate TargetsApart(ms: seq<Mapping>) {
    forall i, j :: 0 <= i < |ms| && 0 <= j < |ms| && i != j ==> !Under(ms[i].to, ms[j].to)
  }

  predicate Comparable(a: string, b: string) { Under(a, b) || Under(b, a) }

  /** Of two parents of one path one is the other's parent. */
  lemma ParentsCompare(a: string, b: string, path: string)
    requires PathLen(a) == |a| && PathLen(b) == |b| && Under(a, path) && Under(b, path)
    ensures Comparable(a, b)
  {
    assert a[..|a|] == a && b[..|b|] == b;
    if |a| <= |b| {
      assert b[..|a|] == path[..|b|][..|a|] == a;
    } else {
      assert a[..|b|] == path[..|a|][..|b|] == b;
    }
  }

  /** Without wildcards the best match is one the path is under, if there is any. */
  lemma {:induction false} PlainBest(ms: seq<Mapping>, n: nat, path: string, globs: Globs)
    requires n <= |ms| && Plain(ms)
    ensures var b := BestOf(ms, n, path, globs);
            && (b.NoMatch? ==> forall i :: 0 <= i < n ==> !Under(ms[i].from, path))
            && (b.Best? ==>
                  && Under(ms[b.index].from, path) && b.length == |ms[b.index].from|
                  && b.tail == path[b.length..] && !b.captured && b.caps == [])
  {
    hide Under;
    hide ConsiderGlob;
    hide ConsiderOneStar;
    hide PathLen;
    if n > 0 {
      PlainBest(ms, n - 1, path, globs);
      assert ms[n - 1] in ms;
    }
  }

  /** Without wildcards the best target is one the path is under, if there is any. */
  lemma {:induction false} PlainBestTo(ms: seq<Mapping>, n: nat, path: string, globs: Globs)
    requires n <= |ms| && Plain(ms)
    ensures var b := BestTo(ms, n, path, globs);
            && (b.NoTarget? ==> forall i :: 0 <= i < n ==> !Under(ms[i].to, path))
            && (b.Target? ==> Under(ms[b.index].to, path) && b.caps == [])
  {
    hide Under;
    hide PathLen;
    hide StarCaptures;
    if n > 0 {
      PlainBestTo(ms, n - 1, path, globs);
      assert ms[n - 1] in ms;
    }
  }

  /** Moving a path from under `from` to under `to`. */
  function Moved(from: string, to: string, path: string): string
    requires |from| <= |path|
  {
    to + path[|from|..]
  }

  lemma MovedIsUnder(from: string, to: string, path: string)
    requires PlainSide(from) && PlainSide(to) && Under(from, path)
    ensures |from| <= |path|
    ensures Under(to, Moved(from, to, path)) && |to| <= |Moved(from, to, path)|
    ensures Moved(to, from, Moved(from, to, path)) == path
    ensures JoinedTo(to, path[|from|..]) == Moved(from, to, path)
  {
    var out := Moved(from, to, path);
    assert to[..|to|] == to && out[..|to|] == to && out[|to|..] == path[|from|..];
    assert from[..|from|] == from && from + path[|from|..] == path;
  }

  /** Enough room for any of the results. */
  predicate Roomy(ms: seq<Mapping>, path: string, size: nat) {
    size >= 2 && forall m <- ms :: |m.from| + |path| + |m.to| + 1 < size
  }

  lemma ForwardMoves(ms: seq<Mapping>, path: string, size: nat, globs: Globs)
    requires Plain(ms) && Roomy(ms, path, size) && !UnderSomeTo(ms, path)
    ensures match Forward(ms, path, size, globs)
            case None => forall i :: 0 <= i < |ms| ==> !Under(ms[i].from, path)
            case Some(out) => exists i :: 0 <= i < |ms| && Under(ms[i].from, path) && |ms[i].from| <= |path|
                                          && out == Moved(ms[i].from, ms[i].to, path)
  {
    hide Under;
    PlainBest(ms, |ms|, path, globs);
    var b := BestOf(ms, |ms|, path, globs);
    if b.Best? {
      assert ms[b.index] in ms;
      MovedIsUnder(ms[b.index].from, ms[b.index].to, path);
    }
  }

  /** With targets apart, a path under one of them goes back to under its source. */
  lemma ReverseMoves(ms: seq<Mapping>, i: nat, path: string, size: nat, globs: Globs)
    requires Plain(ms) && TargetsApart(ms) && i < |ms| && Under(ms[i].to, path) && size >= 2
    requires |ms[i].from| + |path| + 1 < size
    ensures |ms[i].to| <= |path| && Reverse(ms, path, size, globs) == MappedTo(Moved(ms[i].to, ms[i].from, path))
  {
    hide Under;
    hide BestTo;
    assert ms[i] in ms;
    PlainBestTo(ms, |ms|, path, globs);
    var j := BestTo(ms, |ms|, path, globs).index;
    assert ms[j] in ms;
    ParentsCompare(ms[i].to, ms[j].to, path);
    MovedIsUnder(ms[i].to, ms[i].from, path);
    assert j == i;
    var from := ms[i].from;
    assert from[..PathLen(from)] == from;
  }

  /** Back undoes forward. */
  lemma ReverseUndoesForward(ms: seq<Mapping>, path: string, size: nat, globs: Globs)
    requires Plain(ms) && TargetsApart(ms) && Roomy(ms, path, size) && !UnderSomeTo(ms, path)
    ensures var there := Applied(path, Forward(ms, path, size, globs));
            AppliedBack(there, Reverse(ms, there, size, globs)) == path
  {
    hide Under;
    hide Forward;
    hide Reverse;
    ForwardMoves(ms, path, size, globs);
    if Forward(ms, path, size, globs).Some? {
      var out := Forward(ms, path, size, globs).value;
      var i :| 0 <= i < |ms| && Under(ms[i].from, path) && |ms[i].from| <= |path|
        && out == Moved(ms[i].from, ms[i].to, path);
      assert ms[i] in ms;
      MovedIsUnder(ms[i].from, ms[i].to, path);
      ReverseMoves(ms, i, out, size, globs);
    } else {
      NothingToReverse(ms, path, size, globs);
    }
  }

  lemma NothingToReverse(ms: seq<Mapping>, path: string, size: nat, globs: Globs)
    requires Plain(ms) && !UnderSomeTo(ms, path)
    ensures Reverse(ms, path, size, globs) == Unchanged
  {
    hide Under;
    hide BestTo;
    PlainBestTo(ms, |ms|, path, globs);
  }

  /** No source is a parent of another, nor a parent or child of a target. */
  predicate SourcesApart(ms: seq<Mapping>) {
    && (forall i, j :: 0 <= i < |ms| && 0 <= j < |ms| && i != j ==> !Comparable(ms[i].from, ms[j].from))
    && (forall i, j :: 0 <= i < |ms| && 0 <= j < |ms| ==> !Comparable(ms[i].from, ms[j].to))
  }

  /** Forward undoes back. */
  lemma ForwardUndoesReverse(ms: seq<Mapping>, i: nat, path: string, size: nat, globs: Globs)
    requires Plain(ms) && TargetsApart(ms) && SourcesApart(ms) && i < |ms| && Under(ms[i].to, path)
    requires Roomy(ms, path, size) && Roomy(ms, AppliedBack(path, Reverse(ms, path, size, globs)), size)
    ensures var back := AppliedBack(path, Reverse(ms, path, size, globs));
            Applied(back, Forward(ms, back, size, globs)) == path
  {
    hide Under;
    hide Forward;
    hide Reverse;
    assert ms[i] in ms;
    ReverseMoves(ms, i, path, size, globs);
    var back := Moved(ms[i].to, ms[i].from, path);
    MovedIsUnder(ms[i].to, ms[i].from, path);
    SourceIsNotTarget(ms, i, back);
    ForwardMoves(ms, back, size, globs);
    if Forward(ms, back, size, globs).Some? {
      var out := Forward(ms, back, size, globs).value;
      var j :| 0 <= j < |ms| && Under(ms[j].from, back) && |ms[j].from| <= |back|
        && out == Moved(ms[j].from, ms[j].to, back);
      assert ms[j] in ms;
      ParentsCompare(ms[i].from, ms[j].from, back);
      assert i == j;
    }
  }

  lemma SourceIsNotTarget(ms: seq<Mapping>, i: nat, path: string)
    requires Plain(ms) && SourcesApart(ms) && i < |ms| && Under(ms[i].from, path)
    ensures !UnderSomeTo(ms, path)
  {
    hide Under;
    assert ms[i] in ms;
    forall m | m in ms ensures !Under(m.to, path) {
      var j :| 0 <= j < |ms| && ms[j] == m;
      if Under(m.to, path) {
        ParentsCompare(ms[i].from, ms[j].to, path);
      }
    }
  }
}
