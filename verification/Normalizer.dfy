/** The in-place path normaliser, and the stack of names it keeps. */
module Normalizer {
  import opened Paths

  /** A path cut at every slash. */
  function Segments(path: string): (r: seq<string>)
    ensures r != []
  {
    var k := Find(path, '/');
    if k == |path| then [path] else [path[..k]] + Segments(path[k + 1..])
  }

  /** The names kept so far, and whether the last change was a `..` that left some. */
  datatype Stack = Stack(names: seq<string>, trailing: bool)

  const EMPTY := Stack([], false)

  function Fed(st: Stack, segment: string): Stack {
    if segment == "" || segment == "." then st
    else if segment == ".." then
      if st.names == [] then st else Stack(st.names[..|st.names| - 1], |st.names| > 1)
    else Stack(st.names + [segment], false)
  }

  function FedAll(st: Stack, segments: seq<string>): Stack
    decreases |segments|
  {
    if segments == [] then st else FedAll(Fed(st, segments[0]), segments[1..])
  }

  /** Each name after a slash. */
  function Joined(names: seq<string>): string {
    if names == [] then "" else Joined(names[..|names| - 1]) + "/" + names[|names| - 1]
  }

  function Spelled(st: Stack): string {
    if st.names == [] then "/" else Joined(st.names) + (if st.trailing then "/" else "")
  }

  function Reduced(path: string): Stack { FedAll(EMPTY, Segments(path)) }

  function Normalized(path: string): string { Spelled(Reduced(path)) }

  predicate IsName(name: string) { name != "" && name != "." && name != ".." && '/' !in name }

  predicate Names(names: seq<string>) { forall name <- names :: IsName(name) }

  predicate ValidStack(st: Stack) {
    Names(st.names) && (st.trailing ==> st.names != [])
  }

  predicate NoSlashes(segments: seq<string>) { forall segment <- segments :: '/' !in segment }

  lemma {:induction false} SegmentsHaveNoSlashes(path: string)
    ensures NoSlashes(Segments(path))
  {
    var k := Find(path, '/');
    if k < |path| {
      SegmentsHaveNoSlashes(path[k + 1..]);
    } else {
      assert path[..k] == path;
    }
  }

  lemma FedValid(st: Stack, segment: string)
    requires ValidStack(st) && '/' !in segment
    ensures ValidStack(Fed(st, segment))
  {
  }

  lemma {:induction false} FedAllValid(st: Stack, segments: seq<string>)
    requires ValidStack(st) && NoSlashes(segments)
    ensures ValidStack(FedAll(st, segments))
    decreases |segments|
  {
    if segments != [] {
      FedValid(st, segments[0]);
      FedAllValid(Fed(st, segments[0]), segments[1..]);
    }
  }

  lemma ReducedValid(path: string)
    ensures ValidStack(Reduced(path))
  {
    SegmentsHaveNoSlashes(path);
    FedAllValid(EMPTY, Segments(path));
  }

  /** Cutting what was put together gives the pieces. */
  lemma CutFirst(segment: string, rest: string)
    requires '/' !in segment
    ensures Segments(segment + "/" + rest) == [segment] + Segments(rest)
  {
    var path := segment + "/" + rest;
    assert path[..|segment|] == segment && path[|segment| + 1..] == rest;
    FindIs(path, '/', |segment|);
  }

  lemma CutOnly(segment: string)
    requires '/' !in segment
    ensures Segments(segment) == [segment]
  {
    assert segment[..|segment|] == segment;
    FindIs(segment, '/', |segment|);
  }

  lemma {:induction false} JoinedFromFront(name: string, names: seq<string>)
    ensures Joined([name] + names) == "/" + name + Joined(names)
  {
    var all := [name] + names;
    if names == [] {
      assert all[..0] == [] && all[|all| - 1] == name;
    } else {
      var front, last := names[..|names| - 1], names[|names| - 1];
      assert all[..|all| - 1] == [name] + front;
      JoinedFromFront(name, front);
    }
  }

  lemma Regroup(a: string, b: string, c: string, d: string)
    ensures a + ("/" + b + c) + d == a + "/" + (b + c + d)
  {
  }

  /** The text after the first slash of what Joined spells. */
  lemma {:induction false} CutJoined(name: string, names: seq<string>, tail: string)
    requires IsName(name) && Names(names) && tail in {"", "/"}
    ensures Segments(name + Joined(names) + tail) == [name] + names + (if tail == "" then [] else [""])
    decreases |names|
  {
    hide Segments;
    if names == [] {
      assert name + Joined(names) + tail == name + tail;
      if tail == "" {
        CutOnly(name);
        assert name + tail == name;
      } else {
        CutFirst(name, "");
        CutOnly("");
        assert name + tail == name + "/" + "";
      }
    } else {
      var next, more := names[0], names[1..];
      assert names == [next] + more;
      JoinedFromFront(next, more);
      CutJoined(next, more, tail);
      CutFirst(name, next + Joined(more) + tail);
      Regroup(name, next, Joined(more), tail);
      var end := if tail == "" then [] else [""];
      assert [name] + ([next] + more + end) == [name] + names + end;
    }
  }

  /** The output, cut at its slashes, is the stack: an empty piece before the first slash,
      the names, and an empty piece at the end when there is a slash too many. */
  lemma SegmentsOfSpelled(st: Stack)
    requires ValidStack(st)
    ensures Segments(Spelled(st)) == [""] + st.names + (if st.names == [] || st.trailing then [""] else [])
  {
    hide Segments;
    hide Joined;
    if st.names == [] {
      CutFirst("", "");
      CutOnly("");
      assert "/" == "" + "/" + "";
    } else {
      var name, names := st.names[0], st.names[1..];
      var tail := if st.trailing then "/" else "";
      assert st.names == [name] + names;
      JoinedFromFront(name, names);
      CutJoined(name, names, tail);
      CutFirst("", name + Joined(names) + tail);
      var end := if tail == "" then [] else [""];
      assert [""] + ([name] + names + end) == [""] + st.names + end;
      Regroup("", name, Joined(names), tail);
      assert Spelled(st) == "" + Joined(st.names) + tail;
    }
  }

  /** Feeding names pushes them. */
  lemma {:induction false} FeedNames(st: Stack, names: seq<string>, tail: seq<string>)
    requires Names(names) && tail in {[], [""]}
    ensures FedAll(st, names + tail) == (if names == [] then st else Stack(st.names + names, false))
    decreases |names|
  {
    if names == [] {
      assert names + tail == tail;
      if tail != [] {
        assert tail[1..] == [];
      }
    } else {
      assert (names + tail)[1..] == names[1..] + tail;
      FeedNames(Fed(st, names[0]), names[1..], tail);
      assert names == [names[0]] + names[1..];
      assert st.names + [names[0]] + names[1..] == st.names + names;
      assert IsName(names[0]);
    }
  }

  lemma ReducedSpelled(st: Stack)
    requires ValidStack(st)
    ensures Reduced(Spelled(st)) == Stack(st.names, false)
  {
    hide Segments;
    hide Spelled;
    hide IsName;
    SegmentsOfSpelled(st);
    var tail := if st.names == [] || st.trailing then [""] else [];
    assert ([""] + st.names + tail)[1..] == st.names + tail;
    FeedNames(EMPTY, st.names, tail);
    assert [] + st.names == st.names;
  }

  /** What the normaliser promises: an absolute path whose components are exactly the names
      that are left when empty and `.` ones are dropped and `..` takes one back, and a slash
      at the end only when the last change was such a `..`. */
  lemma NormalizedShape(path: string)
    ensures var st, out := Reduced(path), Normalized(path);
            && Names(st.names)
            && out != "" && out[0] == '/'
            && Segments(out) == [""] + st.names + (if st.names == [] || st.trailing then [""] else [])
            && (|out| > 1 && out[|out| - 1] == '/' <==> st.trailing)
  {
    ReducedValid(path);
    var st := Reduced(path);
    SegmentsOfSpelled(st);
    if st.names != [] {
      JoinedFromFront(st.names[0], st.names[1..]);
      assert st.names == [st.names[0]] + st.names[1..];
      assert IsName(st.names[|st.names| - 1]);
    }
  }

  /** A second pass takes the slash at the end away, and a third changes nothing. So the
      normaliser is idempotent on exactly the paths that did not end in such a slash. */
  lemma SecondPass(path: string)
    ensures var once := Normalized(path);
            var twice := Normalized(once);
            && twice == Spelled(Stack(Reduced(path).names, false))
            && Normalized(twice) == twice
            && (twice == once <==> !Reduced(path).trailing)
  {
    ReducedValid(path);
    var st := Reduced(path);
    ReducedSpelled(st);
    ReducedSpelled(Stack(st.names, false));
  }

  lemma NotIdempotent(a: string, b: string)
    requires IsName(a) && IsName(b)
    ensures Normalized("/" + a + "/" + b + "/..") == "/" + a + "/" && Normalized("/" + a + "/") == "/" + a
  {
    hide Segments;
    CutFirst("", a + "/" + b + "/..");
    CutFirst(a, b + "/..");
    CutFirst(b, "..");
    CutOnly("..");
    assert "/" + a + "/" + b + "/.." == "" + "/" + (a + "/" + b + "/..");
    assert a + "/" + b + "/.." == a + "/" + (b + "/..") && b + "/.." == b + "/" + "..";
    assert Segments("/" + a + "/" + b + "/..") == ["", a, b, ".."];
    FeedThree(a, b);
    assert Joined([a]) == "/" + a by { assert [a][..0] == []; }
    ReducedSpelled(Stack([a], true));
  }

  lemma FeedThree(a: string, b: string)
    requires IsName(a) && IsName(b)
    ensures FedAll(EMPTY, ["", a, b, ".."]) == Stack([a], true)
  {
    FeedOne(EMPTY, "", [a, b, ".."]);
    FeedOne(EMPTY, a, [b, ".."]);
    FeedOne(Stack([a], false), b, [".."]);
    FeedOne(Stack([a, b], false), "..", []);
    assert [a, b][..1] == [a];
  }

  lemma FeedOne(st: Stack, segment: string, more: seq<string>)
    ensures FedAll(st, [segment] + more) == FedAll(Fed(st, segment), more)
  {
    assert ([segment] + more)[1..] == more;
  }

  /** A relative path is taken from the root. */
  lemma RelativeIsFromRoot(path: string)
    requires IsRelative(path)
    ensures Normalized(path) == Normalized("/" + path)
  {
    CutFirst("", path);
    assert "/" + path == "" + "/" + path;
    assert ([""] + Segments(path))[1..] == Segments(path);
  }

  /** What has been written: nothing yet for an absolute path, or the stack spelled out. */
  predicate Written(out: string, st: Stack) {
    out == Spelled(st) || (out == "" && st == EMPTY)
  }

  lemma JoinedPush(names: seq<string>, name: string)
    ensures Joined(names + [name]) == Joined(names) + "/" + name
  {
    assert (names + [name])[..|names|] == names;
  }

  lemma JoinedEnd(names: seq<string>)
    requires names != [] && Names(names)
    ensures |Joined(names)| > 1 && Joined(names)[|Joined(names)| - 1] != '/'
  {
    assert IsName(names[|names| - 1]);
  }

  /** How what is written ends. */
  lemma WrittenEnd(st: Stack, out: string)
    requires ValidStack(st) && Written(out, st)
    ensures if out == "" || out[|out| - 1] != '/' then out == Joined(st.names) else out == Joined(st.names) + "/"
    ensures |out| > 1 <==> st.names != []
  {
    if st.names != [] {
      JoinedEnd(st.names);
    }
  }

  /** A text without what is beyond the first n characters. */
  function Cut(text: string, n: nat): string { if |text| <= n then text else text[..n] }

  /** What has been written, cut where the buffer ends. */
  predicate CutWritten(out: string, st: Stack, n: nat) { out == Cut(Spelled(st), n) || (out == "" && st == EMPTY) }

  lemma CutAppend(text: string, more: string, n: nat)
    requires |text| <= n
    ensures Cut(text + more, n) == text + more[..if |more| < n - |text| then |more| else n - |text|]
  {
    if |text + more| > n {
      assert (text + more)[..n] == text + more[..n - |text|];
    } else {
      assert more[..|more|] == more;
    }
  }

  /** There is room for a name, with a slash before it when one is needed. */
  predicate Room(out: array<char>, ti: nat, n: nat)
    reads out
  {
    ti + n + 1 < out.Length || (0 < ti && ti + n < out.Length && out[ti - 1] == '/')
  }

  /** Append a text as far as there is room, and keep a place for the terminator. */
  method AppendCut(out: array<char>, ti: nat, text: string) returns (end: nat)
    requires ti < out.Length
    modifies out
    ensures ti <= end < out.Length && end <= ti + |text| && out[..end] == Cut(old(out[..ti]) + text, out.Length - 1)
  {
    end := ti;
    ghost var was := out[..ti];
    assert text[..0] == "" && was + "" == was;
    for k := 0 to |text|
      invariant end == (if ti + k < out.Length then ti + k else out.Length - 1)
      invariant out[..end] == was + text[..end - ti]
    {
      if end < out.Length - 1 {
        out[end] := text[k];
        end := end + 1;
        assert text[..k + 1] == text[..k] + [text[k]];
      }
    }
    CutAppend(was, text, out.Length - 1);
  }

  /** Push a name. */
  method Push(out: array<char>, ti: nat, name: string, ghost st: Stack) returns (end: nat)
    requires ti + 1 < out.Length && IsName(name) && ValidStack(st)
    requires Written(out[..ti], st)
    modifies out
    ensures end <= ti + 1 + |name| && (ti > 0 && old(out[ti - 1]) == '/' ==> end <= ti + |name|)
    ensures end < out.Length && CutWritten(out[..end], Stack(st.names + [name], false), out.Length - 1)
    ensures old(Room(out, ti, |name|)) ==> Written(out[..end], Stack(st.names + [name], false))
  {
    hide Joined;
    hide ValidStack;
    hide IsName;
    WrittenEnd(st, out[..ti]);
    JoinedPush(st.names, name);
    end := ti;
    if end == 0 || out[end - 1] != '/' {
      end := Append(out, end, "/");
    }
    assert out[..end] == Joined(st.names) + "/";
    end := AppendCut(out, end, name);
    assert Joined(st.names) + "/" + name == Spelled(Stack(st.names + [name], false));
  }

  lemma PopSpelled(st: Stack)
    requires ValidStack(st)
    ensures Spelled(Fed(st, "..")) == if st.names == [] then "/" else Joined(st.names[..|st.names| - 1]) + "/"
  {
  }

  /** Take the last name back, and leave its slash. */
  method Pop(out: array<char>, ti: nat, ghost st: Stack) returns (end: nat)
    requires ti < out.Length && out.Length > 1 && ValidStack(st)
    requires Written(out[..ti], st)
    modifies out
    ensures end <= (if ti == 0 then 1 else ti)
    ensures Written(out[..end], Fed(st, ".."))
  {
    hide Spelled;
    hide Fed;
    hide ValidStack;
    WrittenEnd(st, out[..ti]);
    PopSpelled(st);
    end := ti;
    if end > 1 {
      end := Backtrack(out, ti, st);
    }
    if end == 0 {
      out[0] := '/';
      end := 1;
      assert out[..1] == "/";
    } else if end == 1 {
      assert out[..1] == "/";
    }
  }

  /** Go back to just after the slash before the last name. */
  method Backtrack(out: array<char>, ti: nat, ghost st: Stack) returns (end: nat)
    requires ti < out.Length && ValidStack(st) && st.names != [] && Written(out[..ti], st)
    ensures 0 < end <= ti && out[..end] == Joined(st.names[..|st.names| - 1]) + "/"
  {
    hide Written;
    hide Spelled;
    hide ValidStack;
    WrittenEnd(st, out[..ti]);
    ghost var parent, last := Joined(st.names[..|st.names| - 1]) + "/", st.names[|st.names| - 1];
    LastIsName(st);
    assert Joined(st.names) == parent + last;
    end := ti;
    if out[end - 1] == '/' {
      end := end - 1;
    }
    assert out[..end] == parent + last;
    end := BackToSlash(out, end, parent, last);
  }

  lemma LastIsName(st: Stack)
    requires ValidStack(st) && st.names != []
    ensures var last := st.names[|st.names| - 1]; last != "" && '/' !in last
  {
    assert IsName(st.names[|st.names| - 1]);
  }

  method BackToSlash(out: array<char>, ti: nat, ghost parent: string, ghost last: string) returns (end: nat)
    requires ti <= out.Length && out[..ti] == parent + last && '/' !in last
    requires parent != "" && parent[|parent| - 1] == '/'
    ensures end == |parent| <= ti && out[..end] == parent
  {
    assert forall k :: 0 <= k < |parent| ==> out[k] == (parent + last)[k];
    assert forall k :: |parent| <= k < ti ==> out[k] == (parent + last)[k] == last[k - |parent|];
    end := ti;
    while end > 0 && out[end - 1] != '/'
      invariant |parent| <= end <= ti
    {
      end := end - 1;
    }
  }

  /** One segment of the path. */
  method Feed(out: array<char>, ti: nat, segment: string, ghost st: Stack) returns (end: nat)
    requires out.Length > 1 && ti < out.Length && (segment != "" ==> ti + 1 < out.Length)
    requires '/' !in segment && ValidStack(st) && Written(out[..ti], st)
    modifies out
    ensures end <= ti + 1 + |segment| && end < out.Length && (segment == "" ==> end == ti)
    ensures Written(out[..end], Fed(st, segment)) || CutWritten(out[..end], Fed(st, segment), out.Length - 1)
    ensures segment == "" || old(Room(out, ti, |segment|)) ==> Written(out[..end], Fed(st, segment))
    ensures ti > 0 && old(out[ti - 1]) == '/' ==> end <= ti + |segment|
  {
    end := ti;
    if segment == "" || segment == "." {
    } else if segment == ".." {
      end := Pop(out, ti, st);
    } else {
      end := Push(out, ti, segment, st);
    }
  }

  /** strncpy of MAX_PATH - 1 bytes and a terminator. */
  method CopyBack(path: array<char>, tmp: array<char>, ti: nat)
    requires path.Length >= MAX_PATH && tmp.Length >= MAX_PATH && ti < MAX_PATH && path != tmp
    requires IsText(tmp[..ti])
    modifies path
    ensures Holds(path[..], 0, tmp[..ti])
    ensures path[MAX_PATH..] == old(path[MAX_PATH..])
  {
    var k := 0;
    while k < MAX_PATH - 1
      invariant k <= MAX_PATH - 1
      invariant forall j :: 0 <= j < k && j < ti ==> path[j] == tmp[j]
      invariant forall j :: ti <= j < k ==> path[j] == NUL
      invariant path[MAX_PATH..] == old(path[MAX_PATH..])
    {
      path[k] := if k < ti then tmp[k] else NUL;
      k := k + 1;
    }
    path[MAX_PATH - 1] := NUL;
    assert path[..][0..0 + ti] == tmp[..ti];
  }

  lemma CutAt(path: string, i: nat)
    requires i <= |path| && '/' !in path[..i] && (i < |path| ==> path[i] == '/')
    ensures Segments(path) == [path[..i]] + (if i < |path| then Segments(path[i + 1..]) else [])
  {
    FindIs(path, '/', i);
    assert path[..|path|] == path;
  }

  lemma {:induction false} JoinedIsText(names: seq<string>)
    requires forall name <- names :: IsText(name)
    ensures IsText(Joined(names))
  {
    if names != [] {
      JoinedIsText(names[..|names| - 1]);
      assert IsText(names[|names| - 1]);
    }
  }

  /** The segments before `start` have been fed. */
  predicate Progress(s: string, start: nat, st: Stack) {
    && start <= |s| + 1
    && (if start <= |s| then FedAll(st, Segments(s[start..])) == Reduced(s) else st == Reduced(s))
  }

  lemma SegmentDone(s: string, start: nat, i: nat, st: Stack)
    requires start <= i <= |s| && Progress(s, start, st) && '/' !in s[start..i] && (i < |s| ==> s[i] == '/')
    ensures Progress(s, i + 1, Fed(st, s[start..i]))
  {
    hide Segments;
    hide Reduced;
    hide Fed;
    var rest := s[start..];
    assert rest[..i - start] == s[start..i];
    CutAt(rest, i - start);
    if i < |s| {
      assert rest[i - start + 1..] == s[i + 1..];
      FeedOne(st, s[start..i], Segments(s[i + 1..]));
    } else {
      FeedOne(st, s[start..i], []);
      assert [s[start..i]] + [] == [s[start..i]];
    }
  }

  predicate TextStack(st: Stack) { forall name <- st.names :: IsText(name) }

  lemma SliceOfPrefix(b: seq<char>, s: string, start: nat, i: nat)
    requires start <= i <= |s| <= |b| && b[..|s|] == s
    ensures b[start..i] == s[start..i]
  {
    assert b[..|s|][start..i] == b[start..i];
  }

  predicate IsRelative(path: string) { path == "" || path[0] != '/' }

  /** The normal form fits the scratch buffer, with its terminator and the slash put before a
      relative path. */
  predicate Normalizable(path: string) { |path| + (if IsRelative(path) then 1 else 0) < MAX_PATH }

  /** Build the normalised path beside the original. */
  method Reduce(path: array<char>, len: nat, ghost s: string) returns (tmp: array<char>, ti: nat, ghost st: Stack)
    requires len == |s| < path.Length && path[..len] == s && IsText(s) && |s| < MAX_PATH
    requires path[len] == NUL
    ensures fresh(tmp) && tmp.Length == MAX_PATH && ti < MAX_PATH
    ensures st == Reduced(s) && ValidStack(st) && TextStack(st)
    ensures Written(tmp[..ti], st) || (!Normalizable(s) && CutWritten(tmp[..ti], st, MAX_PATH - 1))
  {
    hide FedAll;
    hide Segments;
    hide Spelled;
    hide IsName;
    hide Fed;
    hide ValidStack;
    hide Cut;
    tmp := new char[MAX_PATH];
    ti := 0;
    var start: nat := 0;
    st := EMPTY;
    StartsEmpty(s);
    assert path[0] != '/' <==> IsRelative(s);
    ghost var first := if IsRelative(s) then 1 else 0;
    if path[0] != '/' {
      tmp[0] := '/';
      ti := 1;
      assert tmp[..1] == "/";
    }
    var i: nat := 0;
    while i <= len
      invariant start <= i <= len + 1
      invariant Progress(s, start, st) && ValidStack(st) && TextStack(st)
      invariant start <= len && i <= len ==> '/' !in s[start..i]
      invariant i == len + 1 ==> start == len + 1
      invariant ti < MAX_PATH && ti <= (if start == 0 then 0 else start - 1) + first
      invariant start == 0 && ti == 1 ==> tmp[0] == '/'
      invariant Written(tmp[..ti], st)
                || (i == len + 1 && !Normalizable(s) && CutWritten(tmp[..ti], st, MAX_PATH - 1))
    {
      if i == len || path[i] == '/' {
        var segment := path[start..i];
        SliceOfPrefix(path[..], s, start, i);
        assert start == 0 && i > 0 ==> segment[0] == s[0];
        SegmentDone(s, start, i, st);
        FedValid(st, segment);
        FedText(st, segment);
        ti := Feed(tmp, ti, segment, st);
        st := Fed(st, segment);
        start := i + 1;
      }
      i := i + 1;
    }
  }

  lemma StartsEmpty(s: string)
    ensures Progress(s, 0, EMPTY) && ValidStack(EMPTY) && Spelled(EMPTY) == "/"
  {
    assert s[0..] == s;
  }

  lemma FedText(st: Stack, segment: string)
    requires TextStack(st) && IsText(segment)
    ensures TextStack(Fed(st, segment))
  {
  }

  lemma SpelledIsText(st: Stack)
    requires TextStack(st)
    ensures IsText(Spelled(st))
  {
    JoinedIsText(st.names);
  }

  lemma CutIsText(text: string, n: nat)
    requires IsText(text)
    ensures IsText(Cut(text, n))
  {
  }

  /** The in-place normaliser, for every path that a buffer of MAX_PATH holds. Only of a relative
      one that fills the buffer can the normal form, which is longer by a slash, lose its last
      character. */
  method NormalizeInPlace(path: array<char>, ghost s: string)
    requires path.Length >= MAX_PATH && Holds(path[..], 0, s) && |s| < MAX_PATH
    modifies path
    ensures Holds(path[..], 0, Cut(Normalized(s), MAX_PATH - 1))
    ensures Normalizable(s) ==> Holds(path[..], 0, Normalized(s))
    ensures path[MAX_PATH..] == old(path[MAX_PATH..])
  {
    hide Reduced;
    hide Spelled;
    hide TextStack;
    hide ValidStack;
    hide Segments;
    var len := StringLength(path, 0, s);
    assert path[..len] == s by { assert forall k :: 0 <= k < |s| ==> path[..][0 + k] == s[k]; }
    var tmp, ti;
    ghost var st;
    tmp, ti, st := Reduce(path, len, s);
    StartsEmpty("");
    SpelledIsText(st);
    CutIsText(Spelled(st), MAX_PATH - 1);
    if ti == 0 {
      assert tmp[..0] == "";
      NothingSpelled(st);
      tmp[ti] := '/';
      ti := ti + 1;
      assert tmp[..1] == "/";
    }
    assert tmp[..ti] == Cut(Spelled(st), MAX_PATH - 1);
    CopyBack(path, tmp, ti);
  }

  lemma NothingSpelled(st: Stack)
    requires ValidStack(st) && (Written("", st) || CutWritten("", st, MAX_PATH - 1))
    ensures st == EMPTY && Spelled(st) == "/"
  {
    if st.names != [] {
      JoinedEnd(st.names);
    }
  }
}
