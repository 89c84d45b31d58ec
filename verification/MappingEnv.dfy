/** The PATH_MAPPING variable: `from:to` pairs, parsed in place. */
module MappingEnv {
  import opened Options
  import opened Paths

  datatype Pair = Pair(from: string, to: string)

  predicate IsSeparator(c: char) { c == ',' || c == '\n' || c == '\r' }

  predicate IsBlank(c: char) { c == ' ' || c == '\t' }

  predicate Blanks(s: string) { forall c <- s :: IsBlank(c) }

  predicate OneSegment(s: string) { forall i :: 0 <= i < |s| ==> !IsSeparator(s[i]) }

  function TrimLeft(s: string): (r: string)
    ensures |r| <= |s| && s[|s| - |r|..] == r
  {
    if s != "" && IsBlank(s[0]) then TrimLeft(s[1..]) else s
  }

  function TrimRight(s: string): (r: string)
    ensures r <= s
  {
    if s != "" && IsBlank(s[|s| - 1]) then TrimRight(s[..|s| - 1]) else s
  }

  function Trim(s: string): string { TrimRight(TrimLeft(s)) }

  /** The pair in one segment, if there is one. */
  function Entry(segment: string): Option<Pair> {
    var t := Trim(segment);
    var colon := Find(t, ':');
    if colon == |t| then None
    else
      var from, to := Trim(t[..colon]), Trim(t[colon + 1..]);
      if from == "" || to == "" then None else Some(Pair(from, to))
  }

  function FirstSeparator(s: string): (r: nat)
    ensures r <= |s| && OneSegment(s[..r]) && (r < |s| ==> IsSeparator(s[r]))
  {
    if s == "" || IsSeparator(s[0]) then 0
    else
      var r := FirstSeparator(s[1..]);
      assert s[..r + 1] == [s[0]] + s[1..][..r];
      r + 1
  }

  function OneOrNone(p: Option<Pair>): seq<Pair> { if p.Some? then [p.value] else [] }

  /** The pairs of the whole variable. */
  function Pairs(env: string): seq<Pair> {
    var k := FirstSeparator(env);
    OneOrNone(Entry(env[..k])) + (if k == |env| then [] else Pairs(env[k + 1..]))
  }

  function Separators(s: string): nat {
    if s == "" then 0 else (if IsSeparator(s[0]) then 1 else 0) + Separators(s[1..])
  }

  lemma {:induction false} SeparatorsSplit(a: string, b: string)
    ensures Separators(a + b) == Separators(a) + Separators(b)
    ensures OneSegment(a) ==> Separators(a) == 0
  {
    if a == "" {
      assert a + b == b;
    } else {
      assert (a + b)[1..] == a[1..] + b;
      SeparatorsSplit(a[1..], b);
    }
  }

  lemma SeparatorsAfterFirst(env: string, k: nat)
    requires k == FirstSeparator(env) < |env|
    ensures Separators(env) == 1 + Separators(env[k + 1..])
  {
    hide FirstSeparator;
    var rest := [env[k]] + env[k + 1..];
    assert env == env[..k] + rest;
    SeparatorsSplit(env[..k], rest);
    assert rest[1..] == env[k + 1..];
  }

  /** Never more pairs than separators and one. */
  lemma {:induction false} PairsFit(env: string)
    ensures |Pairs(env)| <= Separators(env) + 1
  {
    hide Entry;
    hide FirstSeparator;
    hide Separators;
    var k := FirstSeparator(env);
    if k < |env| {
      SeparatorsAfterFirst(env, k);
      PairsFit(env[k + 1..]);
    }
  }

  lemma {:induction false} TrimLeftSkips(pad: string, s: string)
    requires Blanks(pad)
    ensures TrimLeft(pad + s) == TrimLeft(s)
  {
    if pad == "" {
      assert pad + s == s;
    } else {
      assert (pad + s)[1..] == pad[1..] + s;
      TrimLeftSkips(pad[1..], s);
    }
  }

  lemma {:induction false} TrimRightSkips(s: string, pad: string)
    requires Blanks(pad)
    ensures TrimRight(s + pad) == TrimRight(s)
  {
    if pad == "" {
      assert s + pad == s;
    } else {
      assert (s + pad)[..|s + pad| - 1] == s + pad[..|pad| - 1];
      TrimRightSkips(s, pad[..|pad| - 1]);
    }
  }

  /** Neither end is blank. */
  predicate Trimmed(s: string) { s != "" && !IsBlank(s[0]) && !IsBlank(s[|s| - 1]) }

  lemma TrimPadded(before: string, s: string, after: string)
    requires Blanks(before) && Blanks(after) && Trimmed(s)
    ensures Trim(before + s + after) == s
  {
    assert before + s + after == before + (s + after);
    TrimLeftSkips(before, s + after);
    assert TrimLeft(s + after) == s + after;
    TrimRightSkips(s, after);
  }

  /** A pair as it may be written down: blanks around both sides. */
  datatype Written = Written(before: string, from: string, afterFrom: string, beforeTo: string, to: string,
                             after: string)

  predicate WellSpaced(w: Written) {
    && Blanks(w.before) && Blanks(w.afterFrom) && Blanks(w.beforeTo) && Blanks(w.after)
    && Trimmed(w.from) && Trimmed(w.to) && ':' !in w.from
  }

  predicate WellWritten(w: Written) { WellSpaced(w) && OneSegment(w.from) && OneSegment(w.to) }

  function Shown(w: Written): string {
    w.before + (w.from + w.afterFrom + ":" + w.beforeTo + w.to) + w.after
  }

  lemma EntryOf(segment: string, left: string, right: string, p: Pair)
    requires Trim(segment) == left + ":" + right && ':' !in left
    requires Trim(left) == p.from != "" && Trim(right) == p.to != ""
    ensures Entry(segment) == Some(p)
  {
    hide Trim;
    var t := left + ":" + right;
    assert t[..|left|] == left && t[|left| + 1..] == right && t[|left|] == ':';
    FindIs(t, ':', |left|);
  }

  lemma ShownTrimmed(w: Written)
    requires WellSpaced(w)
    ensures Trim(Shown(w)) == (w.from + w.afterFrom) + ":" + (w.beforeTo + w.to)
  {
    hide Trim;
    var inner := w.from + w.afterFrom + ":" + w.beforeTo + w.to;
    assert inner[0] == w.from[0] && inner[|inner| - 1] == w.to[|w.to| - 1];
    TrimPadded(w.before, inner, w.after);
    assert inner == (w.from + w.afterFrom) + ":" + (w.beforeTo + w.to);
  }

  lemma ShownIsOneEntry(w: Written)
    requires WellSpaced(w)
    ensures Entry(Shown(w)) == Some(Pair(w.from, w.to))
  {
    hide Trim;
    hide Shown;
    hide Entry;
    var left, right := w.from + w.afterFrom, w.beforeTo + w.to;
    assert left == "" + w.from + w.afterFrom && right == w.beforeTo + w.to + "";
    TrimPadded("", w.from, w.afterFrom);
    TrimPadded(w.beforeTo, w.to, "");
    ShownTrimmed(w);
    EntryOf(Shown(w), left, right, Pair(w.from, w.to));
  }

  lemma BlanksDoNotSeparate(s: string)
    requires Blanks(s)
    ensures OneSegment(s)
  {
    forall i | 0 <= i < |s| ensures !IsSeparator(s[i]) {
      assert s[i] in s;
    }
  }

  lemma ShownIsOneSegment(w: Written)
    requires WellWritten(w)
    ensures OneSegment(Shown(w))
  {
    BlanksDoNotSeparate(w.before);
    BlanksDoNotSeparate(w.afterFrom);
    BlanksDoNotSeparate(w.beforeTo);
    BlanksDoNotSeparate(w.after);
  }

  /** The whole variable: the entries with a separator of any kind between each two. */
  function Printed(ws: seq<Written>, separators: string): string
    requires |ws| == |separators| + 1
  {
    if |ws| == 1 then Shown(ws[0]) else Shown(ws[0]) + [separators[0]] + Printed(ws[1..], separators[1..])
  }

  function Meant(ws: seq<Written>): seq<Pair> {
    seq(|ws|, k requires 0 <= k < |ws| => Pair(ws[k].from, ws[k].to))
  }

  lemma FirstSeparatorIs(s: string, k: nat)
    requires k <= |s| && OneSegment(s[..k]) && (k < |s| ==> IsSeparator(s[k]))
    ensures FirstSeparator(s) == k
  {
    hide FirstSeparator;
  }

  lemma PairsOfFirst(first: string, c: char, rest: string)
    requires OneSegment(first) && IsSeparator(c)
    ensures Pairs(first + [c] + rest) == OneOrNone(Entry(first)) + Pairs(rest)
  {
    hide Entry;
    hide FirstSeparator;
    var env := first + [c] + rest;
    assert env[..|first|] == first && env[|first|] == c && env[|first| + 1..] == rest;
    FirstSeparatorIs(env, |first|);
  }

  lemma PairsOfOnly(segment: string)
    requires OneSegment(segment)
    ensures Pairs(segment) == OneOrNone(Entry(segment))
  {
    hide Entry;
    hide FirstSeparator;
    assert segment[..|segment|] == segment;
    FirstSeparatorIs(segment, |segment|);
  }

  /** Parsing undoes printing. */
  lemma {:induction false} ParseUndoesPrint(ws: seq<Written>, separators: string)
    requires |ws| == |separators| + 1 && (forall w <- ws :: WellWritten(w))
             && (forall c <- separators :: IsSeparator(c))
    ensures Pairs(Printed(ws, separators)) == Meant(ws)
    decreases |ws|
  {
    hide Entry;
    hide Shown;
    hide WellSpaced;
    hide Pairs;
    assert ws[0] in ws && WellWritten(ws[0]);
    ShownIsOneEntry(ws[0]);
    ShownIsOneSegment(ws[0]);
    if |ws| == 1 {
      PairsOfOnly(Shown(ws[0]));
      assert Meant(ws) == [Pair(ws[0].from, ws[0].to)];
    } else {
      PairsOfFirst(Shown(ws[0]), separators[0], Printed(ws[1..], separators[1..]));
      ParseUndoesPrint(ws[1..], separators[1..]);
      assert Meant(ws) == [Pair(ws[0].from, ws[0].to)] + Meant(ws[1..]);
    }
  }

  lemma TrimLeftDone(s: string, k: nat)
    requires k <= |s| && TrimLeft(s) == TrimLeft(s[k..]) && (k < |s| ==> !IsBlank(s[k]))
    ensures TrimLeft(s) == s[k..]
  {
  }

  /** Skip blanks in front. */
  method SkipBlanks(buffer: array<char>, at: nat, ghost text: string) returns (s: nat)
    requires Holds(buffer[..], at, text)
    ensures at <= s && s - at <= |text| && TrimLeft(text) == text[s - at..]
  {
    hide TrimLeft;
    hide Holds;
    HeldEnd(buffer[..], at, text);
    s := at;
    assert text[0..] == text;
    while IsBlank(buffer[s])
      invariant at <= s && s - at <= |text| && TrimLeft(text) == TrimLeft(text[s - at..])
      decreases at + |text| - s
    {
      HeldAt(buffer[..], at, text, s - at);
      SkipOne(text, s - at);
      s := s + 1;
    }
    if s - at < |text| {
      HeldAt(buffer[..], at, text, s - at);
    }
    TrimLeftDone(text, s - at);
  }

  lemma SkipOne(s: string, k: nat)
    requires k < |s| && IsBlank(s[k])
    ensures TrimLeft(s[k..]) == TrimLeft(s[k + 1..])
  {
    assert s[k..][1..] == s[k + 1..];
  }

  lemma DropOne(s: string, k: nat)
    requires 0 < k <= |s| && IsBlank(s[k - 1])
    ensures TrimRight(s[..k]) == TrimRight(s[..k - 1])
  {
    assert s[..k][..k - 1] == s[..k - 1];
  }

  lemma DropDone(s: string, k: nat)
    requires k <= |s| && (k == 0 || !IsBlank(s[k - 1]))
    ensures TrimRight(s[..k]) == s[..k]
  {
  }

  /** Where the text ends once blanks at its end are dropped. */
  method DropBlanks(buffer: array<char>, s: nat, end: nat, ghost text: string) returns (e: nat)
    requires Holds(buffer[..], s, text) && end == s + |text|
    ensures s <= e && e - s <= |text| && TrimRight(text) == text[..e - s]
  {
    hide TrimRight;
    hide Holds;
    HeldEnd(buffer[..], s, text);
    e := end;
    assert text[..|text|] == text;
    while e > s && IsBlank(buffer[e - 1])
      invariant s <= e && e - s <= |text| && TrimRight(text) == TrimRight(text[..e - s])
    {
      HeldAt(buffer[..], s, text, e - 1 - s);
      DropOne(text, e - s);
      e := e - 1;
    }
    if e > s {
      HeldAt(buffer[..], s, text, e - 1 - s);
    }
    DropDone(text, e - s);
  }

  /** Changed only from `from` to `to`. */
  twostate predicate OnlyBetween(buffer: array<char>, from: nat, to: nat)
    reads buffer
  {
    forall k :: 0 <= k < buffer.Length && !(from <= k < to) ==> buffer[k] == old(buffer[k])
  }

  /** Trim in place: the string left is shorter, and ends with a terminator written over the
      first blank dropped. */
  method TrimInPlace(buffer: array<char>, at: nat, ghost text: string) returns (s: nat)
    requires Holds(buffer[..], at, text)
    modifies buffer
    ensures at <= s && s + |Trim(text)| <= at + |text| && Holds(buffer[..], s, Trim(text))
    ensures OnlyBetween(buffer, at, at + |text|)
  {
    hide TrimLeft;
    hide TrimRight;
    s := SkipBlanks(buffer, at, text);
    ghost var left := text[s - at..];
    assert Holds(buffer[..], s, left);
    var length := StringLength(buffer, s, left);
    var e := DropBlanks(buffer, s, s + length, left);
    buffer[e] := NUL;
  }

  /** strchr for a colon: where it is, or the end. */
  method FindColon(buffer: array<char>, at: nat, ghost text: string) returns (k: nat)
    requires Holds(buffer[..], at, text)
    ensures k == Find(text, ':')
  {
    hide Holds;
    hide Find;
    HeldEnd(buffer[..], at, text);
    k := 0;
    while buffer[at + k] != NUL && buffer[at + k] != ':'
      invariant k <= |text| && ':' !in text[..k]
      decreases |text| - k
    {
      HeldAt(buffer[..], at, text, k);
      assert text[..k + 1] == text[..k] + [text[k]];
      k := k + 1;
    }
    if k < |text| {
      HeldAt(buffer[..], at, text, k);
    }
    FindIs(text, ':', k);
  }

  /** A string in the buffer that ends before `limit`. */
  predicate Stored(b: seq<char>, at: nat, s: string, limit: nat) {
    at + |s| < limit && Holds(b, at, s)
  }

  lemma StoredStays(b: seq<char>, b': seq<char>, at: nat, s: string, limit: nat)
    requires Stored(b, at, s, limit) && |b'| == |b| && limit <= |b|
    requires forall k :: 0 <= k < limit ==> b'[k] == b[k]
    ensures Stored(b', at, s, limit)
  {
  }

  lemma HoldsElsewhere(b: seq<char>, b': seq<char>, at: nat, s: string, from: nat, to: nat)
    requires Holds(b, at, s) && |b'| == |b|
    requires forall k :: 0 <= k < |b| && !(from <= k < to) ==> b'[k] == b[k]
    requires at + |s| < from || to <= at
    ensures Holds(b', at, s)
  {
  }

  /** Split a trimmed segment at its colon, and trim both sides. */
  method SplitInPlace(buffer: array<char>, at: nat, colon: nat, ghost text: string) returns (from: nat, to: nat)
    requires Holds(buffer[..], at, text) && colon == Find(text, ':') < |text|
    modifies buffer
    ensures Stored(buffer[..], from, Trim(text[..colon]), at + |text| + 1)
    ensures Stored(buffer[..], to, Trim(text[colon + 1..]), at + |text| + 1)
    ensures OnlyBetween(buffer, at, at + |text|)
  {
    hide Trim;
    hide Find;
    ghost var left, right := text[..colon], text[colon + 1..];
    HeldEnd(buffer[..], at, text);
    buffer[at + colon] := NUL;
    ghost var b := buffer[..];
    assert Holds(b, at, left);
    assert Holds(b, at + colon + 1, right) by {
      assert forall k :: 0 <= k < |right| ==> right[k] == text[colon + 1 + k];
    }
    hide Holds;
    from := TrimInPlace(buffer, at, left);
    ghost var b1 := buffer[..];
    HoldsElsewhere(b, b1, at + colon + 1, right, at, at + colon);
    to := TrimInPlace(buffer, at + colon + 1, right);
    HoldsElsewhere(b1, buffer[..], from, Trim(left), at + colon + 1, at + |text|);
  }

  /** One segment: its two sides are added when it is a pair. */
  method ParseSegment(buffer: array<char>, linear: array<nat>, idx: nat, start: nat, ghost segment: string)
    returns (next: nat)
    requires Holds(buffer[..], start, segment) && idx + 1 < linear.Length
    modifies buffer, linear
    ensures OnlyBetween(buffer, start, start + |segment|)
    ensures forall k :: 0 <= k < idx ==> linear[k] == old(linear[k])
    ensures match Entry(segment)
            case None => next == idx
            case Some(p) =>
              && next == idx + 2
              && Stored(buffer[..], linear[idx], p.from, start + |segment| + 1)
              && Stored(buffer[..], linear[idx + 1], p.to, start + |segment| + 1)
  {
    hide Trim;
    hide Find;
    hide Holds;
    var at := TrimInPlace(buffer, start, segment);
    ghost var text := Trim(segment);
    HeldEnd(buffer[..], at, text);
    var colon := FindColon(buffer, at, text);
    if buffer[at + colon] == NUL {
      if colon < |text| {
        HeldAt(buffer[..], at, text, colon);
      }
      return idx;
    }
    var from, to := SplitInPlace(buffer, at, colon, text);
    var emptyFrom := IsEmptyAt(buffer, from, Trim(text[..colon]));
    var emptyTo := IsEmptyAt(buffer, to, Trim(text[colon + 1..]));
    if emptyFrom || emptyTo {
      return idx;
    }
    linear[idx] := from;
    linear[idx + 1] := to;
    next := idx + 2;
  }

  method IsEmptyAt(buffer: array<char>, at: nat, ghost s: string) returns (empty: bool)
    requires Holds(buffer[..], at, s)
    ensures empty <==> s == ""
  {
    empty := buffer[at] == NUL;
    assert s != "" ==> buffer[..][at + 0] == s[0];
  }

  /** The segments before `start` have been parsed, and those to come fit in `room` pairs. */
  predicate Parsing(env: string, start: nat, done: seq<Pair>, room: nat) {
    if start <= |env| then done + Pairs(env[start..]) == Pairs(env) && Separators(env[start..]) + 1 <= room
    else start == |env| + 1 && done == Pairs(env)
  }

  lemma SegmentParsed(env: string, start: nat, i: nat, done: seq<Pair>, room: nat)
    requires start <= i <= |env| && Parsing(env, start, done, room) && OneSegment(env[start..i])
    requires i < |env| ==> IsSeparator(env[i])
    ensures room > 0 && Parsing(env, i + 1, done + OneOrNone(Entry(env[start..i])), room - 1)
  {
    hide Entry;
    hide Pairs;
    var rest, segment := env[start..], env[start..i];
    if i < |env| {
      var more := env[i + 1..];
      assert rest == segment + [env[i]] + more;
      PairsOfFirst(segment, env[i], more);
      assert rest == segment + ([env[i]] + more);
      SeparatorsSplit(segment, [env[i]] + more);
      assert ([env[i]] + more)[1..] == more;
      assert done + (OneOrNone(Entry(segment)) + Pairs(more)) == done + OneOrNone(Entry(segment)) + Pairs(more);
    } else {
      assert rest == segment;
      PairsOfOnly(segment);
    }
  }

  /** The pairs are in the buffer, before `limit`. */
  predicate Recorded(b: seq<char>, linear: seq<nat>, done: seq<Pair>, limit: nat) {
    && 2 * |done| <= |linear|
    && forall k :: 0 <= k < |done| ==>
         Stored(b, linear[2 * k], done[k].from, limit) && Stored(b, linear[2 * k + 1], done[k].to, limit)
  }

  lemma RecordedStays(b: seq<char>, b': seq<char>, l: seq<nat>, l': seq<nat>, done: seq<Pair>, limit: nat, limit': nat)
    requires Recorded(b, l, done, limit) && |b'| == |b| && limit <= |b| && limit <= limit' && |l'| == |l|
    requires forall k :: 0 <= k < limit ==> b'[k] == b[k]
    requires forall k :: 0 <= k < 2 * |done| ==> l'[k] == l[k]
    ensures Recorded(b', l', done, limit')
  {
    hide Holds;
    forall k | 0 <= k < |done|
      ensures Stored(b', l'[2 * k], done[k].from, limit') && Stored(b', l'[2 * k + 1], done[k].to, limit')
    {
      StoredStays(b, b', l[2 * k], done[k].from, limit);
      StoredStays(b, b', l[2 * k + 1], done[k].to, limit);
    }
  }

  /** Buffer and table hold one list of pairs: no other one as long can be read from them. */
  lemma RecordedOnce(b: seq<char>, linear: seq<nat>, ps: seq<Pair>, limit: nat, qs: seq<Pair>, limit': nat)
    requires Recorded(b, linear, ps, limit) && Recorded(b, linear, qs, limit') && |ps| == |qs|
    ensures ps == qs
  {
    hide Holds;
    forall k | 0 <= k < |ps| ensures ps[k] == qs[k] {
      HoldsOne(b, linear[2 * k], ps[k].from, qs[k].from);
      HoldsOne(b, linear[2 * k + 1], ps[k].to, qs[k].to);
    }
  }

  method CountPairs(env: string) returns (n: nat)
    ensures n == Separators(env) + 1
  {
    n := 1;
    assert env[0..] == env;
    for i := 0 to |env|
      invariant n + Separators(env[i..]) == Separators(env) + 1
    {
      assert env[i..][1..] == env[i + 1..];
      if IsSeparator(env[i]) {
        n := n + 1;
      }
    }
  }

  method CopyText(env: string) returns (buffer: array<char>)
    ensures fresh(buffer) && buffer.Length == |env| + 1
    ensures (forall k :: 0 <= k < |env| ==> buffer[k] == env[k]) && buffer[|env|] == NUL
  {
    buffer := new char[|env| + 1];
    for k := 0 to |env|
      invariant forall j :: 0 <= j < k ==> buffer[j] == env[j]
    {
      buffer[k] := env[k];
    }
    buffer[|env|] := NUL;
  }

  /** What is still to be parsed is as it was copied. */
  ghost predicate Ahead(buffer: array<char>, env: string, start: nat)
    reads buffer
  {
    && buffer.Length == |env| + 1 && buffer[|env|] == NUL
    && forall k :: start <= k < |env| ==> buffer[k] == env[k]
  }

  /** The segment that ends at `i` is parsed. */
  method TakeSegment(buffer: array<char>, linear: array<nat>, idx: nat, start: nat, i: nat, env: string,
                     ghost done: seq<Pair>)
    returns (next: nat)
    requires IsText(env) && start <= i <= |env| && Ahead(buffer, env, start)
    requires idx == 2 * |done| && idx + 1 < linear.Length && Recorded(buffer[..], linear[..], done, start)
    modifies buffer, linear
    ensures Ahead(buffer, env, i + 1)
    ensures var more := done + OneOrNone(Entry(env[start..i]));
            next == 2 * |more| && Recorded(buffer[..], linear[..], more, i + 1)
  {
    hide Entry;
    hide Stored;
    ghost var b0, l0 := buffer[..], linear[..];
    buffer[i] := NUL;
    ghost var segment := env[start..i];
    assert Holds(buffer[..], start, segment) by {
      assert forall k :: 0 <= k < |segment| ==> segment[k] == env[start + k] && buffer[..][start + k] == segment[k];
    }
    next := ParseSegment(buffer, linear, idx, start, segment);
    RecordedStays(b0, buffer[..], l0, linear[..], done, start, i + 1);
  }

  /** Parse the variable, in a copy of it. */
  method ParseEnv(env: string) returns (buffer: array<char>, linear: array<nat>, count: nat)
    requires IsText(env)
    ensures fresh(buffer) && fresh(linear)
    ensures env != "" ==> linear.Length == 2 * (Separators(env) + 1)
    ensures count == |Pairs(env)| && Recorded(buffer[..], linear[..], Pairs(env), |env| + 1)
  {
    hide Entry;
    hide Pairs;
    hide Recorded;
    hide Separators;
    buffer := CopyText(env);
    if env == "" {
      EmptyHasNone();
      linear := new nat[0];
      NothingRecorded(buffer[..], linear[..], 1);
      return buffer, linear, 0;
    }
    var room := CountPairs(env);
    linear := new nat[2 * room];
    var start: nat, idx: nat := 0, 0;
    ghost var done: seq<Pair>, left: nat := [], room;
    StartsParsing(env);
    NothingRecorded(buffer[..], linear[..], 0);
    for i := 0 to |env| + 1
      invariant start <= i && (if i <= |env| then OneSegment(env[start..i]) else start == i)
      invariant linear.Length == 2 * room && idx == 2 * |done| && |done| + left <= room
      invariant Parsing(env, start, done, left)
      invariant Ahead(buffer, env, start) && Recorded(buffer[..], linear[..], done, start)
    {
      if buffer[i] == ',' || buffer[i] == '\n' || buffer[i] == '\r' || buffer[i] == NUL {
        SegmentParsed(env, start, i, done, left);
        left := left - 1;
        idx := TakeSegment(buffer, linear, idx, start, i, env, done);
        done := done + OneOrNone(Entry(env[start..i]));
        start := i + 1;
      } else {
        assert env[start..i + 1] == env[start..i] + [env[i]];
      }
    }
    count := idx / 2;
  }

  lemma StartsParsing(env: string)
    ensures Parsing(env, 0, [], Separators(env) + 1)
  {
    assert env[0..] == env && [] + Pairs(env) == Pairs(env);
  }

  lemma EmptyHasNone()
    ensures Pairs("") == []
  {
  }

  lemma NothingRecorded(b: seq<char>, linear: seq<nat>, limit: nat)
    ensures Recorded(b, linear, [], limit)
  {
  }
}
