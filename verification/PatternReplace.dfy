/** Shell patterns of single-byte characters, in the notation of section 2.13 of XCU in
    POSIX.1-2017. */
module ShellPattern {

  type Byte = x: int | 0 <= x < 256

  const NUL: Byte := 0
  const STAR: Byte := 42
  const QUESTION: Byte := 63
  const BRACKET: Byte := 91
  const BACKSLASH: Byte := 92

  /** `source` is the text of a bracket expression after its `[`. */
  datatype Element =
    | Literal(c: Byte, escaped: bool)
    | Any
    | Star
    | Bracket(members: set<Byte>, source: seq<Byte>)

  type Pattern = seq<Element>

  predicate WellFormed(pat: Pattern) {
    forall el <- pat ::
      && (el.Literal? ==> el.c != NUL && (!el.escaped ==> el.c !in {STAR, QUESTION, BRACKET, BACKSLASH}))
      && (el.Bracket? ==> NUL !in el.members && NUL !in el.source)
  }

  function ElementText(el: Element): seq<Byte> {
    match el
    case Literal(c, escaped) => if escaped then [BACKSLASH, c] else [c]
    case Any => [QUESTION]
    case Star => [STAR]
    case Bracket(_, source) => [BRACKET] + source
  }

  /** The pattern as it stands in memory. */
  function Text(pat: Pattern): seq<Byte> {
    if pat == [] then [] else ElementText(pat[0]) + Text(pat[1..])
  }

  predicate Matches(pat: Pattern, s: seq<Byte>)
    decreases |pat| + |s|
  {
    if pat == [] then s == []
    else
      match pat[0]
      case Star => Matches(pat[1..], s) || (s != [] && Matches(pat, s[1..]))
      case Literal(c, _) => s != [] && s[0] == c && Matches(pat[1..], s[1..])
      case Any => s != [] && Matches(pat[1..], s[1..])
      case Bracket(members, _) => s != [] && s[0] in members && Matches(pat[1..], s[1..])
  }

  /** `!strpbrk(str, "*?[")` */
  predicate LooksLiteral(text: seq<Byte>) {
    forall c <- text :: c !in {STAR, QUESTION, BRACKET}
  }

  /** `c0 > 0 && !strchr("*?[\\", c0)`, with `c0` a signed char. */
  predicate CanPrefilter(text: seq<Byte>) {
    text != [] && 0 < text[0] < 128 && text[0] !in {STAR, QUESTION, BRACKET, BACKSLASH}
  }

  /** The characters a pattern of literals stands for. */
  function Characters(pat: Pattern): seq<Byte>
    requires forall el <- pat :: el.Literal?
  {
    if pat == [] then [] else [pat[0].c] + Characters(pat[1..])
  }

  lemma {:induction false} LooksLiteralMeansLiterals(pat: Pattern)
    requires LooksLiteral(Text(pat))
    ensures forall el <- pat :: el.Literal?
  {
    if pat != [] {
      var head, rest := ElementText(pat[0]), Text(pat[1..]);
      assert Text(pat) == head + rest;
      assert head[0] in Text(pat);
      assert forall c <- rest :: c in Text(pat);
      LooksLiteralMeansLiterals(pat[1..]);
    }
  }

  /** A pattern of literals matches one string, so the first match found is the longest. */
  lemma {:induction false} LiteralsMatchOneString(pat: Pattern, s: seq<Byte>)
    requires forall el <- pat :: el.Literal?
    ensures Matches(pat, s) <==> s == Characters(pat)
  {
    if pat != [] && s != [] {
      LiteralsMatchOneString(pat[1..], s[1..]);
      assert s == [s[0]] + s[1..];
    }
  }

  /** A pattern whose first character can be tested ahead matches only strings that start
      with it. */
  lemma PrefilterIsSound(pat: Pattern, s: seq<Byte>)
    requires WellFormed(pat) && CanPrefilter(Text(pat)) && Matches(pat, s)
    ensures s != [] && s[0] == Text(pat)[0]
  {
    assert pat != [];
    assert Text(pat)[0] == ElementText(pat[0])[0];
  }
}

/** `${var/pat/str}`, `${var//pat/str}`, `${var/#pat/str}` and `${var/%pat/str}` as added to
    dash: what leftmost-longest replacement means, and the loop that computes it. */
module PatternReplace {
  import opened Options
  import opened ShellPattern

  /** VSREPLACE, VSREPLACEALL, VSREPLACEBEG, VSREPLACEEND. */
  datatype Form = First | All | Beg | End

  predicate Anchored(form: Form) { form.Beg? || form.End? }

  /** What dash's `pmatch` decides for a pattern. */
  type Matcher = seq<Byte> -> bool

  /** `v[o..e]` may be replaced. An empty match counts only when the form is anchored or
      the value is empty. */
  ghost predicate IsMatch(form: Form, pm: Matcher, v: seq<Byte>, o: int, e: int) {
    && 0 <= o <= e <= |v|
    && pm(v[o..e])
    && (e > o || Anchored(form) || |v| == 0)
    && (form.Beg? ==> o == 0)
    && (form.End? ==> e == |v|)
  }

  /** The leftmost match at or after `from`, and the longest of those. */
  ghost predicate LeftmostLongest(form: Form, pm: Matcher, v: seq<Byte>, from: int, o: int, e: int) {
    && from <= o
    && IsMatch(form, pm, v, o, e)
    && forall o', e' :: from <= o' && IsMatch(form, pm, v, o', e') ==> o < o' || (o == o' && e' <= e)
  }

  datatype Span = Span(o: int, e: int)

  /** The match the expansion has to replace next, when there is one. */
  ghost function BestMatch(form: Form, pm: Matcher, v: seq<Byte>, from: int): (r: Option<Span>)
    ensures r.Some? ==> LeftmostLongest(form, pm, v, from, r.value.o, r.value.e)
    ensures r.None? ==> forall o, e :: !LeftmostLongest(form, pm, v, from, o, e)
  {
    if o, e :| LeftmostLongest(form, pm, v, from, o, e) then Some(Span(o, e)) else None
  }

  /** The part of the value from `from` on, with its matches replaced. */
  ghost function ReplaceFrom(form: Form, pm: Matcher, v: seq<Byte>, repl: seq<Byte>, from: nat): seq<Byte>
    requires from <= |v|
    decreases |v| - from
  {
    match BestMatch(form, pm, v, from)
    case Some(Span(o, e)) =>
      v[from..o] + repl + (if form.All? && e < |v| then ReplaceFrom(form, pm, v, repl, e) else v[e..])
    case None => v[from..]
  }

  /** What the expansion is specified to give. Unanchored, an empty pattern leaves the value as
      it is. */
  ghost function Replacement(form: Form, pat: Pattern, v: seq<Byte>, repl: seq<Byte>): seq<Byte> {
    if pat == [] && !Anchored(form) then v else ReplaceFrom(form, MatcherOf(pat), v, repl, 0)
  }

  function MatcherOf(pat: Pattern): Matcher { s => Matches(pat, s) }

  lemma BestIsUnique(form: Form, pm: Matcher, v: seq<Byte>, from: int, o: int, e: int)
    requires LeftmostLongest(form, pm, v, from, o, e)
    ensures BestMatch(form, pm, v, from) == Some(Span(o, e))
  {
    var best := BestMatch(form, pm, v, from).value;
    assert IsMatch(form, pm, v, best.o, best.e) && IsMatch(form, pm, v, o, e);
  }

  lemma MatchHere(form: Form, pm: Matcher, v: seq<Byte>, repl: seq<Byte>, o: nat, e: nat)
    requires LongestEnd(form, pm, v, o, e)
    ensures ReplaceFrom(form, pm, v, repl, o)
         == repl + (if form.All? && e < |v| then ReplaceFrom(form, pm, v, repl, e) else v[e..])
  {
    BestIsUnique(form, pm, v, o, o, e);
    assert v[o..o] + repl == repl;
  }

  lemma BestSkips(form: Form, pm: Matcher, v: seq<Byte>, o: nat)
    requires o < |v| && NoEnd(form, pm, v, o)
    ensures BestMatch(form, pm, v, o) == BestMatch(form, pm, v, o + 1)
    ensures BestMatch(form, pm, v, o).Some? ==> o < BestMatch(form, pm, v, o).value.o
  {
    var here, next := BestMatch(form, pm, v, o), BestMatch(form, pm, v, o + 1);
    if here.Some? {
      assert IsMatch(form, pm, v, here.value.o, here.value.e);
      BestIsUnique(form, pm, v, o + 1, here.value.o, here.value.e);
    } else if next.Some? {
      assert LeftmostLongest(form, pm, v, o, next.value.o, next.value.e);
    }
  }

  lemma NoMatchHere(form: Form, pm: Matcher, v: seq<Byte>, repl: seq<Byte>, o: nat)
    requires o < |v| && NoEnd(form, pm, v, o)
    ensures ReplaceFrom(form, pm, v, repl, o) == [v[o]] + ReplaceFrom(form, pm, v, repl, o + 1)
  {
    BestSkips(form, pm, v, o);
    var best := BestMatch(form, pm, v, o);
    if best.Some? {
      var p, q := best.value.o, best.value.e;
      var tail := if form.All? && q < |v| then ReplaceFrom(form, pm, v, repl, q) else v[q..];
      assert v[o..p] + repl + tail == [v[o]] + (v[o + 1..p] + repl + tail);
    } else {
      assert v[o..] == [v[o]] + v[o + 1..];
    }
  }

  lemma NoMatchAnywhere(form: Form, pm: Matcher, v: seq<Byte>, repl: seq<Byte>, from: nat)
    requires from <= |v| && forall o, e :: from <= o ==> !IsMatch(form, pm, v, o, e)
    ensures ReplaceFrom(form, pm, v, repl, from) == v[from..]
  {
  }

  /** The longest match at one place, or none. */
  ghost predicate LongestEnd(form: Form, pm: Matcher, v: seq<Byte>, o: int, e: int) {
    && IsMatch(form, pm, v, o, e)
    && forall e' :: IsMatch(form, pm, v, o, e') ==> e' <= e
  }

  ghost predicate NoEnd(form: Form, pm: Matcher, v: seq<Byte>, o: int) {
    forall e :: !IsMatch(form, pm, v, o, e)
  }

  /** Of the ends before `stop`, `best` is the longest, or there is none and it is -1. */
  ghost predicate BestBefore(form: Form, pm: Matcher, v: seq<Byte>, o: int, stop: int, best: int) {
    && (best >= 0 ==> best < stop && IsMatch(form, pm, v, o, best))
    && forall e :: IsMatch(form, pm, v, o, e) && e < stop ==> e <= best
  }

  /** A value in which nothing matches is left as it is; where something matches, the text
      up to the leftmost-longest match stays, and the match is replaced. */
  lemma ReplacesFirstMatch(form: Form, pm: Matcher, v: seq<Byte>, repl: seq<Byte>)
    ensures (forall o, e :: !IsMatch(form, pm, v, o, e)) ==> ReplaceFrom(form, pm, v, repl, 0) == v
    ensures (exists o, e :: IsMatch(form, pm, v, o, e)) ==>
              exists o, e :: LeftmostLongest(form, pm, v, 0, o, e) && v[..o] + repl <= ReplaceFrom(form, pm, v, repl, 0)
  {
    if o, e :| IsMatch(form, pm, v, o, e) {
      var first := FirstPlace(form, pm, v, 0, o, e);
      SomeLongestEnd(form, pm, v, first, |v|);
      var longest :| LongestEnd(form, pm, v, first, longest);
      assert LeftmostLongest(form, pm, v, 0, first, longest);
      BestIsUnique(form, pm, v, 0, first, longest);
      assert v[0..first] == v[..first];
    }
  }

  /** Among the places where something matches there is a first. */
  lemma {:induction false} FirstPlace(form: Form, pm: Matcher, v: seq<Byte>, from: nat, o: nat, e: nat)
    returns (first: nat)
    requires from <= o && IsMatch(form, pm, v, o, e)
    requires forall o', e' :: IsMatch(form, pm, v, o', e') ==> from <= o'
    ensures exists e' :: IsMatch(form, pm, v, first, e')
    ensures forall o', e' :: IsMatch(form, pm, v, o', e') ==> first <= o'
    decreases o - from
  {
    if exists e' :: IsMatch(form, pm, v, from, e') {
      first := from;
    } else {
      first := FirstPlace(form, pm, v, from + 1, o, e);
    }
  }

  /** Replacing a literal by itself changes nothing, in every form. */
  lemma {:induction false} SelfReplacementFrom(form: Form, pat: Pattern, v: seq<Byte>, from: nat)
    requires (forall el <- pat :: el.Literal?) && from <= |v|
    ensures ReplaceFrom(form, MatcherOf(pat), v, Characters(pat), from) == v[from..]
    decreases |v| - from
  {
    var best := BestMatch(form, MatcherOf(pat), v, from);
    if best.Some? {
      var o, e := best.value.o, best.value.e;
      assert IsMatch(form, MatcherOf(pat), v, o, e);
      LiteralsMatchOneString(pat, v[o..e]);
      if form.All? && e < |v| {
        SelfReplacementFrom(form, pat, v, e);
      }
      assert v[from..] == v[from..o] + v[o..e] + v[e..];
    }
  }

  lemma SelfReplacement(form: Form, pat: Pattern, v: seq<Byte>)
    requires forall el <- pat :: el.Literal?
    ensures Replacement(form, pat, v, Characters(pat)) == v
  {
    SelfReplacementFrom(form, pat, v, 0);
  }

  /** The NUL-free value `v` at `startloc`, with the NUL that ends it. */
  ghost predicate Holds(block: seq<Byte>, startloc: nat, v: seq<Byte>) {
    && startloc + |v| < |block|
    && block[startloc + |v|] == NUL
    && block[startloc..startloc + |v|] == v
    && NUL !in v
  }

  /** The C string at an offset. */
  function CString(block: seq<Byte>, off: nat): seq<Byte>
    decreases |block| - off
  {
    if off < |block| && block[off] != NUL then [block[off]] + CString(block, off + 1) else []
  }

  lemma {:induction false} CStringUpToNul(block: seq<Byte>, off: nat, s: seq<Byte>)
    requires off + |s| < |block| && block[off + |s|] == NUL
    requires forall i :: 0 <= i < |s| ==> s[i] != NUL && block[off + i] == s[i]
    ensures CString(block, off) == s
    decreases |s|
  {
    if s != [] {
      assert forall i :: 0 <= i < |s[1..]| ==> s[1..][i] == s[i + 1] && block[off + 1 + i] == s[i + 1];
      CStringUpToNul(block, off + 1, s[1..]);
      assert s == [s[0]] + s[1..];
    }
  }

  /** With a NUL put `e` characters into the value, the C string `o` characters into it is
      that slice of the value. */
  lemma CutShort(block: seq<Byte>, startloc: nat, v: seq<Byte>, o: nat, e: nat)
    requires Holds(block, startloc, v) && o <= e <= |v|
    ensures CString(block[startloc + e := NUL], startloc + o) == v[o..e]
  {
    ReadsValue(block, startloc, v);
    CStringUpToNul(block[startloc + e := NUL], startloc + o, v[o..e]);
  }

  lemma ReadsValue(block: seq<Byte>, startloc: nat, v: seq<Byte>)
    requires Holds(block, startloc, v)
    ensures forall i :: 0 <= i < |v| ==> v[i] != NUL && block[startloc + i] == v[i]
  {
    forall i | 0 <= i < |v| ensures v[i] != NUL && block[startloc + i] == v[i] {
      assert v[i] in v && block[startloc..startloc + |v|][i] == v[i];
    }
  }

  lemma StillHolds(was: seq<Byte>, built: seq<Byte>, startloc: nat, v: seq<Byte>)
    requires Holds(was, startloc, v)
    ensures Holds(was + built, startloc, v)
  {
    assert (was + built)[startloc..startloc + |v|] == was[startloc..startloc + |v|];
  }

  lemma SliceOfValue(block: seq<Byte>, startloc: nat, v: seq<Byte>, a: nat, b: nat)
    requires Holds(block, startloc, v) && a <= b <= |v|
    ensures block[startloc + a..startloc + b] == v[a..b]
  {
    ReadsValue(block, startloc, v);
  }

  /** Strings that match start with `c0`. */
  ghost predicate StartsWith(pm: Matcher, c0: Byte) {
    forall s :: pm(s) ==> s != [] && s[0] == c0
  }

  /** Strings that match have one length. */
  ghost predicate OneLength(pm: Matcher) {
    forall s, s' :: pm(s) && pm(s') ==> |s| == |s'|
  }

  lemma PrefilterRulesOut(form: Form, pm: Matcher, v: seq<Byte>, o: nat, c0: Byte)
    requires StartsWith(pm, c0) && o <= |v| && (o < |v| ==> v[o] != c0)
    ensures NoEnd(form, pm, v, o)
  {
  }

  lemma OnlyOneEnd(form: Form, pm: Matcher, v: seq<Byte>, o: nat, e: nat)
    requires OneLength(pm) && o <= e <= |v| && pm(v[o..e])
    ensures forall e' :: IsMatch(form, pm, v, o, e') ==> e' == e
  {
    forall e' | IsMatch(form, pm, v, o, e') ensures e' == e {
      assert |v[o..e']| == |v[o..e]|;
    }
  }

  predicate CanStart(form: Form, o: int) {
    !form.End? && (form.Beg? ==> o == 0)
  }

  /** `best` is the longest end at `o`, or -1 when there is none. */
  ghost predicate Outcome(form: Form, pm: Matcher, v: seq<Byte>, o: int, best: int) {
    if best < 0 then NoEnd(form, pm, v, o) else LongestEnd(form, pm, v, o, best)
  }

  /** One trial extends the search; at the end of the value, or for a literal, it is over. */
  lemma ExtendBest(form: Form, pm: Matcher, v: seq<Byte>, o: nat, stop: nat, best: int, ok: bool, literal: bool)
    requires BestBefore(form, pm, v, o, stop, best) && best >= -1 && CanStart(form, o)
    requires o <= stop <= |v| && (literal ==> OneLength(pm))
    requires ok == (pm(v[o..stop]) && (stop > o || Anchored(form) || |v| == 0))
    ensures BestBefore(form, pm, v, o, stop + 1, if ok then stop else best)
    ensures stop == |v| || (ok && literal) ==> Outcome(form, pm, v, o, if ok then stop else best)
  {
    assert ok == IsMatch(form, pm, v, o, stop);
    if ok && literal {
      OnlyOneEnd(form, pm, v, o, stop);
    }
  }

  lemma PatternMatcher(pat: Pattern)
    requires WellFormed(pat)
    ensures CanPrefilter(Text(pat)) ==> StartsWith(MatcherOf(pat), Text(pat)[0])
    ensures LooksLiteral(Text(pat)) ==> OneLength(MatcherOf(pat))
  {
    if CanPrefilter(Text(pat)) {
      forall s | Matches(pat, s) ensures s != [] && s[0] == Text(pat)[0] {
        PrefilterIsSound(pat, s);
      }
    }
    if LooksLiteral(Text(pat)) {
      LooksLiteralMeansLiterals(pat);
      forall s, s' | Matches(pat, s) && Matches(pat, s') ensures |s| == |s'| {
        LiteralsMatchOneString(pat, s);
        LiteralsMatchOneString(pat, s');
      }
    }
  }

  lemma Regroup(a: seq<Byte>, b: seq<Byte>, c: seq<Byte>)
    ensures a + b + c == a + (b + c)
  {
  }

  /** What a round finds at each place: the end of the longest match there, or -1. */
  ghost predicate AreEnds(form: Form, pm: Matcher, v: seq<Byte>, ends: seq<int>) {
    |ends| == |v| + 1 && forall o :: 0 <= o <= |v| ==> ends[o] >= -1 && Outcome(form, pm, v, o, ends[o])
  }

  ghost function EndAt(form: Form, pm: Matcher, v: seq<Byte>, o: nat): int
    requires o <= |v|
  {
    if e: int :| LongestEnd(form, pm, v, o, e) then e else -1
  }

  ghost function EndsOf(form: Form, pm: Matcher, v: seq<Byte>): seq<int> {
    seq(|v| + 1, o requires 0 <= o <= |v| => EndAt(form, pm, v, o))
  }

  /** What the value from each place on becomes. */
  ghost function RestOf(form: Form, pm: Matcher, v: seq<Byte>, repl: seq<Byte>): seq<seq<Byte>> {
    seq(|v| + 1, o requires 0 <= o <= |v| => ReplaceFrom(form, pm, v, repl, o))
  }

  /** How the end found at a place decides what becomes of the rest. */
  ghost predicate ExplainedAt(form: Form, v: seq<Byte>, repl: seq<Byte>, ends: seq<int>, rest: seq<seq<Byte>>, o: nat)
    requires |ends| == |rest| == |v| + 1 && o <= |v|
  {
    var e := ends[o];
    if e >= 0 then o <= e <= |v| && rest[o] == repl + (if form.All? && e < |v| then rest[e] else v[e..])
    else if o < |v| && !form.Beg? then rest[o] == [v[o]] + rest[o + 1]
    else o == |v| || o == 0 ==> rest[o] == v[o..]
  }

  ghost predicate Explained(form: Form, v: seq<Byte>, repl: seq<Byte>, ends: seq<int>, rest: seq<seq<Byte>>) {
    && |ends| == |rest| == |v| + 1
    && forall o :: 0 <= o <= |v| ==> ExplainedAt(form, v, repl, ends, rest, o)
  }

  lemma EndsExplainRest(form: Form, pm: Matcher, v: seq<Byte>, repl: seq<Byte>)
    ensures AreEnds(form, pm, v, EndsOf(form, pm, v))
    ensures Explained(form, v, repl, EndsOf(form, pm, v), RestOf(form, pm, v, repl))
  {
    var ends, rest := EndsOf(form, pm, v), RestOf(form, pm, v, repl);
    forall o | 0 <= o <= |v| ensures ends[o] >= -1 && Outcome(form, pm, v, o, ends[o]) {
      SomeLongestEnd(form, pm, v, o, |v|);
    }
    forall o | 0 <= o <= |v| ensures ExplainedAt(form, v, repl, ends, rest, o) {
      var e := ends[o];
      if e >= 0 {
        MatchHere(form, pm, v, repl, o, e);
      } else if o < |v| && !form.Beg? {
        NoMatchHere(form, pm, v, repl, o);
      } else if o == |v| || o == 0 {
        forall o', e' | o <= o' ensures !IsMatch(form, pm, v, o', e') {
        }
        NoMatchAnywhere(form, pm, v, repl, o);
      }
    }
  }

  /** Where anything matches, there is a longest match. */
  lemma {:induction false} SomeLongestEnd(form: Form, pm: Matcher, v: seq<Byte>, o: nat, bound: int)
    requires forall e :: IsMatch(form, pm, v, o, e) ==> e <= bound
    ensures NoEnd(form, pm, v, o) || exists e :: LongestEnd(form, pm, v, o, e)
    decreases bound - o
  {
    if IsMatch(form, pm, v, o, bound) {
      assert LongestEnd(form, pm, v, o, bound);
    } else if bound > o {
      SomeLongestEnd(form, pm, v, o, bound - 1);
    }
  }

  lemma EndIsUnique(form: Form, pm: Matcher, v: seq<Byte>, ends: seq<int>, o: nat, best: int)
    requires AreEnds(form, pm, v, ends) && o <= |v| && Outcome(form, pm, v, o, best) && best >= -1
    ensures best == ends[o]
  {
    if best >= 0 {
      assert IsMatch(form, pm, v, o, best);
    }
    if ends[o] >= 0 {
      assert IsMatch(form, pm, v, o, ends[o]);
    }
  }

  /** What is built, the characters passed over since, and what the rest is to become. */
  ghost predicate Progress(v: seq<Byte>, rest: seq<seq<Byte>>, built: seq<Byte>, cursor: int, o: int)
    requires |rest| == |v| + 1
  {
    0 <= cursor <= o <= |v| && built + v[cursor..o] + rest[o] == rest[0]
  }

  /** Only the rest of the value is left to copy. */
  ghost predicate Finished(v: seq<Byte>, rest: seq<seq<Byte>>, built: seq<Byte>, cursor: int)
    requires |rest| == |v| + 1
  {
    0 <= cursor <= |v| && built + v[cursor..] == rest[0]
  }

  lemma ReplacedHere(form: Form, v: seq<Byte>, repl: seq<Byte>, ends: seq<int>, rest: seq<seq<Byte>>, built: seq<Byte>,
                     cursor: nat, o: nat, e: nat)
    requires Explained(form, v, repl, ends, rest) && Progress(v, rest, built, cursor, o)
    requires ExplainedAt(form, v, repl, ends, rest, o)
    requires ends[o] == e
    ensures var built' := built + (v[cursor..o] + repl);
            if form.All? && e < |v| then Progress(v, rest, built', e, e) else Finished(v, rest, built', e)
  {
    var more := if form.All? && e < |v| then rest[e] else v[e..];
    Regroup(built, v[cursor..o], repl);
    Regroup(built + v[cursor..o], repl, more);
    assert built + v[cursor..o] + repl + v[e..e] == built + v[cursor..o] + repl;
  }

  lemma SkippedHere(form: Form, v: seq<Byte>, repl: seq<Byte>, ends: seq<int>, rest: seq<seq<Byte>>, built: seq<Byte>,
                    cursor: nat, o: nat)
    requires Explained(form, v, repl, ends, rest) && Progress(v, rest, built, cursor, o)
    requires ExplainedAt(form, v, repl, ends, rest, o)
    requires ends[o] == -1 && o < |v| && !form.Beg?
    ensures Progress(v, rest, built, cursor, o + 1)
  {
    assert v[cursor..o + 1] == v[cursor..o] + [v[o]];
    Regroup(built, v[cursor..o], [v[o]]);
    Regroup(built + v[cursor..o], [v[o]], rest[o + 1]);
  }

  lemma NothingLeft(form: Form, v: seq<Byte>, repl: seq<Byte>, ends: seq<int>, rest: seq<seq<Byte>>, built: seq<Byte>,
                    cursor: nat, o: nat)
    requires Explained(form, v, repl, ends, rest) && Progress(v, rest, built, cursor, o)
    requires ExplainedAt(form, v, repl, ends, rest, o)
    requires ends[o] == -1 && ((form.Beg? && o == 0) || o == |v|)
    ensures Finished(v, rest, built, cursor)
  {
    assert v[cursor..] == v[cursor..o] + v[o..];
    Regroup(built, v[cursor..o], v[o..]);
  }

  /** The part of dash's string stack the substitution works on: `block` up to `expdest`. */
  class ExpandStack {
    var block: seq<Byte>

    constructor (block: seq<Byte>)
      ensures this.block == block
    {
      this.block := block;
    }

    /** The slice of length n at `from` is repeated on top; nothing is when n is not positive. */
    method ReplCopy(from: nat, n: int)
      requires n > 0 ==> from + n <= |block|
      modifies this
      ensures block == old(block) + if n <= 0 then [] else old(block)[from..from + n]
    {
      if n <= 0 {
        return;
      }
      block := block + block[from..from + n];
    }

    /** Whether the value from `off` up to `eoff` matches: the value is cut short in place
        by a NUL for the trial, and put back. */
    method TryMatch(pm: Matcher, startloc: nat, off: nat, eoff: nat, ghost v: seq<Byte>) returns (ok: bool)
      requires Holds(block, startloc, v) && startloc <= off <= eoff <= startloc + |v|
      modifies this
      ensures block == old(block)
      ensures ok == pm(v[off - startloc..eoff - startloc])
    {
      var c := block[eoff];
      block := block[eoff := NUL];
      CutShort(old(block), startloc, v, off - startloc, eoff - startloc);
      ok := pm(CString(block, off));
      block := block[eoff := c];
      assert block == old(block);
    }

    /** The end of the longest match at `off`, or -1. */
    method LongestAt(form: Form, pm: Matcher, literal: bool, startloc: nat, endoff: nat, off: nat, ghost v: seq<Byte>)
      returns (bestend: int)
      requires Holds(block, startloc, v) && endoff == startloc + |v| && startloc <= off <= endoff
      requires literal ==> OneLength(pm)
      requires CanStart(form, off - startloc)
      modifies this
      ensures block == old(block) && (bestend == -1 || off <= bestend <= endoff)
      ensures Outcome(form, pm, v, off - startloc, if bestend < 0 then -1 else bestend - startloc)
    {
      ghost var o := off - startloc;
      ghost var best := -1;
      bestend := -1;
      var eoff := off;
      while true
        invariant off <= eoff <= endoff && block == old(block)
        invariant if best == -1 then bestend == -1 else bestend == best + startloc && off <= bestend < eoff
        invariant BestBefore(form, pm, v, o, eoff - startloc, best)
        decreases endoff - eoff
      {
        var ok := TryMatch(pm, startloc, off, eoff, v);
        ok := ok && (eoff > off || Anchored(form) || endoff == startloc);
        ExtendBest(form, pm, v, o, eoff - startloc, best, ok, literal);
        if ok {
          bestend := eoff;
          best := eoff - startloc;
          if literal {
            break;
          }
        }
        if eoff >= endoff {
          break;
        }
        eoff := eoff + 1;
      }
    }

    /** One round at `off`: the end of the match to replace, or -1. */
    method FindAt(form: Form, pm: Matcher, prefilter: bool, c0: Byte, literal: bool,
                  startloc: nat, endoff: nat, off: nat, ghost v: seq<Byte>, ghost ends: seq<int>) returns (bestend: int)
      requires AreEnds(form, pm, v, ends)
      requires Holds(block, startloc, v) && endoff == startloc + |v| && startloc <= off <= endoff
      requires prefilter ==> c0 != NUL && StartsWith(pm, c0)
      requires literal ==> OneLength(pm)
      requires form.Beg? ==> off == startloc
      modifies this
      ensures block == old(block) && (bestend == -1 || off <= bestend <= endoff)
      ensures ends[off - startloc] == if bestend < 0 then -1 else bestend - startloc
    {
      bestend := -1;
      if form.End? {
        CutShort(block, startloc, v, off - startloc, |v|);
        assert block[endoff := NUL] == block && v[off - startloc..|v|] == v[off - startloc..];
        if pm(CString(block, off)) {
          bestend := endoff;
        }
      } else {
        var ok := true;
        ReadsValue(block, startloc, v);
        if prefilter {
          ok := block[off] == c0;
        }
        if ok {
          bestend := LongestAt(form, pm, literal, startloc, endoff, off, v);
        } else {
          PrefilterRulesOut(form, pm, v, off - startloc, c0);
        }
      }
      EndIsUnique(form, pm, v, ends, off - startloc, if bestend < 0 then -1 else bestend - startloc);
    }

    /** The characters passed over since the last match, and the replacement text. */
    method CopyMatch(repl: seq<Byte>, cursor: nat, off: nat)
      requires cursor <= off <= |block|
      modifies this
      ensures block == old(block) + (old(block)[cursor..off] + repl)
    {
      ReplCopy(cursor, off - cursor);
      if |repl| > 0 {
        block := block + repl;
      }
    }

    /** One round: replace the match found at `off`, or pass over a character, or stop. */
    method Round(form: Form, pm: Matcher, prefilter: bool, c0: Byte, literal: bool, repl: seq<Byte>,
                 startloc: nat, endoff: nat, cursor: nat, off: nat,
                 ghost v: seq<Byte>, ghost ends: seq<int>, ghost rest: seq<seq<Byte>>, ghost was: seq<Byte>,
                   ghost built: seq<Byte>)
      returns (more: bool, cursor': nat, off': nat, ghost built': seq<Byte>)
      requires Holds(was, startloc, v) && endoff == startloc + |v| && block == was + built
      requires prefilter ==> c0 != NUL && StartsWith(pm, c0)
      requires literal ==> OneLength(pm)
      requires AreEnds(form, pm, v, ends) && Explained(form, v, repl, ends, rest)
      requires startloc <= cursor <= off <= endoff && (form.Beg? ==> off == startloc)
      requires Progress(v, rest, built, cursor - startloc, off - startloc)
      modifies this
      ensures block == was + built' && startloc <= cursor' <= off' <= endoff
      ensures more ==> off < off' && !form.Beg? && Progress(v, rest, built', cursor' - startloc, off' - startloc)
      ensures !more ==> Finished(v, rest, built', cursor' - startloc)
    {
      ghost var c, o := cursor - startloc, off - startloc;
      StillHolds(was, built, startloc, v);
      var bestend := FindAt(form, pm, prefilter, c0, literal, startloc, endoff, off, v, ends);
      assert ExplainedAt(form, v, repl, ends, rest, o);
      if bestend >= 0 {
        SliceOfValue(block, startloc, v, c, o);
        CopyMatch(repl, cursor, off);
        ReplacedHere(form, v, repl, ends, rest, built, c, o, bestend - startloc);
        Regroup(was, built, v[c..o] + repl);
        built' := built + (v[c..o] + repl);
        cursor' := bestend;
        off' := bestend;
        more := form.All? && off' < endoff;
      } else {
        built' := built;
        cursor' := cursor;
        if form.Beg? || off >= endoff {
          NothingLeft(form, v, repl, ends, rest, built, c, o);
          off' := off;
          more := false;
        } else {
          SkippedHere(form, v, repl, ends, rest, built, c, o);
          off' := off + 1;
          more := true;
        }
      }
    }

    /** The matching loop: everything it builds goes on top of the stack. */
    method BuildReplacement(form: Form, pm: Matcher, prefilter: bool, c0: Byte, literal: bool, repl: seq<Byte>,
                            startloc: nat, endoff: nat, ghost v: seq<Byte>, ghost ends: seq<int>,
                              ghost rest: seq<seq<Byte>>)
      returns (cursor: nat, ghost built: seq<Byte>)
      requires Holds(block, startloc, v) && endoff == startloc + |v|
      requires prefilter ==> c0 != NUL && StartsWith(pm, c0)
      requires literal ==> OneLength(pm)
      requires AreEnds(form, pm, v, ends) && Explained(form, v, repl, ends, rest)
      modifies this
      ensures startloc <= cursor <= endoff && block == old(block) + built
      ensures Finished(v, rest, built, cursor - startloc)
    {
      ghost var was := block;
      cursor := startloc;
      built := [];
      var off := startloc;
      var more := true;
      while more
        invariant startloc <= cursor <= off <= endoff && block == was + built
        invariant more ==> (form.Beg? ==> off == startloc)
        invariant if more then Progress(v, rest, built, cursor - startloc, off - startloc)
                  else Finished(v, rest, built, cursor - startloc)
        decreases more, endoff - off
      {
        more, cursor, off, built := Round(form, pm, prefilter, c0, literal, repl, startloc, endoff, cursor, off,
                                          v, ends, rest, was, built);
      }
    }

    /** Match, copy the rest, and move the result over the value. */
    method Substitute(form: Form, pm: Matcher, prefilter: bool, c0: Byte, literal: bool, repl: seq<Byte>,
                      startloc: nat, endoff: nat, ghost v: seq<Byte>, ghost ends: seq<int>, ghost rest: seq<seq<Byte>>)
      requires Holds(block, startloc, v) && endoff == startloc + |v|
      requires prefilter ==> c0 != NUL && StartsWith(pm, c0)
      requires literal ==> OneLength(pm)
      requires AreEnds(form, pm, v, ends) && Explained(form, v, repl, ends, rest)
      modifies this
      ensures block == old(block)[..startloc] + rest[0]
    {
      var resoff := |block|;
      ghost var was := block;
      var cursor;
      ghost var built;
      cursor, built := BuildReplacement(form, pm, prefilter, c0, literal, repl, startloc, endoff, v, ends, rest);
      StillHolds(was, built, startloc, v);
      FinishAt(startloc, endoff, cursor, resoff, was, built, v);
    }

    /** copyrest: what is left of the value goes up too, and the result down over it. */
    method FinishAt(startloc: nat, endoff: nat, cursor: nat, resoff: nat,
                    ghost was: seq<Byte>, ghost built: seq<Byte>, ghost v: seq<Byte>)
      requires Holds(block, startloc, v) && startloc <= cursor <= endoff == startloc + |v|
      requires block == was + built && resoff == |was| && startloc <= |was|
      modifies this
      ensures block == was[..startloc] + (built + v[cursor - startloc..])
    {
      SliceOfValue(block, startloc, v, cursor - startloc, |v|);
      assert v[cursor - startloc..|v|] == v[cursor - startloc..];
      ReplCopy(cursor, endoff - cursor);
      Regroup(was, built, v[cursor - startloc..]);
      var rlen := |block| - resoff;
      block := block[..startloc] + block[resoff..resoff + rlen];
    }

    /** What can be read off the pattern's text: its first character when that can be tested
        ahead, and whether it matches one length only. */
    static method Inspect(pat: Pattern) returns (prefilter: bool, c0: Byte, literal: bool)
      requires WellFormed(pat)
      ensures prefilter ==> c0 != NUL && StartsWith(MatcherOf(pat), c0)
      ensures literal ==> OneLength(MatcherOf(pat))
      ensures prefilter == CanPrefilter(Text(pat)) && literal == LooksLiteral(Text(pat))
    {
      var str := Text(pat);
      c0 := if str == [] then NUL else str[0];
      literal := LooksLiteral(str);
      prefilter := CanPrefilter(str);
      PatternMatcher(pat);
    }

    /** The substitution: the value at `startloc` is replaced in place by what the form
        specifies, and everything put above it on the way is dropped. */
    method SubEvalRepl(form: Form, pat: Pattern, repl: seq<Byte>, startloc: nat, patloc: nat, ghost v: seq<Byte>)
      requires WellFormed(pat)
      requires Holds(block, startloc, v) && patloc == startloc + |v| + 1
      modifies this
      ensures block == old(block)[..startloc] + Replacement(form, pat, v, repl)
    {
      var prefilter, c0, literal := Inspect(pat);
      var endoff := patloc - 1;
      if pat == [] && !Anchored(form) {
        // no anchor, no pattern: the value itself
        assert block + [] == block && [] + v[0..] == v;
        FinishAt(startloc, endoff, startloc, |block|, block, [], v);
      } else {
        ghost var pm := MatcherOf(pat);
        EndsExplainRest(form, pm, v, repl);
        Substitute(form, MatcherOf(pat), prefilter, c0, literal, repl, startloc, endoff,
                   v, EndsOf(form, pm, v), RestOf(form, pm, v, repl));
      }
    }
  }
}
