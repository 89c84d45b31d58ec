/** What replacing comes to: for any pattern from its leftmost-longest matches, for an empty one and
    for plain text without a word about matching. */
module Replacements {
  import opened Options
  import opened ShellPattern
  import opened PatternReplace

  /** Something may be replaced at all. */
  predicate CanReplace(form: Form, pat: Pattern) { Anchored(form) || pat != [] }

  lemma NothingMatches(form: Form, pat: Pattern, v: seq<Byte>, repl: seq<Byte>)
    requires CanReplace(form, pat) ==> forall o, e :: !IsMatch(form, MatcherOf(pat), v, o, e)
    ensures Replacement(form, pat, v, repl) == v
  {
    if CanReplace(form, pat) {
      NoMatchAnywhere(form, MatcherOf(pat), v, repl, 0);
    }
  }

  /** The first match is replaced, the text before it stays, and so does the text behind it, unless all
      are to be replaced. */
  lemma FirstIsReplaced(form: Form, pat: Pattern, v: seq<Byte>, repl: seq<Byte>, o: nat, e: nat)
    requires CanReplace(form, pat) && LeftmostLongest(form, MatcherOf(pat), v, 0, o, e)
    ensures v[..o] + repl <= Replacement(form, pat, v, repl)
    ensures !form.All? ==> Replacement(form, pat, v, repl) == v[..o] + repl + v[e..]
  {
    BestIsUnique(form, MatcherOf(pat), v, 0, o, e);
    assert v[0..o] == v[..o];
  }

  /** Each span is the next match after the one before it, and nothing is left to match behind the
      last. */
  ghost predicate IsChain(pm: Matcher, v: seq<Byte>, from: int, spans: seq<Span>)
    decreases |spans|
  {
    0 <= from <= |v|
    && if spans == [] then forall o, e :: from <= o ==> !IsMatch(All, pm, v, o, e)
       else
         && LeftmostLongest(All, pm, v, from, spans[0].o, spans[0].e)
         && (if spans[0].e < |v| then IsChain(pm, v, spans[0].e, spans[1..]) else |spans| == 1)
  }

  /** The text with these spans replaced. */
  function Woven(v: seq<Byte>, from: int, spans: seq<Span>, repl: seq<Byte>): seq<Byte>
    decreases |spans|
  {
    if !(0 <= from <= |v|) then []
    else if spans == [] then v[from..]
    else if !(from <= spans[0].o <= |v|) then []
    else v[from..spans[0].o] + repl + Woven(v, spans[0].e, spans[1..], repl)
  }

  lemma {:induction false} ChainIsWoven(pm: Matcher, v: seq<Byte>, repl: seq<Byte>, from: nat, spans: seq<Span>)
    requires IsChain(pm, v, from, spans)
    ensures ReplaceFrom(All, pm, v, repl, from) == Woven(v, from, spans, repl)
    decreases |spans|
  {
    if spans == [] {
      NoMatchAnywhere(All, pm, v, repl, from);
    } else {
      var o, e := spans[0].o, spans[0].e;
      BestIsUnique(All, pm, v, from, o, e);
      if e < |v| {
        ChainIsWoven(pm, v, repl, e, spans[1..]);
      } else {
        assert spans[1..] == [] && v[e..] == [];
      }
    }
  }

  /** A first match there is, and a longest of those, if there is any. */
  lemma {:induction false} SomeBest(form: Form, pm: Matcher, v: seq<Byte>, from: nat)
    requires from <= |v|
    ensures (forall o, e :: from <= o ==> !IsMatch(form, pm, v, o, e))
            || exists o, e :: LeftmostLongest(form, pm, v, from, o, e)
    decreases |v| - from
  {
    if !NoEnd(form, pm, v, from) {
      SomeLongestEnd(form, pm, v, from, |v|);
      var e :| LongestEnd(form, pm, v, from, e);
      assert LeftmostLongest(form, pm, v, from, from, e);
    } else if from < |v| {
      var next := from + 1;
      SomeBest(form, pm, v, next);
      if o, e :| LeftmostLongest(form, pm, v, next, o, e) {
        assert LeftmostLongest(form, pm, v, from, o, e);
      }
    }
  }

  /** There is always a chain. */
  lemma {:induction false} SomeChain(pm: Matcher, v: seq<Byte>, from: nat) returns (spans: seq<Span>)
    requires from <= |v|
    ensures IsChain(pm, v, from, spans)
    decreases |v| - from
  {
    SomeBest(All, pm, v, from);
    spans := [];
    if o, e :| LeftmostLongest(All, pm, v, from, o, e) {
      if e < |v| {
        spans := SomeChain(pm, v, e);
      }
      spans := [Span(o, e)] + spans;
    }
  }

  /** Replacing all replaces every match of the chain, and keeps what is between them. */
  lemma AllAreReplaced(pat: Pattern, v: seq<Byte>, repl: seq<Byte>, spans: seq<Span>)
    requires pat != [] && IsChain(MatcherOf(pat), v, 0, spans)
    ensures Replacement(All, pat, v, repl) == Woven(v, 0, spans, repl)
  {
    ChainIsWoven(MatcherOf(pat), v, repl, 0, spans);
  }

  /** An empty pattern puts the text at the end it is anchored to, and does nothing otherwise. */
  lemma EmptyPatternInserts(v: seq<Byte>, repl: seq<Byte>)
    ensures Replacement(Beg, [], v, repl) == repl + v
    ensures Replacement(End, [], v, repl) == v + repl
    ensures Replacement(First, [], v, repl) == v && Replacement(All, [], v, repl) == v
  {
    var pm := MatcherOf([]);
    assert v[0..0] == [] && v[|v|..|v|] == [];
    assert LeftmostLongest(Beg, pm, v, 0, 0, 0);
    FirstIsReplaced(Beg, [], v, repl, 0, 0);
    assert LeftmostLongest(End, pm, v, 0, |v|, |v|) by {
      forall o, e | IsMatch(End, pm, v, o, e) ensures o == |v| && e == |v| {
        assert v[o..e] == [];
      }
    }
    FirstIsReplaced(End, [], v, repl, |v|, |v|);
    assert v[..0] + repl + v[0..] == repl + v && v[..|v|] + repl + v[|v|..] == v + repl;
  }

  /** A single star takes all of the value in every form, also of an empty one. */
  lemma StarTakesAll(form: Form, v: seq<Byte>, repl: seq<Byte>)
    ensures Replacement(form, [Star], v, repl) == repl
  {
    var pm := MatcherOf([Star]);
    StarMatches(v[0..|v|]);
    assert IsMatch(form, pm, v, 0, |v|);
    assert LeftmostLongest(form, pm, v, 0, 0, |v|);
    BestIsUnique(form, pm, v, 0, 0, |v|);
    assert v[0..0] + repl + v[|v|..] == repl;
  }

  lemma {:induction false} StarMatches(s: seq<Byte>)
    ensures Matches([Star], s)
  {
    if s != [] {
      StarMatches(s[1..]);
    } else {
      assert Matches([], s);
    }
  }

  /** Plain text replaced, without a word about matching: at the front, at the end, where it first
      occurs, or wherever it occurs, from left to right and without overlap. */
  function PlainReplaced(form: Form, text: seq<Byte>, v: seq<Byte>, repl: seq<Byte>): seq<Byte>
    requires text != []
    decreases |v|
  {
    var n := |text|;
    match form
    case Beg => if text <= v then repl + v[n..] else v
    case End => if n <= |v| && v[|v| - n..] == text then v[..|v| - n] + repl else v
    case First =>
      if v == [] then v
      else if text <= v then repl + v[n..]
      else [v[0]] + PlainReplaced(form, text, v[1..], repl)
    case All =>
      if v == [] then v
      else if text <= v then repl + PlainReplaced(form, text, v[n..], repl)
      else [v[0]] + PlainReplaced(form, text, v[1..], repl)
  }

  lemma PlainMatch(form: Form, pat: Pattern, v: seq<Byte>, o: int, e: int)
    requires (forall el <- pat :: el.Literal?) && Characters(pat) != []
    ensures var text := Characters(pat);
            IsMatch(form, MatcherOf(pat), v, o, e)
            <==> 0 <= o <= e <= |v| && v[o..e] == text && (form.Beg? ==> o == 0) && (form.End? ==> e == |v|)
  {
    if 0 <= o <= e <= |v| {
      LiteralsMatchOneString(pat, v[o..e]);
    }
  }

  /** At one place the text is there, or nothing matches. */
  lemma PlainHere(form: Form, pat: Pattern, v: seq<Byte>, o: nat)
    requires (forall el <- pat :: el.Literal?) && Characters(pat) != [] && o <= |v| && !Anchored(form)
    ensures if Characters(pat) <= v[o..] then LongestEnd(form, MatcherOf(pat), v, o, o + |Characters(pat)|)
            else NoEnd(form, MatcherOf(pat), v, o)
  {
    var text := Characters(pat);
    forall e ensures IsMatch(form, MatcherOf(pat), v, o, e) <==> e == o + |text| && text <= v[o..] {
      PlainMatch(form, pat, v, o, e);
      if o <= e <= |v| {
        assert v[o..e] == v[o..][..e - o];
      }
    }
  }

  lemma PlainStep(form: Form, text: seq<Byte>, v: seq<Byte>, repl: seq<Byte>)
    requires text != [] && !Anchored(form)
    ensures PlainReplaced(form, text, v, repl)
            == if v == [] then []
               else if text <= v then
                 var rest := v[|text|..];
                 repl + (if form.All? && rest != [] then PlainReplaced(form, text, rest, repl) else rest)
               else [v[0]] + PlainReplaced(form, text, v[1..], repl)
  {
    if form.All? && text <= v && |text| == |v| {
      assert v[|text|..] == [] && PlainReplaced(form, text, [], repl) == [];
    }
  }

  lemma {:induction false} PlainFrom(form: Form, pat: Pattern, v: seq<Byte>, repl: seq<Byte>, from: nat)
    requires (forall el <- pat :: el.Literal?) && Characters(pat) != [] && from <= |v| && !Anchored(form)
    ensures ReplaceFrom(form, MatcherOf(pat), v, repl, from) == PlainReplaced(form, Characters(pat), v[from..], repl)
    decreases |v| - from
  {
    hide LongestEnd;
    hide NoEnd;
    hide Matches;
    hide ReplaceFrom;
    hide PlainReplaced;
    var text, pm, rest := Characters(pat), MatcherOf(pat), v[from..];
    hide Characters;
    hide MatcherOf;
    PlainStep(form, text, rest, repl);
    PlainHere(form, pat, v, from);
    if from == |v| {
      EndIsKept(form, pat, v, repl);
    } else if text <= rest {
      var e := from + |text|;
      MatchHere(form, pm, v, repl, from, e);
      assert rest[|text|..] == v[e..];
      if form.All? && e < |v| {
        PlainFrom(form, pat, v, repl, e);
      }
    } else {
      NoMatchHere(form, pm, v, repl, from);
      PlainFrom(form, pat, v, repl, from + 1);
      assert rest[1..] == v[from + 1..];
    }
  }

  lemma EndIsKept(form: Form, pat: Pattern, v: seq<Byte>, repl: seq<Byte>)
    requires (forall el <- pat :: el.Literal?) && Characters(pat) != []
    ensures ReplaceFrom(form, MatcherOf(pat), v, repl, |v|) == []
  {
    forall o, e | |v| <= o ensures !IsMatch(form, MatcherOf(pat), v, o, e) {
      PlainMatch(form, pat, v, o, e);
    }
    NoMatchAnywhere(form, MatcherOf(pat), v, repl, |v|);
  }

  /** Where an anchored text has to start. */
  function AnchoredAt(form: Form, text: seq<Byte>, v: seq<Byte>): int { if form.Beg? then 0 else |v| - |text| }

  predicate IsAnchored(form: Form, text: seq<Byte>, v: seq<Byte>) {
    |text| <= |v| && var o := AnchoredAt(form, text, v); v[o..o + |text|] == text
  }

  lemma PlainWhenAnchored(form: Form, text: seq<Byte>, v: seq<Byte>, repl: seq<Byte>)
    requires text != [] && Anchored(form)
    ensures var o := AnchoredAt(form, text, v);
            PlainReplaced(form, text, v, repl)
            == if IsAnchored(form, text, v) then v[..o] + repl + v[o + |text|..] else v
  {
    if |text| <= |v| {
      if form.Beg? {
        assert text <= v <==> v[0..|text|] == text;
        assert v[..0] + repl == repl;
      } else {
        assert v[|v| - |text|..] == v[|v| - |text|..|v|] && v[|v|..] == [];
      }
    }
  }

  lemma AnchoredMatch(form: Form, pat: Pattern, v: seq<Byte>, o: int, e: int)
    requires (forall el <- pat :: el.Literal?) && Characters(pat) != [] && Anchored(form)
    ensures var text := Characters(pat);
            IsMatch(form, MatcherOf(pat), v, o, e)
            <==> IsAnchored(form, text, v) && o == AnchoredAt(form, text, v) && e == o + |text|
  {
    PlainMatch(form, pat, v, o, e);
  }

  lemma PlainAnchored(form: Form, pat: Pattern, v: seq<Byte>, repl: seq<Byte>)
    requires (forall el <- pat :: el.Literal?) && Characters(pat) != [] && Anchored(form)
    ensures Replacement(form, pat, v, repl) == PlainReplaced(form, Characters(pat), v, repl)
  {
    var text, pm := Characters(pat), MatcherOf(pat);
    forall o, e ensures IsMatch(form, pm, v, o, e)
                        <==> IsAnchored(form, text, v) && o == AnchoredAt(form, text, v) && e == o + |text| {
      AnchoredMatch(form, pat, v, o, e);
    }
    PlainWhenAnchored(form, text, v, repl);
    hide IsMatch;
    hide Characters;
    hide Replacement;
    hide PlainReplaced;
    if IsAnchored(form, text, v) {
      var o := AnchoredAt(form, text, v);
      assert LeftmostLongest(form, pm, v, 0, o, o + |text|);
      hide LeftmostLongest;
      FirstIsReplaced(form, pat, v, repl, o, o + |text|);
    } else {
      NothingMatches(form, pat, v, repl);
    }
  }

  /** A pattern without wildcards is replaced as plain text is, in every form. */
  lemma PlainTextIsReplaced(form: Form, pat: Pattern, v: seq<Byte>, repl: seq<Byte>)
    requires (forall el <- pat :: el.Literal?) && Characters(pat) != []
    ensures Replacement(form, pat, v, repl) == PlainReplaced(form, Characters(pat), v, repl)
  {
    if Anchored(form) {
      PlainAnchored(form, pat, v, repl);
    } else {
      PlainFrom(form, pat, v, repl, 0);
      assert v[0..] == v;
    }
  }

  /** The first k characters are for the one pattern, and the rest for the other. */
  predicate SplitsAt(p: Pattern, q: Pattern, s: seq<Byte>, k: int) {
    0 <= k <= |s| && Matches(p, s[..k]) && Matches(q, s[k..])
  }

  /** Of a pattern and one more element in front of it. */
  lemma SplitFurther(p: Pattern, q: Pattern, s: seq<Byte>, k: int)
    requires p != [] && s != [] && 0 <= k < |s|
    ensures SplitsAt(p[1..], q, s[1..], k) && !p[0].Star? && Matches([p[0]], s[..1]) ==> SplitsAt(p, q, s, k + 1)
    ensures SplitsAt(p, q, s[1..], k) && p[0].Star? ==> SplitsAt(p, q, s, k + 1)
    ensures SplitsAt(p, q, s, k + 1) && !p[0].Star? ==> SplitsAt(p[1..], q, s[1..], k) && Matches([p[0]], s[..1])
    ensures SplitsAt(p, q, s, k + 1) && p[0].Star? ==> SplitsAt(p, q, s[1..], k) || SplitsAt(p[1..], q, s, k + 1)
  {
    assert s[..k + 1][1..] == s[1..][..k] && s[k + 1..] == s[1..][k..];
    assert s[..1][1..] == [] && [p[0]][1..] == [];
    assert Matches([], []);
  }

  /** Patterns match one after the other: so what one is made of says all about what it matches. */
  lemma {:induction false} PartsMatchInTurn(p: Pattern, q: Pattern, s: seq<Byte>)
    ensures Matches(p + q, s) <==> exists k :: SplitsAt(p, q, s, k)
    decreases |p| + |s|, 2
  {
    if p == [] {
      assert p + q == q && s[..0] == [] && s[0..] == s;
      assert SplitsAt(p, q, s, 0) <==> Matches(q, s);
    } else {
      assert (p + q)[0] == p[0] && (p + q)[1..] == p[1..] + q;
      if s != [] {
        TailSplits(p, q, s);
      } else if p[0].Star? {
        PartsMatchInTurn(p[1..], q, s);
        assert s[..0] == s;
        assert SplitsAt(p, q, s, 0) <==> SplitsAt(p[1..], q, s, 0);
      }
    }
  }

  lemma TailSplits(p: Pattern, q: Pattern, s: seq<Byte>)
    requires p != [] && s != []
    ensures Matches(p + q, s) <==> exists k :: SplitsAt(p, q, s, k)
    decreases |p| + |s|, 1
  {
    assert (p + q)[0] == p[0] && (p + q)[1..] == p[1..] + q;
    assert s[..0] == [] && s[0..] == s && s[..1][1..] == [] && [p[0]][1..] == [];
    forall k | SplitsAt(p, q, s, k) ensures Matches(p + q, s) {
      OneWay(p, q, s, k);
    }
    if Matches(p + q, s) {
      OtherWay(p, q, s);
    }
  }

  lemma OneWay(p: Pattern, q: Pattern, s: seq<Byte>, k: int)
    requires p != [] && s != [] && SplitsAt(p, q, s, k)
    ensures Matches(p + q, s)
    decreases |p| + |s|, 0
  {
    assert (p + q)[0] == p[0] && (p + q)[1..] == p[1..] + q;
    assert s[..0] == [] && s[0..] == s && s[..1][1..] == [] && [p[0]][1..] == [];
    PartsMatchInTurn(p[1..], q, s[1..]);
    PartsMatchInTurn(p, q, s[1..]);
    PartsMatchInTurn(p[1..], q, s);
    if k > 0 {
      SplitFurther(p, q, s, k - 1);
    } else {
      assert p[0].Star? && SplitsAt(p[1..], q, s, 0);
    }
  }

  lemma OtherWay(p: Pattern, q: Pattern, s: seq<Byte>)
    requires p != [] && s != [] && Matches(p + q, s)
    ensures exists k :: SplitsAt(p, q, s, k)
    decreases |p| + |s|, 0
  {
    assert (p + q)[0] == p[0] && (p + q)[1..] == p[1..] + q;
    if !p[0].Star? {
      PartsMatchInTurn(p[1..], q, s[1..]);
      var k :| SplitsAt(p[1..], q, s[1..], k);
      assert [p[0]][1..] == [] && s[..1][1..] == [] && Matches([p[0]], s[..1]);
      SplitFurther(p, q, s, k);
    } else if Matches(p[1..] + q, s) {
      PartsMatchInTurn(p[1..], q, s);
      var k :| SplitsAt(p[1..], q, s, k);
      assert SplitsAt(p, q, s, k);
    } else {
      PartsMatchInTurn(p, q, s[1..]);
      var k :| SplitsAt(p, q, s[1..], k);
      SplitFurther(p, q, s, k);
    }
  }

  /** And what one element matches. */
  lemma OneElement(el: Element, s: seq<Byte>)
    ensures Matches([el], s)
            <==> match el
                 case Star => true
                 case Any => |s| == 1
                 case Literal(c, _) => s == [c]
                 case Bracket(members, _) => |s| == 1 && s[0] in members
  {
    assert [el][1..] == [];
    if el.Star? {
      StarMatches(s);
    } else if s != [] {
      assert s == [s[0]] + s[1..];
    }
  }
}
