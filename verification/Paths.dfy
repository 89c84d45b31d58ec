/** Path strings, and the buffers that hold them. */
module Paths {
  const MAX_PATH: nat := 4096
  const NUL: char := '\0'

  /** No terminator inside. */
  predicate IsText(s: string) { forall k :: 0 <= k < |s| ==> s[k] != NUL }

  /** A buffer holds a string from `at` on, up to its terminator. */
  predicate Holds(buffer: seq<char>, at: nat, s: string) {
    && IsText(s)
    && at + |s| < |buffer|
    && (forall k :: 0 <= k < |s| ==> buffer[at + k] == s[k])
    && buffer[at + |s|] == NUL
  }

  /** A buffer holds at most one string at a place. */
  lemma HoldsOne(buffer: seq<char>, at: nat, s: string, t: string)
    requires Holds(buffer, at, s) && Holds(buffer, at, t)
    ensures s == t
  {
    NoLonger(buffer, at, s, t);
    NoLonger(buffer, at, t, s);
  }

  lemma NoLonger(buffer: seq<char>, at: nat, s: string, t: string)
    requires Holds(buffer, at, s) && Holds(buffer, at, t)
    ensures |t| <= |s|
  {
    if |s| < |t| {
      HeldAt(buffer, at, t, |s|);
    }
  }

  lemma HeldAt(buffer: seq<char>, at: nat, s: string, k: nat)
    requires Holds(buffer, at, s) && k < |s|
    ensures buffer[at + k] == s[k] && s[k] != NUL
  {
  }

  lemma HeldEnd(buffer: seq<char>, at: nat, s: string)
    requires Holds(buffer, at, s)
    ensures at + |s| < |buffer| && buffer[at + |s|] == NUL
  {
  }

  /** strlen */
  method StringLength(buffer: array<char>, at: nat, ghost s: string) returns (n: nat)
    requires Holds(buffer[..], at, s)
    ensures n == |s|
  {
    n := 0;
    assert s != "" ==> buffer[..][at + 0] == s[0];
    while buffer[at + n] != NUL
      invariant n <= |s| && (n < |s| ==> buffer[at + n] != NUL)
      decreases |s| - n
    {
      n := n + 1;
      assert n < |s| ==> buffer[..][at + n] == s[n];
    }
  }

  /** memcpy of a text into a buffer. */
  method Append(out: array<char>, ti: nat, text: string) returns (end: nat)
    requires ti + |text| < out.Length
    modifies out
    ensures end == ti + |text|
    ensures out[..end] == old(out[..ti]) + text
  {
    for k := 0 to |text|
      invariant out[..ti + k] == old(out[..ti]) + text[..k]
    {
      out[ti + k] := text[k];
      assert text[..k + 1] == text[..k] + [text[k]];
    }
    assert text[..|text|] == text;
    end := ti + |text|;
  }

  /** Where a character first occurs; the length when it does not. */
  function Find(s: string, c: char): (r: nat)
    ensures r <= |s|
    ensures c !in s[..r] && (r < |s| ==> s[r] == c)
  {
    if s == "" || s[0] == c then 0
    else
      var r := Find(s[1..], c);
      assert s[..r + 1] == [s[0]] + s[1..][..r];
      r + 1
  }

  /** The first occurrence is the only place like it. */
  lemma FindIs(s: string, c: char, k: nat)
    requires k <= |s| && c !in s[..k] && (k < |s| ==> s[k] == c)
    ensures Find(s, c) == k
  {
  }

  /** Length without trailing slashes. */
  function PathLen(path: string): (r: nat)
    ensures r <= |path|
    ensures r > 0 ==> path[r - 1] != '/'
    ensures forall k :: r <= k < |path| ==> path[k] == '/'
  {
    if path != "" && path[|path| - 1] == '/' then PathLen(path[..|path| - 1]) else |path|
  }

  method PathLength(path: string) returns (r: nat)
    ensures r == PathLen(path)
  {
    r := |path|;
    while r > 0 && path[r - 1] == '/'
      invariant r <= |path| && PathLen(path[..r]) == PathLen(path)
    {
      assert path[..r][..r - 1] == path[..r - 1];
      r := r - 1;
    }
    assert r == 0 || path[..r][r - 1] != '/';
  }

  /** `prefix`, without its trailing slashes, is the path or one of its parents. */
  predicate Under(prefix: string, path: string) {
    var n := PathLen(prefix);
    prefix[..n] <= path && (n == |path| || path[n] == '/')
  }

  method PrefixMatches(prefix: string, path: string) returns (r: bool)
    ensures r == Under(prefix, path)
  {
    var n := PathLength(prefix);
    if |path| < n || path[..n] != prefix[..n] {
      return false;
    }
    r := n == |path| || path[n] == '/';
  }
}
