/** What the tracer exits with, over every sequence of what its waits bring. */
module ExitCodes {
  import opened Options
  import opened PtraceKernel
  import opened Supervision

  /** The code that the loop exits with, if it does. */
  function LoopExit(c: Config, mainCode: Option<int>, waits: seq<Wait>): Option<int>
    decreases waits
  {
    if waits == [] then None
    else
      var (exit, mainCode') := TurnEnds(c, mainCode, waits[0]);
      if exit.Some? then exit else LoopExit(c, mainCode', waits[1..])
  }

  /** The code a tracee of this pid ends with. */
  function EndCode(wait: Wait, pid: Pid): Option<int> {
    match wait
    case Exited(p, code) => if p == pid then Some(code) else None
    case Signaled(p, sig) => if p == pid then Some(128 + sig) else None
    case _ => None
  }

  predicate NoEnd(waits: seq<Wait>, pid: Pid) {
    forall wait <- waits :: wait != NoTracees && EndCode(wait, pid).None?
  }

  lemma {:induction false} NothingEnds(c: Config, mainCode: Option<int>, waits: seq<Wait>, rest: seq<Wait>)
    requires NoEnd(waits, c.child)
    ensures LoopExit(c, mainCode, waits + rest) == LoopExit(c, mainCode, rest)
    decreases waits
  {
    if waits == [] {
      assert waits + rest == rest;
    } else {
      assert (waits + rest)[1..] == waits[1..] + rest;
      assert waits[0] in waits;
      NothingEnds(c, mainCode, waits[1..], rest);
    }
  }

  /** Without a filter the tracer exits as the child does, at once, whatever else runs on. */
  lemma ExitsWithChild(c: Config, before: seq<Wait>, end: Wait, after: seq<Wait>)
    requires c.mode != Filtered && NoEnd(before, c.child) && EndCode(end, c.child).Some?
    ensures LoopExit(c, None, before + [end] + after) == EndCode(end, c.child)
  {
    assert before + [end] + after == before + ([end] + after);
    NothingEnds(c, None, before, [end] + after);
  }

  /** How the last tracee of this pid ended. */
  function LastEnd(waits: seq<Wait>, pid: Pid): Option<int> {
    if waits == [] then None else OrElse(LastEnd(waits[1..], pid), EndCode(waits[0], pid))
  }

  /** With a filter it exits when no tracee is left, with the code of the last one that had the
      child's pid, or 0. */
  lemma {:induction false} ExitsWithLast(c: Config, mainCode: Option<int>, waits: seq<Wait>)
    requires c.mode == Filtered && NoTracees !in waits
    ensures var last := OrElse(LastEnd(waits, c.child), mainCode);
            LoopExit(c, mainCode, waits + [NoTracees]) == Some(if last.Some? then last.value else 0)
    decreases waits
  {
    if waits == [] {
      assert waits + [NoTracees] == [NoTracees];
    } else {
      assert (waits + [NoTracees])[1..] == waits[1..] + [NoTracees];
      assert waits[0] in waits;
      ExitsWithLast(c, OrElse(EndCode(waits[0], c.child), mainCode), waits[1..]);
    }
  }

  /** So the child's own code is handed on exactly when no tracee that was given its pid after it
      ended otherwise. */
  lemma ChildsCodeExactlyWhen(c: Config, before: seq<Wait>, end: Wait, after: seq<Wait>)
    requires c.mode == Filtered && NoEnd(before, c.child) && EndCode(end, c.child).Some? && NoTracees !in after
    ensures LoopExit(c, None, before + [end] + after + [NoTracees]) == EndCode(end, c.child)
            <==> LastEnd(after, c.child) in {None, EndCode(end, c.child)}
  {
    assert before + [end] + after + [NoTracees] == before + ([end] + (after + [NoTracees]));
    NothingEnds(c, None, before, [end] + (after + [NoTracees]));
    assert ([end] + (after + [NoTracees]))[1..] == after + [NoTracees];
    ExitsWithLast(c, EndCode(end, c.child), after);
  }
}
