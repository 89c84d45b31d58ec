/** The seccomp filter: a compiler from a list of syscall numbers to a classic BPF program,
    the kernel's view of such a program, and the proof that the program decides membership. */
module Bpf {
  import opened Options

  const BPF_LD_W_ABS: nat := 0x20
  const BPF_JEQ_K: nat := 0x15
  const BPF_RET_K: nat := 0x06
  const AUDIT_ARCH_X86_64: nat := 0xc000003e
  const SECCOMP_RET_ALLOW: nat := 0x7fff0000
  const SECCOMP_RET_TRACE: nat := 0x7ff00000
  const BPF_MAXINSNS: nat := 4096
  const ARCH_OFFSET: nat := 4
  const NR_OFFSET: nat := 0

  type Byte = x: nat | x < 0x100
  type Word = x: nat | x < 0x1_0000_0000

  /** `struct sock_filter`. */
  datatype SockFilter = SockFilter(code: nat, jt: Byte, jf: Byte, k: nat)

  /** The two fields of `struct seccomp_data` a filter can ask for here. */
  datatype SeccompData = SeccompData(nr: Word, arch: Word)

  /** What the kernel does with a program: `None` when it runs off the end or meets an
      instruction outside the three forms above. */
  function Run(program: seq<SockFilter>, pc: nat, acc: nat, data: SeccompData): Option<nat>
    decreases |program| - pc
  {
    if pc >= |program| then None
    else
      var insn := program[pc];
      if insn.code == BPF_RET_K then Some(insn.k)
      else if insn.code == BPF_LD_W_ABS then
        if insn.k == ARCH_OFFSET then Run(program, pc + 1, data.arch, data)
        else if insn.k == NR_OFFSET then Run(program, pc + 1, data.nr, data)
        else None
      else if insn.code == BPF_JEQ_K then
        Run(program, pc + 1 + (if acc == insn.k then insn.jt else insn.jf), acc, data)
      else None
  }

  /** The kernel's admission check: size, opcodes, loads in range, every jump inside the
      program, and a return at the end. */
  ghost predicate Admitted(program: seq<SockFilter>) {
    && 0 < |program| <= BPF_MAXINSNS
    && program[|program| - 1].code == BPF_RET_K
    && forall i :: 0 <= i < |program| ==> InsnAdmitted(program, i)
  }

  ghost predicate InsnAdmitted(program: seq<SockFilter>, i: nat)
    requires i < |program|
  {
    var insn := program[i];
    || insn.code == BPF_RET_K
    || (insn.code == BPF_LD_W_ABS && insn.k in {ARCH_OFFSET, NR_OFFSET})
    || (insn.code == BPF_JEQ_K && i + 1 + insn.jt < |program| && i + 1 + insn.jf < |program|)
  }

  /** An admitted program answers every call. */
  lemma {:induction false} AdmittedHalts(program: seq<SockFilter>, pc: nat, acc: nat, data: SeccompData)
    requires Admitted(program) && pc < |program|
    ensures Run(program, pc, acc, data).Some?
    decreases |program| - pc
  {
    var insn := program[pc];
    assert InsnAdmitted(program, pc);
    if insn.code == BPF_LD_W_ABS {
      AdmittedHalts(program, pc + 1, if insn.k == ARCH_OFFSET then data.arch else data.nr, data);
    } else if insn.code == BPF_JEQ_K {
      AdmittedHalts(program, pc + 1 + (if acc == insn.k then insn.jt else insn.jf), acc, data);
    }
  }

  /** What the filter is for: stop on a wanted number of a 64-bit caller, allow the rest. */
  function Decision(wanted: seq<Word>, data: SeccompData): nat {
    if data.arch == AUDIT_ARCH_X86_64 && data.nr in wanted then SECCOMP_RET_TRACE else SECCOMP_RET_ALLOW
  }

  function Stmt(code: nat, k: nat): SockFilter { SockFilter(code, 0, 0, k) }

  function Jump(k: nat, jt: Byte, jf: Byte): SockFilter { SockFilter(BPF_JEQ_K, jt, jf, k) }

  /** The shape every generated program has; `as u8` truncates the jump distance. */
  ghost predicate HasShape(filter: seq<SockFilter>, wanted: seq<Word>) {
    var n := |wanted|;
    && |filter| == n + (if n > 0 then 6 else 5)
    && filter[0] == Stmt(BPF_LD_W_ABS, ARCH_OFFSET)
    && filter[1] == Jump(AUDIT_ARCH_X86_64, 1, 0)
    && filter[2] == Stmt(BPF_RET_K, SECCOMP_RET_ALLOW)
    && filter[3] == Stmt(BPF_LD_W_ABS, NR_OFFSET)
    && (forall j :: 4 <= j < 4 + n ==> filter[j] == Jump(wanted[j - 4], (n + 4 - j) % 0x100, 0))
    && filter[4 + n] == Stmt(BPF_RET_K, SECCOMP_RET_ALLOW)
    && (n > 0 ==> filter[5 + n] == Stmt(BPF_RET_K, SECCOMP_RET_TRACE))
  }

  /** Program construction. For up to 255 numbers the result is admitted by the kernel and
      decides exactly membership. */
  method BuildFilter(wanted: seq<Word>) returns (filter: seq<SockFilter>)
    ensures HasShape(filter, wanted)
    ensures |wanted| <= 255 ==> Admitted(filter)
    ensures |wanted| <= 255 ==>
              forall data :: Run(filter, 0, 0, data) == Some(Decision(wanted, data))
  {
    var n := |wanted|;
    filter := [];
    filter := filter + [Stmt(BPF_LD_W_ABS, ARCH_OFFSET)];
    filter := filter + [Jump(AUDIT_ARCH_X86_64, 1, 0)];
    filter := filter + [Stmt(BPF_RET_K, SECCOMP_RET_ALLOW)];
    filter := filter + [Stmt(BPF_LD_W_ABS, NR_OFFSET)];
    for i := 0 to n
      invariant |filter| == 4 + i
      invariant filter[..4] == [Stmt(BPF_LD_W_ABS, ARCH_OFFSET), Jump(AUDIT_ARCH_X86_64, 1, 0),
                                Stmt(BPF_RET_K, SECCOMP_RET_ALLOW), Stmt(BPF_LD_W_ABS, NR_OFFSET)]
      invariant forall j :: 4 <= j < 4 + i ==> filter[j] == Jump(wanted[j - 4], (n + 4 - j) % 0x100, 0)
    {
      filter := filter + [Jump(wanted[i], (n - i) % 0x100, 0)];
    }
    assert filter[0] == filter[..4][0] && filter[1] == filter[..4][1]
           && filter[2] == filter[..4][2] && filter[3] == filter[..4][3];
    filter := filter + [Stmt(BPF_RET_K, SECCOMP_RET_ALLOW)];
    if n > 0 {
      filter := filter + [Stmt(BPF_RET_K, SECCOMP_RET_TRACE)];
    }
    if n <= 255 {
      ShapeIsAdmitted(filter, wanted);
      forall data ensures Run(filter, 0, 0, data) == Some(Decision(wanted, data)) {
        FilterDecides(filter, wanted, data);
      }
    }
  }

  lemma ShapeIsAdmitted(filter: seq<SockFilter>, wanted: seq<Word>)
    requires HasShape(filter, wanted) && |wanted| <= 255
    ensures Admitted(filter)
  {
    forall i | 0 <= i < |filter| ensures InsnAdmitted(filter, i) {
    }
  }

  ghost predicate WantedFrom(wanted: seq<Word>, i: nat, nr: Word) {
    exists j :: i <= j < |wanted| && wanted[j] == nr
  }

  /** From the i-th comparison on, the program finds out whether the number is still to come. */
  lemma {:induction false} ComparisonsDecide(filter: seq<SockFilter>, wanted: seq<Word>, i: nat, data: SeccompData)
    requires HasShape(filter, wanted) && i <= |wanted| <= 255
    ensures Run(filter, 4 + i, data.nr, data)
         == Some(if WantedFrom(wanted, i, data.nr) then SECCOMP_RET_TRACE else SECCOMP_RET_ALLOW)
    decreases |wanted| - i
  {
    var n := |wanted|;
    if i == n {
      assert filter[4 + n] == Stmt(BPF_RET_K, SECCOMP_RET_ALLOW);
    } else if data.nr == wanted[i] {
      assert filter[4 + i] == Jump(wanted[i], n - i, 0);
      assert Run(filter, 5 + n, data.nr, data) == Some(SECCOMP_RET_TRACE);
    } else {
      assert filter[4 + i] == Jump(wanted[i], n - i, 0);
      ComparisonsDecide(filter, wanted, i + 1, data);
      assert WantedFrom(wanted, i, data.nr) == WantedFrom(wanted, i + 1, data.nr);
    }
  }

  lemma FilterDecides(filter: seq<SockFilter>, wanted: seq<Word>, data: SeccompData)
    requires HasShape(filter, wanted) && |wanted| <= 255
    ensures Run(filter, 0, 0, data) == Some(Decision(wanted, data))
  {
    ComparisonsDecide(filter, wanted, 0, data);
    assert WantedFrom(wanted, 0, data.nr) == (data.nr in wanted);
    assert Run(filter, 1, data.arch, data) == Run(filter, 0, 0, data);
    if data.arch == AUDIT_ARCH_X86_64 {
      assert Run(filter, 3, data.arch, data) == Run(filter, 4, data.nr, data);
    } else {
      assert Run(filter, 2, data.arch, data) == Some(SECCOMP_RET_ALLOW);
    }
  }

  ghost predicate Distinct(wanted: seq<Word>) {
    forall i, j :: 0 <= i < j < |wanted| ==> wanted[i] != wanted[j]
  }

  /** Where `as u8` truncates: the number 256 places from the end jumps nowhere. */
  lemma {:induction false} LostNumberFallsThrough(filter: seq<SockFilter>, wanted: seq<Word>, i: nat, data: SeccompData)
    requires HasShape(filter, wanted) && Distinct(wanted) && i <= |wanted|
    requires |wanted| > 255 && data.nr == wanted[|wanted| - 256]
    ensures Run(filter, 4 + i, data.nr, data) == Some(SECCOMP_RET_ALLOW)
    decreases |wanted| - i
  {
    var n := |wanted|;
    if i < n {
      assert filter[4 + i] == Jump(wanted[i], (n - i) % 0x100, 0);
      LostNumberFallsThrough(filter, wanted, i + 1, data);
    }
  }

  /** For distinct numbers the generated program is right exactly when at most 255 are wanted. */
  lemma FilterRightIff(filter: seq<SockFilter>, wanted: seq<Word>)
    requires HasShape(filter, wanted) && Distinct(wanted)
    ensures |wanted| <= 255 <==> (forall data :: Run(filter, 0, 0, data) == Some(Decision(wanted, data)))
  {
    if |wanted| <= 255 {
      forall data ensures Run(filter, 0, 0, data) == Some(Decision(wanted, data)) {
        FilterDecides(filter, wanted, data);
      }
    } else {
      var lost := SeccompData(wanted[|wanted| - 256], AUDIT_ARCH_X86_64);
      LostNumberFallsThrough(filter, wanted, 0, lost);
      assert Run(filter, 0, 0, lost) == Run(filter, 1, lost.arch, lost);
      assert Run(filter, 1, lost.arch, lost) == Run(filter, 3, lost.arch, lost);
      assert Run(filter, 3, lost.arch, lost) == Run(filter, 4, lost.nr, lost);
      assert Run(filter, 0, 0, lost) != Some(Decision(wanted, lost));
    }
  }
}
