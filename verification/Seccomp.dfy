/**
 The seccomp filter of the sandbox (`nexpackd/src/sandbox.rs`): the emitted bytes, the kernel's
 reading of them as classic-BPF instructions, and what running them decides.
 */
module Seccomp {
  import opened ByteCodec
  import opened Permission

  // ----- Classic BPF, as the kernel sees it -----

  type u16 = n: int | 0 <= n < 0x1_0000

  // `struct sock_filter`.
  datatype Insn = Insn(code: u16, jt: byte, jf: byte, k: u32)

  const LD_W_ABS: u16 := 0x20 // BPF_LD | BPF_W | BPF_ABS
  const JMP_JEQ_K: u16 := 0x15 // BPF_JMP | BPF_JEQ | BPF_K
  const RET_K: u16 := 0x06 // BPF_RET | BPF_K

  const RET_KILL: u32 := 0x0000_0000
  const RET_ERRNO_EPERM: u32 := 0x0005_0001 // SECCOMP_RET_ERRNO | EPERM
  const RET_ALLOW: u32 := 0x7FFF_0000

  const AUDIT_ARCH_X86_64: u32 := 0xC000_003E

  // `struct seccomp_data` as its sixteen 32-bit words: the call number, then the architecture.
  type SeccompData = d: seq<u32> | |d| == 16 witness seq(16, _ => 0)

  function Nr(d: SeccompData): u32 { d[0] }
  function Arch(d: SeccompData): u32 { d[1] }

  function DecodeInsn(b: Bytes): Insn
    requires |b| == 8
  {
    FieldBounds(b);
    Insn(FromLittle(b[0..2]), b[2], b[3], FromLittle(b[4..8]))
  }

  lemma FieldBounds(b: Bytes)
    requires |b| == 8
    ensures FromLittle(b[0..2]) < U16_LIMIT && FromLittle(b[4..8]) < U32_LIMIT
  {
    Pow256Values();
    LittleOnto(b[0..2]);
    LittleOnto(b[4..8]);
  }

  function DecodeProgram(b: Bytes): Option<seq<Insn>> {
    if b == [] then Some([])
    else if |b| < 8 then None
    else
      match DecodeProgram(b[8..])
      case None => None
      case Some(rest) => Some([DecodeInsn(b[..8])] + rest)
  }

  datatype Verdict = Returned(k: u32) | Fault

  // Runs a program with accumulator `acc`.  Jumps only go forward, so what is left to run is
  // a suffix; leaving the program, a bad load or an unknown instruction is a fault.
  function Exec(prog: seq<Insn>, data: SeccompData, acc: u32): Verdict
    decreases |prog|
  {
    if prog == [] then Fault
    else
      var i := prog[0];
      if i.code == RET_K then Returned(i.k)
      else if i.code == LD_W_ABS then
        if i.k % 4 == 0 && i.k / 4 < 16 then Exec(prog[1..], data, data[i.k / 4]) else Fault
      else if i.code == JMP_JEQ_K then
        var next := 1 + if acc == i.k then i.jt else i.jf;
        if next <= |prog| then Exec(prog[next..], data, acc) else Fault
      else Fault
  }

  function RunFilter(b: Bytes, data: SeccompData): Verdict {
    match DecodeProgram(b)
    case None => Fault
    case Some(prog) => Exec(prog, data, 0)
  }

  // What the kernel checks of these instructions before it installs a filter.
  predicate InsnChecks(i: Insn, following: nat) {
    || (i.code == RET_K)
    || (i.code == LD_W_ABS && i.k % 4 == 0 && i.k / 4 < 16)
    || (i.code == JMP_JEQ_K && i.jt < following && i.jf < following)
  }

  const MAX_INSNS: nat := 4096

  predicate KernelAccepts(prog: seq<Insn>) {
    && prog != [] && |prog| <= MAX_INSNS && prog[|prog| - 1].code == RET_K
    && forall j :: 0 <= j < |prog| ==> InsnChecks(prog[j], |prog| - 1 - j)
  }

  // ----- The compiler -----

  function BpfStmt(code: u16, k: u32): (b: Bytes)
    ensures |b| == 8
  {
    Little(2, code) + [0, 0] + Little(4, k)
  }

  function BpfJump(code: u16, k: u32, jt: byte, jf: byte): (b: Bytes)
    ensures |b| == 8
  {
    Little(2, code) + [jt, jf] + Little(4, k)
  }

  function TestsFor(list: seq<u32>): Bytes {
    if list == [] then []
    else TestsFor(list[..|list| - 1])
         + BpfJump(JMP_JEQ_K, list[|list| - 1], 0, 1) + BpfStmt(RET_K, RET_ERRNO_EPERM)
  }

  function ArchGuard(): Bytes {
    BpfStmt(LD_W_ABS, 4) + BpfJump(JMP_JEQ_K, AUDIT_ARCH_X86_64, 1, 0) + BpfStmt(RET_K, RET_KILL) + BpfStmt(LD_W_ABS, 0)
  }

  function DenyListFilter(list: seq<u32>): Bytes {
    ArchGuard() + TestsFor(list) + BpfStmt(RET_K, RET_ALLOW)
  }

  function AllowAllFilter(): Bytes { BpfStmt(RET_K, RET_ALLOW) }

  method BlockSyscalls(blacklist: seq<u32>) returns (prog: Bytes)
    ensures prog == DenyListFilter(blacklist)
  {
    hide BpfStmt, BpfJump;
    prog := [];
    prog := prog + BpfStmt(LD_W_ABS, 4);
    prog := prog + BpfJump(JMP_JEQ_K, AUDIT_ARCH_X86_64, 1, 0);
    prog := prog + BpfStmt(RET_K, RET_KILL);
    prog := prog + BpfStmt(LD_W_ABS, 0);
    assert prog == ArchGuard() + TestsFor(blacklist[..0]);
    for i := 0 to |blacklist|
      invariant prog == ArchGuard() + TestsFor(blacklist[..i])
    {
      var jump, stmt := BpfJump(JMP_JEQ_K, blacklist[i], 0, 1), BpfStmt(RET_K, RET_ERRNO_EPERM);
      prog := prog + jump;
      prog := prog + stmt;
      assert blacklist[..i + 1][..i] == blacklist[..i];
      Regroup(ArchGuard(), TestsFor(blacklist[..i]), jump, stmt);
    }
    assert blacklist[..|blacklist|] == blacklist;
    prog := prog + BpfStmt(RET_K, RET_ALLOW);
  }

  lemma Regroup(a: Bytes, b: Bytes, c: Bytes, d: Bytes)
    ensures ((a + b) + c) + d == a + ((b + c) + d)
  {
  }

  const BLACKLIST: seq<u32> := [41, 42, 43, 44, 45, 46, 47, 48, 49, 50, 51, 52, 53, 54, 57, 288]

  function HasNetwork(perm: PermissionSet): bool {
    match perm.network
    case Allowed(b) => b
    case Patterns(_) => true
  }

  function SeccompFilter(perm: PermissionSet): Bytes {
    if HasNetwork(perm) then AllowAllFilter() else DenyListFilter(BLACKLIST)
  }

  method GenerateSeccompFilter(perm: PermissionSet) returns (prog: Bytes)
    ensures prog == SeccompFilter(perm)
  {
    var hasNetwork := HasNetwork(perm);
    if hasNetwork {
      return AllowAllFilter();
    }
    prog := BlockSyscalls(BLACKLIST);
  }

  // ----- What the emitted bytes decode to -----

  function Encoded(i: Insn): (b: Bytes)
    ensures |b| == 8
  {
    BpfJump(i.code, i.k, i.jt, i.jf)
  }

  function EncodedAll(prog: seq<Insn>): Bytes {
    if prog == [] then [] else Encoded(prog[0]) + EncodedAll(prog[1..])
  }

  lemma InsnRoundTrip(i: Insn)
    ensures DecodeInsn(Encoded(i)) == i
  {
    hide Pow256, Little, FromLittle;
    Pow256Values();
    LittleInverts(2, i.code);
    LittleInverts(4, i.k);
    var b := Encoded(i);
    assert b[0..2] == Little(2, i.code) && b[4..8] == Little(4, i.k);
  }

  lemma {:induction false} ProgramRoundTrip(prog: seq<Insn>)
    ensures DecodeProgram(EncodedAll(prog)) == Some(prog)
  {
    hide DecodeInsn, Encoded;
    if prog != [] {
      var b, rest := Encoded(prog[0]), EncodedAll(prog[1..]);
      InsnRoundTrip(prog[0]);
      ProgramRoundTrip(prog[1..]);
      assert (b + rest)[..8] == b && (b + rest)[8..] == rest;
      assert prog == [prog[0]] + prog[1..];
    }
  }

  lemma {:induction false} EncodedConcat(p: seq<Insn>, q: seq<Insn>)
    ensures EncodedAll(p + q) == EncodedAll(p) + EncodedAll(q)
  {
    hide Encoded;
    if p == [] {
      assert p + q == q;
    } else {
      assert (p + q)[1..] == p[1..] + q;
      EncodedConcat(p[1..], q);
      Assoc(Encoded(p[0]), EncodedAll(p[1..]), EncodedAll(q));
    }
  }

  // The two instructions per listed call, first one first.
  function Tests(list: seq<u32>): (p: seq<Insn>)
    ensures |p| == 2 * |list|
  {
    if list == [] then []
    else [Insn(JMP_JEQ_K, 0, 1, list[0]), Insn(RET_K, 0, 0, RET_ERRNO_EPERM)] + Tests(list[1..])
  }

  function Guard(): seq<Insn> {
    [ Insn(LD_W_ABS, 0, 0, 4), Insn(JMP_JEQ_K, 1, 0, AUDIT_ARCH_X86_64), Insn(RET_K, 0, 0, RET_KILL),
      Insn(LD_W_ABS, 0, 0, 0) ]
  }

  function Program(list: seq<u32>): seq<Insn> { Guard() + (Tests(list) + [Insn(RET_K, 0, 0, RET_ALLOW)]) }

  lemma EncodedOne(i: Insn)
    ensures EncodedAll([i]) == Encoded(i)
  {
    assert Encoded(i) + [] == Encoded(i);
  }

  lemma EncodedTwo(i: Insn, j: Insn)
    ensures EncodedAll([i, j]) == Encoded(i) + Encoded(j)
  {
    hide Encoded;
    EncodedOne(i);
    EncodedOne(j);
    EncodedConcat([i], [j]);
    assert [i] + [j] == [i, j];
  }

  lemma {:induction false} TestsSnoc(list: seq<u32>, nr: u32)
    ensures Tests(list + [nr]) == Tests(list) + [Insn(JMP_JEQ_K, 0, 1, nr), Insn(RET_K, 0, 0, RET_ERRNO_EPERM)]
  {
    if list == [] {
      assert [] + [nr] == [nr] && [nr][1..] == [];
    } else {
      assert (list + [nr])[1..] == list[1..] + [nr];
      TestsSnoc(list[1..], nr);
    }
  }

  lemma {:induction false} TestsEncode(list: seq<u32>)
    ensures TestsFor(list) == EncodedAll(Tests(list))
  {
    hide BpfJump, BpfStmt, Encoded;
    if list != [] {
      var init, nr := list[..|list| - 1], list[|list| - 1];
      assert list == init + [nr];
      var jump, ret := Insn(JMP_JEQ_K, 0, 1, nr), Insn(RET_K, 0, 0, RET_ERRNO_EPERM);
      TestsEncode(init);
      TestsSnoc(init, nr);
      EncodedConcat(Tests(init), [jump, ret]);
      EncodedTwo(jump, ret);
      StmtIsJump(RET_K, RET_ERRNO_EPERM);
      EncodedIsJump(jump);
      EncodedIsJump(ret);
      Assoc(EncodedAll(Tests(init)), Encoded(jump), Encoded(ret));
    }
  }

  lemma StmtIsJump(code: u16, k: u32)
    ensures BpfStmt(code, k) == BpfJump(code, k, 0, 0)
  {
    hide Little;
  }

  lemma EncodedIsJump(i: Insn)
    ensures Encoded(i) == BpfJump(i.code, i.k, i.jt, i.jf)
  {
    hide BpfJump;
  }

  lemma FilterEncodes(list: seq<u32>)
    ensures DenyListFilter(list) == EncodedAll(Program(list))
  {
    hide BpfJump, BpfStmt, Encoded, TestsFor, EncodedAll;
    var g := Guard();
    var allow := Insn(RET_K, 0, 0, RET_ALLOW);
    TestsEncode(list);
    EncodedConcat(Tests(list), [allow]);
    EncodedConcat(g, Tests(list) + [allow]);
    EncodedOne(allow);
    EncodedTwo(g[0], g[1]);
    EncodedTwo(g[2], g[3]);
    EncodedConcat([g[0], g[1]], [g[2], g[3]]);
    assert [g[0], g[1]] + [g[2], g[3]] == g;
    StmtIsJump(LD_W_ABS, 4);
    StmtIsJump(RET_K, RET_KILL);
    StmtIsJump(LD_W_ABS, 0);
    StmtIsJump(RET_K, RET_ALLOW);
    forall i: Insn ensures Encoded(i) == BpfJump(i.code, i.k, i.jt, i.jf) {
      EncodedIsJump(i);
    }
    Assoc(Encoded(g[0]) + Encoded(g[1]), Encoded(g[2]), Encoded(g[3]));
    Assoc(EncodedAll(g), EncodedAll(Tests(list)), Encoded(allow));
  }

  lemma {:induction false} TestsForLength(list: seq<u32>)
    ensures |TestsFor(list)| == 16 * |list|
  {
    hide BpfJump, BpfStmt;
    if list != [] {
      TestsForLength(list[..|list| - 1]);
    }
  }

  lemma {:induction false} TestsForAt(list: seq<u32>, i: nat)
    requires i < |list|
    ensures |TestsFor(list)| == 16 * |list|
    ensures TestsFor(list)[16 * i..16 * i + 16]
         == BpfJump(JMP_JEQ_K, list[i], 0, 1) + BpfStmt(RET_K, RET_ERRNO_EPERM)
  {
    hide BpfJump, BpfStmt;
    TestsForLength(list);
    var init := list[..|list| - 1];
    TestsForLength(init);
    if i < |init| {
      TestsForAt(init, i);
      assert TestsFor(list)[16 * i..16 * i + 16] == TestsFor(init)[16 * i..16 * i + 16];
    }
  }

  // The bytes of the filter, instruction by instruction in the kernel's little-endian layout: the
  // architecture test, a comparison and an error return for each call, and the final allow.
  lemma FilterBytes(list: seq<u32>, i: nat)
    requires i < |list|
    ensures var f, at := DenyListFilter(list), 32 + 16 * i;
            && |f| == 40 + 16 * |list|
            && f[..32] == [0x20, 0, 0, 0, 4, 0, 0, 0, 0x15, 0, 1, 0, 0x3E, 0, 0, 0xC0,
                           0x06, 0, 0, 0, 0, 0, 0, 0, 0x20, 0, 0, 0, 0, 0, 0, 0]
            && f[at..at + 16] == [0x15, 0, 0, 1] + Little(4, list[i]) + [0x06, 0, 0, 0, 1, 0, 5, 0]
            && f[|f| - 8..] == [0x06, 0, 0, 0, 0, 0, 0xFF, 0x7F]
  {
    hide TestsFor, ArchGuard, BpfStmt, BpfJump, Little;
    GuardBytes();
    AllowBytes();
    TestBytes(list[i]);
    TestsForAt(list, i);
    var g, t, a := ArchGuard(), TestsFor(list), BpfStmt(RET_K, RET_ALLOW);
    assert DenyListFilter(list) == g + t + a;
    assert (g + t + a)[32 + 16 * i..32 + 16 * i + 16] == t[16 * i..16 * i + 16];
  }

  lemma GuardBytes()
    ensures ArchGuard() == [0x20, 0, 0, 0, 4, 0, 0, 0, 0x15, 0, 1, 0, 0x3E, 0, 0, 0xC0,
                            0x06, 0, 0, 0, 0, 0, 0, 0, 0x20, 0, 0, 0, 0, 0, 0, 0]
  {
    hide Little;
    Little2(LD_W_ABS);
    Little2(JMP_JEQ_K);
    Little2(RET_K);
    Little4(4);
    Little4(AUDIT_ARCH_X86_64);
    Little4(RET_KILL);
  }

  lemma AllowBytes()
    ensures BpfStmt(RET_K, RET_ALLOW) == [0x06, 0, 0, 0, 0, 0, 0xFF, 0x7F]
  {
    hide Little;
    Little2(RET_K);
    Little4(RET_ALLOW);
  }

  lemma TestBytes(nr: u32)
    ensures BpfJump(JMP_JEQ_K, nr, 0, 1) + BpfStmt(RET_K, RET_ERRNO_EPERM)
         == [0x15, 0, 0, 1] + Little(4, nr) + [0x06, 0, 0, 0, 1, 0, 5, 0]
  {
    hide Little;
    Little2(JMP_JEQ_K);
    Little2(RET_K);
    Little4(RET_ERRNO_EPERM);
  }

  lemma Little2(n: nat)
    ensures Little(2, n) == [n % 256, n / 256 % 256]
  {
    assert Little(1, n / 256) == [n / 256 % 256] + Little(0, n / 256 / 256);
  }

  lemma Little4(n: nat)
    ensures Little(4, n) == [n % 256, n / 256 % 256, n / 256 / 256 % 256, n / 256 / 256 / 256 % 256]
  {
    Little2(n / 256 / 256);
    assert Little(3, n / 256) == [n / 256 % 256] + Little(2, n / 256 / 256);
  }

  // ----- Meaning -----

  lemma {:induction false} RunTests(list: seq<u32>, data: SeccompData, acc: u32)
    ensures Exec(Tests(list) + [Insn(RET_K, 0, 0, RET_ALLOW)], data, acc)
         == Returned(if acc in list then RET_ERRNO_EPERM else RET_ALLOW)
  {
    var end := [Insn(RET_K, 0, 0, RET_ALLOW)];
    var prog := Tests(list) + end;
    if list != [] {
      assert prog[2..] == Tests(list[1..]) + end;
      RunTests(list[1..], data, acc);
      assert list == [list[0]] + list[1..];
    }
  }

  // For any list, running the emitted bytes kills a foreign architecture, fails listed calls
  // with EPERM and allows every other call.
  lemma DenyListMeaning(list: seq<u32>, data: SeccompData)
    ensures RunFilter(DenyListFilter(list), data)
         == Returned(if Arch(data) != AUDIT_ARCH_X86_64 then RET_KILL
                     else if Nr(data) in list then RET_ERRNO_EPERM
                     else RET_ALLOW)
  {
    hide EncodedAll, Tests, DenyListFilter, DecodeProgram;
    FilterEncodes(list);
    ProgramRoundTrip(Program(list));
    RunTests(list, data, Nr(data));
    var p := Program(list);
    var tail := Tests(list) + [Insn(RET_K, 0, 0, RET_ALLOW)];
    assert p[4..] == tail;
    assert p[0] == Guard()[0] && p[1] == Guard()[1] && p[2] == Guard()[2] && p[3] == Guard()[3];
    assert p[1..][1..] == p[2..];
    assert p[1..][2..] == p[3..];
    assert p[3..][1..] == p[4..];
    var arch := Arch(data);
    assert Exec(p[3..], data, arch) == Exec(tail, data, Nr(data));
    assert Exec(p[2..], data, arch) == Returned(RET_KILL);
    assert Exec(p[1..], data, arch)
        == if arch == AUDIT_ARCH_X86_64 then Exec(p[3..], data, arch) else Exec(p[2..], data, arch);
    assert Exec(p, data, 0) == Exec(p[1..], data, arch);
  }

  // Only which calls are listed matters: not their order, not their repetition.
  lemma OnlyMembershipMatters(list: seq<u32>, list': seq<u32>, data: SeccompData)
    requires forall nr :: nr in list <==> nr in list'
    ensures RunFilter(DenyListFilter(list), data) == RunFilter(DenyListFilter(list'), data)
  {
    hide DenyListFilter, RunFilter;
    DenyListMeaning(list, data);
    DenyListMeaning(list', data);
  }

  // The filter an app gets: everything is allowed unless its network permission is a plain "no";
  // then the socket calls 41 to 54, fork (57) and accept4 (288) fail on x86-64, and any other
  // architecture is killed.
  lemma SandboxMeaning(perm: PermissionSet, data: SeccompData)
    ensures RunFilter(SeccompFilter(perm), data)
         == Returned(if perm.network != Allowed(false) then 0x7FFF_0000 // allow
                     else if Arch(data) != 0xC000_003E then 0 // kill
                     else if 41 <= Nr(data) <= 54 || Nr(data) in {57, 288} then 0x0005_0001 // EPERM
                     else 0x7FFF_0000)
  {
    hide BpfJump, DenyListFilter, EncodedAll, DecodeProgram;
    DenyListMeaning(BLACKLIST, data);
    var allow := Insn(RET_K, 0, 0, RET_ALLOW);
    StmtIsJump(RET_K, RET_ALLOW);
    EncodedOne(allow);
    ProgramRoundTrip([allow]);
  }

  // ----- The kernel's own checks -----

  lemma {:induction false} TestsCheck(list: seq<u32>, j: nat)
    requires j < 2 * |list|
    ensures InsnChecks(Tests(list)[j], 2 * |list| - j)
  {
    if j >= 2 {
      TestsCheck(list[1..], j - 2);
      assert Tests(list)[j] == Tests(list[1..])[j - 2];
    }
  }

  // Every instruction of the program passes, every jump stays inside, and the last one returns, so
  // the program is accepted exactly when the list is not too long.
  lemma FilterIsAcceptedIff(list: seq<u32>)
    ensures KernelAccepts(Program(list)) <==> |list| <= 2045
    ensures |DenyListFilter(list)| == 8 * (5 + 2 * |list|)
  {
    hide Encoded, Tests;
    var p := Program(list);
    forall j | 0 <= j < |p|
      ensures InsnChecks(p[j], |p| - 1 - j)
    {
      if 4 <= j < 4 + 2 * |list| {
        TestsCheck(list, j - 4);
        assert p[j] == Tests(list)[j - 4];
      } else if j >= 4 {
        assert p[j] == Insn(RET_K, 0, 0, RET_ALLOW);
      }
    }
    FilterEncodes(list);
    EncodedLength(p);
  }

  // So the kernel takes the filter of every app.
  lemma SandboxIsAccepted(perm: PermissionSet) returns (prog: seq<Insn>)
    ensures DecodeProgram(SeccompFilter(perm)) == Some(prog) && KernelAccepts(prog)
  {
    hide BpfJump, BpfStmt, EncodedAll, DecodeProgram, DenyListFilter, Program, TestsFor;
    if HasNetwork(perm) {
      prog := [Insn(RET_K, 0, 0, RET_ALLOW)];
      StmtIsJump(RET_K, RET_ALLOW);
      EncodedOne(prog[0]);
    } else {
      prog := Program(BLACKLIST);
      FilterEncodes(BLACKLIST);
      FilterIsAcceptedIff(BLACKLIST);
    }
    ProgramRoundTrip(prog);
  }

  lemma {:induction false} EncodedLength(prog: seq<Insn>)
    ensures |EncodedAll(prog)| == 8 * |prog|
  {
    if prog != [] {
      EncodedLength(prog[1..]);
    }
  }

  // Any program that passes these checks returns: no run of it faults.
  lemma {:induction false} AcceptedNeverFaults(prog: seq<Insn>, data: SeccompData, acc: u32)
    requires KernelAccepts(prog)
    ensures Exec(prog, data, acc).Returned?
    decreases |prog|
  {
    var i := prog[0];
    assert InsnChecks(prog[0], |prog| - 1);
    if i.code != RET_K {
      var next := if i.code == LD_W_ABS then 1 else 1 + if acc == i.k then i.jt else i.jf;
      var acc' := if i.code == LD_W_ABS then data[i.k / 4] else acc;
      assert next < |prog|;
      var rest := prog[next..];
      forall j | 0 <= j < |rest|
        ensures InsnChecks(rest[j], |rest| - 1 - j)
      {
        assert InsnChecks(prog[next + j], |prog| - 1 - (next + j));
      }
      AcceptedNeverFaults(rest, data, acc');
    }
  }
}
