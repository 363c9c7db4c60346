/** The pipeline refines the sequential machine, for every datapath the hazard logic may be put around. */
module PipelineProof {
  import opened PipelineTypes
  import opened SequentialMachine
  import opened PipelineStep
  import opened Iteration

  // ----- what a pipeline register holds for the instruction at a given architectural state

  ghost predicate FetchHolds(p: Program, f: FetchReg, a: Arch) {
    f == FetchReg(a.pc, true, Fetched(p, a))
  }

  ghost predicate DHolds(p: Program, d: RegD, a: Arch) {
    d == RegD(a.pc, Fetched(p, a), CommitInfo(true, Fetched(p, a), Plus4(a.pc), a.pc))
  }

  ghost predicate EHolds(p: Program, e: RegE, a: Arch) {
    var d := Dec(p, a);
    e == RegE(Operand1(p, a), Operand2(p, a), d.imm, a.pc, d.rd, d.wen, d.alu, d.ls, d.op, d.branch,
              CommitInfo(true, Fetched(p, a), Plus4(a.pc), a.pc))
  }

  ghost predicate MHolds(p: Program, m: RegM, a: Arch) {
    var d := Dec(p, a);
    m == RegM(d.ls, d.op, Operand2(p, a), AluResult(p, a), a.pc, d.rd, d.wen, Retires(p, a))
  }

  ghost predicate WHolds(p: Program, w: RegW, a: Arch) {
    var d := Dec(p, a);
    w == RegW(d.rd, d.wen, LoadData(p, a), d.op, AluResult(p, a), a.pc, Retires(p, a))
  }

  // ----- bubbles have no effect

  ghost predicate FEmpty(f: FetchReg) { f.instr == 0 && !f.commit }

  ghost predicate DEmpty(d: RegD) { d.instr == 0 && !d.info.commit }

  ghost predicate EEmpty(e: RegE) {
    e.op == OpNone && e.branch == BrNone && e.ls == LsNone && !e.wen && !e.info.commit
  }

  ghost predicate MEmpty(m: RegM) { m.op == OpNone && m.ls == LsNone && !m.wen && !m.info.commit }

  ghost predicate WEmpty(w: RegW) { !w.wen && !w.info.commit }

  // ----- the architectural states that the stages look at, a being the state that is written back

  function Advance(p: Program, a: Arch, valid: bool): Arch { if valid then Next(p, a) else a }

  function AtM(p: Program, s: State, a: Arch): Arch { Advance(p, a, s.w.info.commit) }
  function AtE(p: Program, s: State, a: Arch): Arch { Advance(p, AtM(p, s, a), s.m.info.commit) }
  function AtD(p: Program, s: State, a: Arch): Arch { Advance(p, AtE(p, s, a), s.e.info.commit) }
  function AtF(p: Program, s: State, a: Arch): Arch { Advance(p, AtD(p, s, a), s.d.info.commit) }
  function AtP(p: Program, s: State, a: Arch): Arch { Advance(p, AtF(p, s, a), s.f.commit) }

  /** No jump is pending in E, so D holds an instruction of the program's own path. */
  ghost predicate PathD(p: Program, s: State, a: Arch) {
    s.e.info.commit ==> !Jumps(p, AtE(p, s, a))
  }

  ghost predicate PathF(p: Program, s: State, a: Arch) {
    PathD(p, s, a) && (s.d.info.commit ==> !Jumps(p, AtD(p, s, a)))
  }

  ghost predicate PathP(p: Program, s: State, a: Arch) {
    PathF(p, s, a) && (s.f.commit ==> !Jumps(p, AtF(p, s, a)))
  }

  // ----- the invariant, stage by stage

  ghost predicate InvW(p: Program, s: State, a: Arch) {
    s.regs == a.regs && if s.w.info.commit then WHolds(p, s.w, a) else WEmpty(s.w)
  }

  ghost predicate InvM(p: Program, s: State, a: Arch) {
    && s.mem == AtM(p, s, a).mem
    && if s.m.info.commit then MHolds(p, s.m, AtM(p, s, a)) else MEmpty(s.m)
  }

  ghost predicate InvE(p: Program, s: State, a: Arch) {
    if s.e.info.commit then EHolds(p, s.e, AtE(p, s, a)) else EEmpty(s.e)
  }

  ghost predicate InvD(p: Program, s: State, a: Arch) {
    PathD(p, s, a) ==> if s.d.info.commit then DHolds(p, s.d, AtD(p, s, a)) else DEmpty(s.d)
  }

  ghost predicate InvF(p: Program, s: State, a: Arch) {
    PathF(p, s, a) ==> if s.f.commit then FetchHolds(p, s.f, AtF(p, s, a)) else FEmpty(s.f)
  }

  ghost predicate InvP(p: Program, s: State, a: Arch) {
    PathP(p, s, a) ==> s.pc == AtP(p, s, a).pc
  }

  /** Behind a jump in M there are only bubbles: M has no path that forwards pc + 4. */
  ghost predicate NothingBehindJump(p: Program, s: State, a: Arch) {
    s.m.info.commit && Jumps(p, AtM(p, s, a)) ==> !s.e.info.commit && !s.d.info.commit && !s.f.commit
  }

  /**
   * Every stage holds its instruction exactly as the sequential machine computes it, or a bubble;
   * only what lies behind an unresolved jump may be anything.
   */
  ghost predicate Inv(p: Program, s: State, a: Arch) {
    && InvW(p, s, a) && InvM(p, s, a) && InvE(p, s, a) && InvD(p, s, a) && InvF(p, s, a) && InvP(p, s, a)
    && NothingBehindJump(p, s, a)
  }

  // ----- forwarding

  /** A register after one more instruction. */
  lemma ReadNext(p: Program, a: Arch, r: RegIndex)
    ensures ReadReg(Next(p, a).regs, r) ==
            var d := Dec(p, a);
            if d.wen && d.rd != 0 && d.rd == r then WriteBackData(d.op, AluResult(p, a), LoadData(p, a), a.pc)
            else ReadReg(a.regs, r)
  {
  }

  lemma DecodeFacts(p: Program, a: Arch)
    requires DatapathOk(p.dp)
    ensures var d := Dec(p, a);
            && (d.wen <==> d.op !in {OpNone, OpStore, OpBranch, OpSystem})
            && (d.branch != BrNone ==> d.op == OpBranch)
            && (d.ls != LsNone ==> d.op in {OpLoad, OpStore})
  {
  }

  lemma ForwardFromW(p: Program, s: State, a: Arch, r: RegIndex)
    requires DatapathOk(p.dp) && InvW(p, s, a)
    ensures ReadReg(AtM(p, s, a).regs, r) ==
            if s.w.rd != 0 && s.w.wen && s.w.rd == r then
              (if SelectsAlu(s.w.op) then s.w.aluResult
               else if s.w.op == OpLoad then s.w.memdata
               else if s.w.op == OpJalr || s.w.op == OpJal then Plus4(s.w.pc)
               else ReadReg(s.regs, r))
            else ReadReg(s.regs, r)
  {
  }

  lemma ForwardFromM(p: Program, s: State, a: Arch, r: RegIndex)
    requires DatapathOk(p.dp) && InvM(p, s, a)
    requires s.m.info.commit ==> !Jumps(p, AtM(p, s, a))
    ensures ReadReg(AtE(p, s, a).regs, r) ==
            if s.m.rd != 0 && s.m.wen && s.m.rd == r then
              (if SelectsAlu(s.m.op) then s.m.aluResult
               else if s.m.op == OpLoad then MemoryData(p.dp, s)
               else ReadReg(AtM(p, s, a).regs, r))
            else ReadReg(AtM(p, s, a).regs, r)
  {
  }

  lemma ForwardFromE(p: Program, s: State, a: Arch, r: RegIndex)
    requires DatapathOk(p.dp) && InvE(p, s, a) && PathD(p, s, a)
    requires !(s.e.op == OpLoad && s.e.rd == r)
    ensures ReadReg(AtD(p, s, a).regs, r) ==
            if s.e.rd != 0 && s.e.wen && s.e.rd == r then ExecuteAlu(p.dp, s.e)
            else ReadReg(AtE(p, s, a).regs, r)
  {
  }

  /** The multiplexer delivers the architectural value, unless the instruction in E is a load of it. */
  lemma ForwardCorrect(p: Program, s: State, a: Arch, r: RegIndex)
    requires DatapathOk(p.dp) && Inv(p, s, a)
    requires PathD(p, s, a) && s.d.info.commit
    requires !(s.e.op == OpLoad && s.e.rd == r)
    ensures Forward(p.dp, s, r) == ReadReg(AtD(p, s, a).regs, r)
  {
    ForwardFromW(p, s, a, r);
    ForwardFromM(p, s, a, r);
    ForwardFromE(p, s, a, r);
    if s.m.info.commit { DecodeFacts(p, AtM(p, s, a)); }
    if s.w.info.commit { DecodeFacts(p, a); }
  }

  // ----- one clock

  lemma StepW(p: Program, s: State, a: Arch)
    requires DatapathOk(p.dp) && InvW(p, s, a) && InvM(p, s, a)
    ensures InvW(p, Step(p.dp, p.imem, s, false), AtM(p, s, a))
  {
  }

  lemma StepM(p: Program, s: State, a: Arch)
    requires DatapathOk(p.dp) && InvM(p, s, a) && InvE(p, s, a)
    ensures InvM(p, Step(p.dp, p.imem, s, false), AtM(p, s, a))
  {
  }

  lemma ENeedsJump(p: Program, s: State, a: Arch)
    requires DatapathOk(p.dp) && InvE(p, s, a)
    ensures ExecuteNeedJump(p.dp, s.e) <==> s.e.info.commit && Jumps(p, AtE(p, s, a))
    ensures ExecuteNeedJump(p.dp, s.e) ==> ExecuteJumpPc(p.dp, s.e) == AtD(p, s, a).pc && s.e.op != OpLoad
  {
  }

  lemma StepE(p: Program, s: State, a: Arch)
    requires DatapathOk(p.dp) && Inv(p, s, a)
    ensures InvE(p, Step(p.dp, p.imem, s, false), AtM(p, s, a))
  {
    ENeedsJump(p, s, a);
    DecodeZero(p);
    if s.d.info.commit && PathD(p, s, a) && !LoadUse(p.dp, s) {
      ForwardCorrect(p, s, a, p.dp.decode(s.d.instr).rs1);
      ForwardCorrect(p, s, a, p.dp.decode(s.d.instr).rs2);
    }
  }

  /** The all-zero instruction word is a bubble. */
  lemma DecodeZero(p: Program)
    requires DatapathOk(p.dp)
    ensures var d := p.dp.decode(0); d.op == OpNone && !d.wen && d.branch == BrNone && d.ls == LsNone
  {
  }

  lemma StepFrontEnd(p: Program, s: State, a: Arch)
    requires DatapathOk(p.dp) && Inv(p, s, a)
    ensures var t, b := Step(p.dp, p.imem, s, false), AtM(p, s, a);
            InvD(p, t, b) && InvF(p, t, b) && InvP(p, t, b) && NothingBehindJump(p, t, b)
  {
    ENeedsJump(p, s, a);
  }

  /** One clock: the instruction in W is written back, everything else moves on, waits or is flushed. */
  lemma StepKeepsInv(p: Program, s: State, a: Arch)
    requires DatapathOk(p.dp) && Inv(p, s, a)
    ensures Inv(p, Step(p.dp, p.imem, s, false), AtM(p, s, a))
  {
    StepW(p, s, a);
    StepM(p, s, a);
    StepE(p, s, a);
    StepFrontEnd(p, s, a);
  }

  // ----- whole runs

  /** The program that a reset starts: registers and memory are those that the reset clock leaves. */
  function ResetProgram(dp: Datapath, imem: Word -> Instr, power: State): Program {
    var r := Step(dp, imem, power, true);
    Program(dp, imem, Arch(RESET_PC, r.regs, r.mem))
  }

  lemma ResetEstablishesInv(dp: Datapath, imem: Word -> Instr, power: State)
    requires DatapathOk(dp)
    ensures var p := ResetProgram(dp, imem, power); Inv(p, Step(dp, imem, power, true), p.start)
  {
  }

  /** The number of clocks after which the oldest instruction in flight, or the next one fetched, commits. */
  function ClocksToCommit(s: State): nat {
    if s.w.info.commit then 0 else if s.m.info.commit then 1 else if s.e.info.commit then 2
    else if s.d.info.commit then 3 else if s.f.commit then 4 else 5
  }

  /** The oldest instruction is never held up and never flushed. */
  lemma OldestMovesOn(p: Program, s: State, a: Arch)
    requires DatapathOk(p.dp) && Inv(p, s, a)
    ensures ClocksToCommit(Step(p.dp, p.imem, s, false)) <= if s.w.info.commit then 4 else ClocksToCommit(s) - 1
  {
  }

  lemma AfterAdvances(p: Program, k: nat, valid: bool)
    ensures Advance(p, After(p, k), valid) == After(p, if valid then k + 1 else k)
  {
  }

  /** One clock: time to the next commit and what is committed. */
  lemma OneClock(p: Program, s: State, a: Arch)
    requires DatapathOk(p.dp) && Inv(p, s, a)
    ensures var t := Step(p.dp, p.imem, s, false);
            && Inv(p, t, Advance(p, a, s.w.info.commit))
            && ClocksToCommit(t) + 1 <= ClocksToCommit(s) + if s.w.info.commit then 5 else 0
    ensures s.w.info.commit ==> s.w.info == Retires(p, a)
  {
    StepKeepsInv(p, s, a);
    OldestMovesOn(p, s, a);
  }

  /** After n clocks: the commits are the program's first, a is the state behind them, and the next commit is near. */
  ghost predicate OnTrack(p: Program, a: Arch, commits: seq<CommitInfo>, n: nat, clocks: nat) {
    && a == After(p, |commits|) && commits == Trace(p, |commits|)
    && 5 * |commits| + 5 >= n + clocks
  }

  lemma {:induction false} TraceLength(p: Program, k: nat)
    ensures |Trace(p, k)| == k
  {
    if k > 0 { TraceLength(p, k - 1); }
  }

  lemma OnTrackStep(p: Program, a: Arch, commits: seq<CommitInfo>, n: nat, clocks: nat, w: CommitInfo, later: nat)
    requires OnTrack(p, a, commits, n, clocks)
    requires w.commit ==> w == Retires(p, a)
    requires later + 1 <= clocks + if w.commit then 5 else 0
    ensures OnTrack(p, Advance(p, a, w.commit), commits + (if w.commit then [w] else []), n + 1, later)
  {
  }

  ghost predicate RunInv(p: Program, s: State, a: Arch, commits: seq<CommitInfo>, n: nat) {
    Inv(p, s, a) && OnTrack(p, a, commits, n, ClocksToCommit(s))
  }

  lemma RunInvStep(p: Program, s: State, a: Arch, commits: seq<CommitInfo>, n: nat)
    requires DatapathOk(p.dp) && RunInv(p, s, a, commits, n)
    ensures RunInv(p, Step(p.dp, p.imem, s, false), Advance(p, a, s.w.info.commit), commits + CommitOut(s), n + 1)
  {
    OneClock(p, s, a);
    OnTrackStep(p, a, commits, n, ClocksToCommit(s), s.w.info, ClocksToCommit(Step(p.dp, p.imem, s, false)));
  }

  lemma RunKeepsInv(p: Program, r: State, n: nat)
    requires DatapathOk(p.dp) && Inv(p, r, p.start)
    ensures var commits := Commits(p.dp, p.imem, r, n);
            RunInv(p, Run(p.dp, p.imem, r, n), After(p, |commits|), commits, n)
  {
    var inv := (s, commits, m) => RunInv(p, s, After(p, |commits|), commits, m);
    forall s, commits, m ensures Keeps(Clock(p.dp, p.imem), CommitOut, inv, s, commits, m) {
      if RunInv(p, s, After(p, |commits|), commits, m) { RunInvStep(p, s, After(p, |commits|), commits, m); }
    }
    assert RunInv(p, r, p.start, [], 0);
    InvariantHolds(Clock(p.dp, p.imem), CommitOut, inv, r, n);
  }

  /** The state s shows the architectural state after k instructions, and E the operands of its instruction. */
  ghost predicate ShowsSequentialState(p: Program, s: State, k: nat) {
    var inM := k + if s.w.info.commit then 1 else 0;
    var inE := inM + if s.m.info.commit then 1 else 0;
    && s.regs == After(p, k).regs
    && s.mem == After(p, inM).mem
    && (s.e.info.commit ==>
          && s.e.pc == After(p, inE).pc
          && s.e.regdata1 == Operand1(p, After(p, inE))
          && s.e.regdata2 == Operand2(p, After(p, inE)))
  }

  ghost predicate ShowsArch(p: Program, s: State, a: Arch, aM: Arch, aE: Arch) {
    && s.regs == a.regs && s.mem == aM.mem
    && (s.e.info.commit ==> s.e.pc == aE.pc && s.e.regdata1 == Operand1(p, aE) && s.e.regdata2 == Operand2(p, aE))
  }

  lemma InvShowsArch(p: Program, s: State, a: Arch)
    requires Inv(p, s, a)
    ensures ShowsArch(p, s, a, AtM(p, s, a), AtE(p, s, a))
  {
  }

  lemma AtMIs(p: Program, s: State, k: nat)
    ensures AtM(p, s, After(p, k)) == After(p, k + if s.w.info.commit then 1 else 0)
  {
    AfterAdvances(p, k, s.w.info.commit);
  }

  lemma AtEIs(p: Program, s: State, k: nat, inM: nat)
    requires AtM(p, s, After(p, k)) == After(p, inM)
    ensures AtE(p, s, After(p, k)) == After(p, inM + if s.m.info.commit then 1 else 0)
  {
    AfterAdvances(p, inM, s.m.info.commit);
  }

  lemma ShowsArchShowsState(p: Program, s: State, k: nat, a: Arch, aM: Arch, aE: Arch)
    requires ShowsArch(p, s, a, aM, aE) && a == After(p, k)
    requires aM == After(p, k + if s.w.info.commit then 1 else 0)
    requires aE == After(p, k + (if s.w.info.commit then 1 else 0) + if s.m.info.commit then 1 else 0)
    ensures ShowsSequentialState(p, s, k)
  {
  }

  lemma InvShowsState(p: Program, s: State, k: nat)
    requires Inv(p, s, After(p, k))
    ensures ShowsSequentialState(p, s, k)
  {
    var a := After(p, k);
    InvShowsArch(p, s, a);
    AtMIs(p, s, k);
    AtEIs(p, s, k, k + if s.w.info.commit then 1 else 0);
    ShowsArchShowsState(p, s, k, a, AtM(p, s, a), AtE(p, s, a));
  }

  /**
   * From reset, for every program and any number of clocks: what was committed is what the sequential
   * machine retires, registers and memory are as it leaves them, and commits never dry up.
   */
  lemma PipelineRefinesSequential(dp: Datapath, imem: Word -> Instr, power: State, n: nat)
    requires DatapathOk(dp)
    ensures var p, r := ResetProgram(dp, imem, power), Step(dp, imem, power, true);
            var commits := Commits(dp, imem, r, n);
            && commits == Trace(p, |commits|)
            && ShowsSequentialState(p, Run(dp, imem, r, n), |commits|)
            && 5 * |commits| + 5 >= n
  {
    var p, r := ResetProgram(dp, imem, power), Step(dp, imem, power, true);
    ResetEstablishesInv(dp, imem, power);
    RunKeepsInv(p, r, n);
    var s, commits := Run(dp, imem, r, n), Commits(dp, imem, r, n);
    InvShowsState(p, s, |commits|);
  }

  lemma {:induction false} TraceIsChained(p: Program, n: nat)
    ensures |Trace(p, n)| == n
    ensures n > 0 ==> Trace(p, n)[0].pc == p.start.pc && Trace(p, n)[n - 1].prePc == After(p, n).pc
    ensures forall i :: 0 <= i < n - 1 ==> Trace(p, n)[i].prePc == Trace(p, n)[i + 1].pc
  {
    TraceLength(p, n);
    if n > 0 {
      TraceIsChained(p, n - 1);
      TraceLength(p, n - 1);
    }
  }

  /** The pipeline's commits from reset on: each commit_pre_pc is the commit_pc that follows; the first is RESET_PC. */
  lemma CommitsAreChained(dp: Datapath, imem: Word -> Instr, power: State, n: nat)
    requires DatapathOk(dp)
    ensures var commits := Commits(dp, imem, Step(dp, imem, power, true), n);
            && (commits != [] ==> commits[0].pc == RESET_PC)
            && forall i :: 0 <= i < |commits| - 1 ==> commits[i].prePc == commits[i + 1].pc
  {
    var p, commits := ResetProgram(dp, imem, power), Commits(dp, imem, Step(dp, imem, power, true), n);
    PipelineRefinesSequential(dp, imem, power, n);
    TraceIsChained(p, |commits|);
  }
}
