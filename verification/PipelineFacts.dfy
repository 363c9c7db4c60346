/** What the sequential machine does with one instruction, and what the pipeline therefore commits, in numbers. */
module PipelineFacts {
  import opened Arithmetic
  import opened Iteration
  import opened PipelineTypes
  import opened SequentialMachine
  import opened PipelineStep
  import opened PipelineProof

  /**
   * One instruction: the next pc is the target of a jump or pc + 4. Jumps leave pc + 4 in rd, loads the loaded word,
   * other instructions what the ALU computes, and no other register changes; x0 reads as zero and is never written.
   */
  lemma OneInstruction(p: Program, a: Arch)
    ensures var d := p.dp.decode(p.imem(a.pc));
            var x, y := if d.rs1 == 0 then 0 else a.regs[d.rs1], if d.rs2 == 0 then 0 else a.regs[d.rs2];
            var result := p.dp.alu(d.op, d.alu, x, y, d.imm, a.pc);
            var jumps := p.dp.taken(d.branch, x, y) || d.op == OpJal || d.op == OpJalr;
            var after := Next(p, a);
            && after.pc == (if jumps then p.dp.jumpTarget(d.op, result) else (a.pc + 4) % 0x1_0000_0000_0000_0000)
            && (forall k :: 0 <= k < 32 && !(d.wen && k == d.rd) ==> after.regs[k] == a.regs[k])
            && after.regs[0] == a.regs[0]
            && (d.wen && d.rd != 0 ==>
                  after.regs[d.rd] == if d.op == OpJal || d.op == OpJalr then (a.pc + 4) % 0x1_0000_0000_0000_0000
                                      else if d.op == OpLoad then p.dp.load(d.ls, a.mem, result)
                                      else result)
            && after.mem == p.dp.store(d.ls, a.mem, result, y)
  {
  }

  lemma TraceShows(p: Program, n: nat, i: nat)
    requires i < n
    ensures |Trace(p, n)| == n && Trace(p, n)[i] == Retires(p, After(p, i))
  {
    forall a ensures |RetireOut(p)(a)| == 1 {}
    ShownAt(NextState(p), RetireOut(p), p.start, n, i);
  }

  /** What the sequential machine retires at a, and where it goes on, in numbers. */
  lemma Retired(p: Program, a: Arch)
    ensures var c, d := Retires(p, a), p.dp.decode(p.imem(a.pc));
            var x, y := if d.rs1 == 0 then 0 else a.regs[d.rs1], if d.rs2 == 0 then 0 else a.regs[d.rs2];
            && c.commit && c.pc == a.pc && c.instr == p.imem(a.pc) && c.prePc == Next(p, a).pc
            && c.prePc == if p.dp.taken(d.branch, x, y) || d.op == OpJal || d.op == OpJalr
                          then p.dp.jumpTarget(d.op, p.dp.alu(d.op, d.alu, x, y, d.imm, a.pc))
                          else (a.pc + 4) % 0x1_0000_0000_0000_0000
  {
    OneInstruction(p, a);
  }

  lemma TraceFollowsJumps(p: Program, commits: seq<CommitInfo>, i: nat)
    requires commits == Trace(p, |commits|) && i < |commits|
    ensures var c, a := commits[i], After(p, i);
            && c.commit && c.pc == a.pc && c.instr == p.imem(c.pc) && (i == 0 ==> c.pc == p.start.pc)
            && (!Jumps(p, a) ==> c.prePc == (c.pc + 4) % 0x1_0000_0000_0000_0000)
            && (Jumps(p, a) ==> c.prePc == p.dp.jumpTarget(Dec(p, a).op, AluResult(p, a)))
            && (i + 1 < |commits| ==> commits[i + 1].pc == c.prePc)
  {
    TraceShows(p, |commits|, i);
    TraceIsChained(p, |commits|);
    Retired(p, After(p, i));
  }

  lemma CommitsAreTrace(dp: Datapath, imem: Word -> Instr, power: State, n: nat)
    requires DatapathOk(dp)
    ensures var commits := Commits(dp, imem, Step(dp, imem, power, true), n);
            commits == Trace(ResetProgram(dp, imem, power), |commits|)
  {
    PipelineRefinesSequential(dp, imem, power, n);
  }

  /**
   * The pipeline's commits from reset on, one after the other: the first is at 0x80000000, each is the word that
   * instruction memory has at its pc, and the next one is at the target of a jump and at pc + 4 otherwise.
   */
  lemma CommitsFollowJumps(dp: Datapath, imem: Word -> Instr, power: State, n: nat, p: Program,
                           commits: seq<CommitInfo>, i: nat)
    requires DatapathOk(dp) && p == ResetProgram(dp, imem, power)
    requires commits == Commits(dp, imem, Step(dp, imem, power, true), n) && i < |commits|
    ensures var c, a := commits[i], After(p, i);
            && c.commit && c.pc == a.pc && c.instr == imem(c.pc) && (i == 0 ==> c.pc == 0x8000_0000)
            && (!Jumps(p, a) ==> c.prePc == (c.pc + 4) % 0x1_0000_0000_0000_0000)
            && (Jumps(p, a) ==> c.prePc == dp.jumpTarget(Dec(p, a).op, AluResult(p, a)))
            && (i + 1 < |commits| ==> commits[i + 1].pc == c.prePc)
  {
    CommitsAreTrace(dp, imem, power, n);
    TraceFollowsJumps(p, commits, i);
  }

  lemma OneStraight(p: Program, a: Arch)
    requires !Jumps(p, a)
    ensures Next(p, a).pc == (a.pc + 4) % 0x1_0000_0000_0000_0000
  {
  }

  lemma AfterNext(p: Program, i: nat)
    ensures After(p, i + 1) == Next(p, After(p, i))
  {
  }

  ghost predicate Absorbs(wrap: int -> int, x: int) { wrap(wrap(x) + 4) == wrap(x + 4) }

  ghost predicate Advances(pc: nat -> int, wrap: int -> int, j: nat) { pc(j + 1) == wrap(pc(j) + 4) }

  lemma {:induction false} FourEach(pc: nat -> int, wrap: int -> int, start: int, i: nat)
    requires pc(0) == wrap(start)
    requires forall x {:trigger Absorbs(wrap, x)} :: Absorbs(wrap, x)
    requires forall j :: 0 <= j < i ==> Advances(pc, wrap, j)
    ensures pc(i) == wrap(start + 4 * i)
  {
    if i > 0 {
      FourEach(pc, wrap, start, i - 1);
      assert Advances(pc, wrap, i - 1) && Absorbs(wrap, start + 4 * (i - 1));
    }
  }

  ghost predicate FourMore(pc: nat -> int, j: nat) { pc(j + 1) == (pc(j) + 4) % 0x1_0000_0000_0000_0000 }

  lemma FourEachWord(pc: nat -> int, start: Word, i: nat)
    requires pc(0) == start && forall j :: 0 <= j < i ==> FourMore(pc, j)
    ensures pc(i) == (start + 4 * i) % 0x1_0000_0000_0000_0000
  {
    var wrap: int -> int := (x: int) => x % 0x1_0000_0000_0000_0000;
    forall x ensures Absorbs(wrap, x) { AddReduced(x, 4, 0x1_0000_0000_0000_0000); }
    forall j | 0 <= j < i ensures Advances(pc, wrap, j) { assert FourMore(pc, j); }
    FourEach(pc, wrap, start, i);
  }

  /** Instruction j does not jump. */
  ghost predicate Straight(p: Program, j: nat) { !Jumps(p, After(p, j)) }

  function PcAfter(p: Program): nat -> int { (j: nat) => After(p, j).pc }

  lemma StraightNext(p: Program, j: nat)
    requires Straight(p, j)
    ensures FourMore(PcAfter(p), j)
  {
    AfterNext(p, j);
    OneStraight(p, After(p, j));
  }

  lemma StraightPcs(p: Program, i: nat)
    requires forall j :: 0 <= j < i ==> Straight(p, j)
    ensures forall j :: 0 <= j < i ==> FourMore(PcAfter(p), j)
  {
    forall j | 0 <= j < i ensures FourMore(PcAfter(p), j) { StraightNext(p, j); }
  }

  lemma PcAfterIs(p: Program, i: nat)
    ensures PcAfter(p)(i) == After(p, i).pc && PcAfter(p)(0) == p.start.pc
  {
  }

  /** The addresses that the sequential machine passes while nothing jumps. */
  lemma PcWithoutJumps(p: Program, i: nat)
    requires p.start.pc == 0x8000_0000 && forall j :: 0 <= j < i ==> Straight(p, j)
    ensures After(p, i).pc == (0x8000_0000 + 4 * i) % 0x1_0000_0000_0000_0000
  {
    StraightPcs(p, i);
    PcAfterIs(p, i);
    FourEachWord(PcAfter(p), p.start.pc, i);
  }

  /** While nothing jumps, the pipeline commits the words at 0x80000000, 0x80000004, 0x80000008 and so on. */
  lemma StraightLine(dp: Datapath, imem: Word -> Instr, power: State, n: nat, i: nat)
    requires DatapathOk(dp) && i < |Commits(dp, imem, Step(dp, imem, power, true), n)|
    requires var p := ResetProgram(dp, imem, power); forall j :: 0 <= j < i ==> Straight(p, j)
    ensures var c := Commits(dp, imem, Step(dp, imem, power, true), n)[i];
            c.pc == (0x8000_0000 + 4 * i) % 0x1_0000_0000_0000_0000 && c.instr == imem(c.pc)
  {
    var p, commits := ResetProgram(dp, imem, power), Commits(dp, imem, Step(dp, imem, power, true), n);
    CommitsFollowJumps(dp, imem, power, n, p, commits, i);
    PcWithoutJumps(p, i);
  }
}
