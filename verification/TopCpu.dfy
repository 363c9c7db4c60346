/** The clocked registers of IP/rv64/cache-cpu/top_cpu.v, updated in place at every rising edge. */
module TopCpu {
  import opened PipelineTypes
  import opened PipelineStep
  import opened SequentialMachine
  import opened PipelineProof
  import opened Rv64Datapath

  class Cpu {
    const dp: Datapath
    const imem: Word -> Instr

    var pc: Word
    var f: FetchReg
    var d: RegD
    var e: RegE
    var m: RegM
    var w: RegW
    var regs: RegFile
    var mem: Memory

    constructor (dp: Datapath, imem: Word -> Instr, power: State)
      ensures this.dp == dp && this.imem == imem && Now() == power
    {
      this.dp, this.imem := dp, imem;
      pc, f, d, e := power.pc, power.f, power.d, power.e;
      m, w, regs, mem := power.m, power.w, power.regs, power.mem;
    }

    function Now(): State
      reads this
    {
      State(pc, f, d, e, m, w, regs, mem)
    }

    /** The wires of decode.v behind one operand: the newest value on its way to the register file. */
    method Operand(rs: RegIndex, aluResult: Word, memdata: Word) returns (data: Word)
      requires aluResult == ExecuteAlu(dp, e) && memdata == MemoryData(dp, Now())
      ensures data == Forward(dp, Now(), rs)
    {
      data := if rs == 0 then 0 else regs[rs];
      if w.rd != 0 && w.wen && w.rd == rs {
        match w.op
        case OpJal | OpJalr => data := Plus4(w.pc);
        case OpLoad => data := w.memdata;
        case OpNone | OpStore | OpSystem =>
        case _ => data := w.aluResult;
      }
      if m.rd != 0 && m.wen && m.rd == rs {
        match m.op
        case OpLoad => data := memdata;
        case OpNone | OpStore | OpSystem | OpJal | OpJalr =>
        case _ => data := m.aluResult;
      }
      if e.rd != 0 && e.wen && e.rd == rs {
        data := aluResult;
      }
    }

    /** The always blocks of regfile, memory, regW and regM, given the wires before the edge. */
    method EdgeBack(rst: bool, aluResult: Word, needJump: bool, jumpPc: Word, memdata: Word)
      modifies this`regs, this`mem, this`w, this`m
      ensures regs == NextRegs(old(Now()), rst) && mem == NextMem(dp, old(Now()))
      ensures w == if rst then REGW_BUBBLE
                   else RegW(old(m.rd), old(m.wen), memdata, old(m.op), old(m.aluResult), old(m.pc), old(m.info))
      ensures m == if rst then REGM_BUBBLE
                   else RegM(e.ls, e.op, e.regdata2, aluResult, e.pc, e.rd, e.wen,
                             if needJump then e.info.(prePc := jumpPc) else e.info)
    {
      if rst {
        regs := regs[0 := 0];
      } else if w.wen && w.rd != 0 {
        regs := regs[w.rd := WriteBack(w)];
      }
      mem := dp.store(m.ls, mem, m.aluResult, m.regdata2);
      w := if rst then REGW_BUBBLE else RegW(m.rd, m.wen, memdata, m.op, m.aluResult, m.pc, m.info);
      if rst {
        m := REGM_BUBBLE;
      } else {
        var info := if needJump then e.info.(prePc := jumpPc) else e.info;
        m := RegM(e.ls, e.op, e.regdata2, aluResult, e.pc, e.rd, e.wen, info);
      }
    }

    /** The always blocks of regE, regD, fetch and pc, given the wires before the edge. */
    method EdgeFront(rst: bool, decoded: Decoded, regdata1: Word, regdata2: Word,
                     needJump: bool, jumpPc: Word, loadUse: bool)
      modifies this`e, this`d, this`f, this`pc
      ensures e == if rst || needJump || loadUse then RegEBubble(old(e.imm))
                   else RegE(regdata1, regdata2, decoded.imm, old(d.pc), decoded.rd, decoded.wen,
                             decoded.alu, decoded.ls, decoded.op, decoded.branch, old(d.info))
      ensures d == if rst || needJump then REGD_BUBBLE else if loadUse then old(d)
                   else RegD(old(f.pc), old(f.instr), FetchInfo(old(f)))
      ensures f == if rst || needJump then FETCH_BUBBLE else if loadUse then old(f)
                   else FetchReg(old(pc), true, imem(old(pc)))
      ensures pc == if rst then RESET_PC else if loadUse then old(pc) else if needJump then jumpPc else Plus4(old(pc))
    {
      if rst || needJump || loadUse {
        e := RegEBubble(e.imm);
      } else {
        e := RegE(regdata1, regdata2, decoded.imm, d.pc, decoded.rd, decoded.wen,
                  decoded.alu, decoded.ls, decoded.op, decoded.branch, d.info);
      }
      if rst || needJump {
        d := REGD_BUBBLE;
      } else if !loadUse {
        d := RegD(f.pc, f.instr, CommitInfo(f.commit, f.instr, Plus4(f.pc), f.pc));
      }
      if rst || needJump {
        f := FETCH_BUBBLE;
      } else if !loadUse {
        f := FetchReg(pc, true, imem(pc));
      }
      if rst {
        pc := RESET_PC;
      } else if loadUse {
      } else if needJump {
        pc := jumpPc;
      } else {
        pc := Plus4(pc);
      }
    }

    /** One rising edge. The wires are read first; then every register is replaced, the last stage first. */
    method Posedge(rst: bool)
      modifies this
      ensures Now() == Step(dp, imem, old(Now()), rst)
    {
      var decoded := dp.decode(d.instr);
      var aluResult := dp.alu(e.op, e.alu, e.regdata1, e.regdata2, e.imm, e.pc);
      var needJump := dp.taken(e.branch, e.regdata1, e.regdata2) || e.op == OpJal || e.op == OpJalr;
      var jumpPc := dp.jumpTarget(e.op, aluResult);
      var loadUse := e.op == OpLoad && (e.rd == decoded.rs1 || e.rd == decoded.rs2);
      var memdata := dp.load(m.ls, mem, m.aluResult);
      var regdata1 := Operand(decoded.rs1, aluResult, memdata);
      var regdata2 := Operand(decoded.rs2, aluResult, memdata);
      EdgeBack(rst, aluResult, needJump, jumpPc, memdata);
      EdgeFront(rst, decoded, regdata1, regdata2, needJump, jumpPc, loadUse);
    }

    /** Reset, then n clocks: what the commit outputs showed is what the sequential machine retires. */
    method RunFromReset(n: nat) returns (ghost commits: seq<CommitInfo>)
      requires DatapathOk(dp)
      modifies this
      ensures var p := ResetProgram(dp, imem, old(Now()));
              && commits == Trace(p, |commits|) && ShowsSequentialState(p, Now(), |commits|)
              && 5 * |commits| + 5 >= n
    {
      Posedge(true);
      ghost var start := Now();
      commits := [];
      var i := 0;
      while i < n
        invariant i <= n
        invariant Now() == Run(dp, imem, start, i) && commits == Commits(dp, imem, start, i)
      {
        commits := commits + CommitOut(Now());
        Posedge(false);
        i := i + 1;
      }
      PipelineRefinesSequential(dp, imem, old(Now()), n);
    }
  }

  /** The pipeline around the datapath of the repository. */
  lemma Rv64PipelineRefinesSequential(imem: Word -> Instr, power: State, n: nat)
    ensures var p, r := ResetProgram(Rv64(), imem, power), Step(Rv64(), imem, power, true);
            var commits := Commits(Rv64(), imem, r, n);
            && commits == Trace(p, |commits|)
            && ShowsSequentialState(p, Run(Rv64(), imem, r, n), |commits|)
            && 5 * |commits| + 5 >= n
  {
    Rv64Ok();
    PipelineRefinesSequential(Rv64(), imem, power, n);
  }
}
