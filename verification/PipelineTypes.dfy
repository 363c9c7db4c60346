/** The wires and registers of the RV64 pipeline in IP/rv64/cache-cpu, as values. */
module PipelineTypes {

  type Word = x: int | 0 <= x < 0x1_0000_0000_0000_0000
  type Instr = x: int | 0 <= x < 0x1_0000_0000
  type RegIndex = x: int | 0 <= x < 32

  const RESET_PC: Word := 0x8000_0000

  function Plus4(pc: Word): Word {
    (pc + 4) % 0x1_0000_0000_0000_0000
  }

  /** The twelve one-hot wires of opcode_info; OpNone stands for all of them low. */
  datatype Op =
    | OpNone | OpLui | OpAuipc | OpJal | OpJalr | OpAluReg | OpAluRegW
    | OpAluImm | OpAluImmW | OpLoad | OpStore | OpBranch | OpSystem

  /** The one-hot wires of branch_info. */
  datatype BranchOp = BrNone | Beq | Bne | Blt | Bge | Bltu | Bgeu

  /** The one-hot wires of load_store_info. */
  datatype LoadStoreOp = LsNone | Lb | Lh | Lw | Ld | Lbu | Lhu | Lwu | Sb | Sh | Sw | Sd

  /** The one-hot wires of alu_info. */
  datatype AluOp =
    | AluNone | Add | Sub | Sll | Slt | Sltu | Xor | Srl | Sra | Or | And
    | Addw | Subw | Sllw | Srlw | Sraw
    | Mul | Mulh | Mulhsu | Mulhu | Mulw | Div | Divu | Divw | Divuw | Rem | Remu | Remw | Remuw

  /** What the decoder says of an instruction word, apart from the operands. */
  datatype Decoded = Decoded(
    op: Op, alu: AluOp, branch: BranchOp, ls: LoadStoreOp,
    imm: Word, rd: RegIndex, rs1: RegIndex, rs2: RegIndex, wen: bool)

  /** commit_info: the valid bit, the instruction, the address of the next one and its own address. */
  datatype CommitInfo = CommitInfo(commit: bool, instr: Instr, prePc: Word, pc: Word)

  const NO_COMMIT := CommitInfo(false, 0, 0, 0)

  /** Data memory: one byte for every address that was written. */
  type Memory = map<int, int>

  type RegFile = r: seq<Word> | |r| == 32 witness seq(32, _ => 0)

  /** A register read: x0 is zero. */
  function ReadReg(regs: RegFile, r: RegIndex): Word {
    if r == 0 then 0 else regs[r]
  }

  /** The combinational blocks, whatever they compute. */
  datatype Datapath = Datapath(
    decode: Instr -> Decoded,
    alu: (Op, AluOp, Word, Word, Word, Word) -> Word,   // regdata1, regdata2, imm, pc
    taken: (BranchOp, Word, Word) -> bool,
    jumpTarget: (Op, Word) -> Word,                     // from the ALU result
    load: (LoadStoreOp, Memory, Word) -> Word,
    store: (LoadStoreOp, Memory, Word, Word) -> Memory)

  /** What the hazard logic relies on in decode.v, memory.v and execute.v. */
  ghost predicate DatapathOk(dp: Datapath) {
    && dp.decode(0).op == OpNone
    && (forall i: Instr {:trigger dp.decode(i)} ::
          var d := dp.decode(i);
          && (d.wen <==> d.op !in {OpNone, OpStore, OpBranch, OpSystem})
          && (d.branch != BrNone ==> d.op == OpBranch)
          && (d.ls != LsNone ==> d.op in {OpLoad, OpStore}))
    && (forall a, b :: !dp.taken(BrNone, a, b))
    && (forall m, a, d :: dp.store(LsNone, m, a, d) == m)
  }

  /** execute_o_need_jump. */
  predicate NeedJump(dp: Datapath, op: Op, branch: BranchOp, r1: Word, r2: Word) {
    dp.taken(branch, r1, r2) || op == OpJal || op == OpJalr
  }

  /** write_back_o_data. */
  function WriteBackData(op: Op, aluResult: Word, memdata: Word, pc: Word): Word {
    if op == OpJal || op == OpJalr then Plus4(pc)
    else if op == OpLoad then memdata
    else aluResult
  }

  /** The register file after a write; x0 is never written. */
  function WriteReg(regs: RegFile, wen: bool, rd: RegIndex, data: Word): RegFile {
    if wen && rd != 0 then regs[rd := data] else regs
  }
}

/** One instruction at a time, from the same combinational blocks as the pipeline. */
module SequentialMachine {
  import opened PipelineTypes
  import opened Iteration

  datatype Arch = Arch(pc: Word, regs: RegFile, mem: Memory)

  /** A datapath, an instruction memory and a start state. */
  datatype Program = Program(dp: Datapath, imem: Word -> Instr, start: Arch)

  function Fetched(p: Program, a: Arch): Instr { p.imem(a.pc) }

  function Dec(p: Program, a: Arch): Decoded { p.dp.decode(Fetched(p, a)) }

  function Operand1(p: Program, a: Arch): Word { ReadReg(a.regs, Dec(p, a).rs1) }

  function Operand2(p: Program, a: Arch): Word { ReadReg(a.regs, Dec(p, a).rs2) }

  function AluResult(p: Program, a: Arch): Word {
    var d := Dec(p, a);
    p.dp.alu(d.op, d.alu, Operand1(p, a), Operand2(p, a), d.imm, a.pc)
  }

  predicate Jumps(p: Program, a: Arch) {
    NeedJump(p.dp, Dec(p, a).op, Dec(p, a).branch, Operand1(p, a), Operand2(p, a))
  }

  function NextPc(p: Program, a: Arch): Word {
    if Jumps(p, a) then p.dp.jumpTarget(Dec(p, a).op, AluResult(p, a)) else Plus4(a.pc)
  }

  function LoadData(p: Program, a: Arch): Word {
    p.dp.load(Dec(p, a).ls, a.mem, AluResult(p, a))
  }

  function Next(p: Program, a: Arch): Arch {
    var d := Dec(p, a);
    Arch(NextPc(p, a),
         WriteReg(a.regs, d.wen, d.rd, WriteBackData(d.op, AluResult(p, a), LoadData(p, a), a.pc)),
         p.dp.store(d.ls, a.mem, AluResult(p, a), Operand2(p, a)))
  }

  function NextState(p: Program): Arch -> Arch { a => Next(p, a) }

  /** The state after n instructions. */
  function After(p: Program, n: nat): Arch {
    Iterate(NextState(p), p.start, n)
  }

  function Retires(p: Program, a: Arch): CommitInfo {
    CommitInfo(true, Fetched(p, a), NextPc(p, a), a.pc)
  }

  function RetireOut(p: Program): Arch -> seq<CommitInfo> { a => [Retires(p, a)] }

  /** The first n retired instructions. */
  function Trace(p: Program, n: nat): seq<CommitInfo> {
    Outputs(NextState(p), RetireOut(p), p.start, n)
  }
}

/** The clocked pipeline, as a function from one state to the next. */
module PipelineStep {
  import opened PipelineTypes
  import opened Iteration

  datatype FetchReg = FetchReg(pc: Word, commit: bool, instr: Instr)

  datatype RegD = RegD(pc: Word, instr: Instr, info: CommitInfo)

  datatype RegE = RegE(
    regdata1: Word, regdata2: Word, imm: Word, pc: Word, rd: RegIndex, wen: bool,
    alu: AluOp, ls: LoadStoreOp, op: Op, branch: BranchOp, info: CommitInfo)

  datatype RegM = RegM(
    ls: LoadStoreOp, op: Op, regdata2: Word, aluResult: Word,
    pc: Word, rd: RegIndex, wen: bool, info: CommitInfo)

  datatype RegW = RegW(
    rd: RegIndex, wen: bool, memdata: Word, op: Op, aluResult: Word, pc: Word, info: CommitInfo)

  datatype State = State(
    pc: Word, f: FetchReg, d: RegD, e: RegE, m: RegM, w: RegW, regs: RegFile, mem: Memory)

  const FETCH_BUBBLE := FetchReg(0, false, 0)
  const REGD_BUBBLE := RegD(0, 0, NO_COMMIT)
  const REGM_BUBBLE := RegM(LsNone, OpNone, 0, 0, 0, 0, false, NO_COMMIT)
  const REGW_BUBBLE := RegW(0, false, 0, OpNone, 0, 0, NO_COMMIT)

  /** A bubble in E keeps the immediate: it is the one field that is not cleared. */
  function RegEBubble(imm: Word): RegE {
    RegE(0, 0, imm, 0, 0, false, AluNone, LsNone, OpNone, BrNone, NO_COMMIT)
  }

  function ExecuteAlu(dp: Datapath, e: RegE): Word {
    dp.alu(e.op, e.alu, e.regdata1, e.regdata2, e.imm, e.pc)
  }

  predicate ExecuteNeedJump(dp: Datapath, e: RegE) {
    NeedJump(dp, e.op, e.branch, e.regdata1, e.regdata2)
  }

  function ExecuteJumpPc(dp: Datapath, e: RegE): Word {
    dp.jumpTarget(e.op, ExecuteAlu(dp, e))
  }

  /** commit_info leaves E with the jump target as next address. */
  function ExecuteInfo(dp: Datapath, e: RegE): CommitInfo {
    if ExecuteNeedJump(dp, e) then e.info.(prePc := ExecuteJumpPc(dp, e)) else e.info
  }

  function MemoryData(dp: Datapath, s: State): Word {
    dp.load(s.m.ls, s.mem, s.m.aluResult)
  }

  function WriteBack(w: RegW): Word {
    WriteBackData(w.op, w.aluResult, w.memdata, w.pc)
  }

  /** regM_sel_alu_result and regW_sel_alu_result. */
  predicate SelectsAlu(op: Op) {
    op in {OpBranch, OpAluImmW, OpAluImm, OpAluRegW, OpAluReg, OpAuipc, OpLui}
  }

  /** The forwarding multiplexer in front of an operand of the instruction in D. */
  function Forward(dp: Datapath, s: State, rs: RegIndex): Word {
    if s.e.rd != 0 && s.e.wen && s.e.rd == rs then ExecuteAlu(dp, s.e)
    else if s.m.rd != 0 && s.m.wen && s.m.rd == rs && SelectsAlu(s.m.op) then s.m.aluResult
    else if s.m.rd != 0 && s.m.wen && s.m.rd == rs && s.m.op == OpLoad then MemoryData(dp, s)
    else if s.w.rd != 0 && s.w.wen && s.w.rd == rs && SelectsAlu(s.w.op) then s.w.aluResult
    else if s.w.rd != 0 && s.w.wen && s.w.rd == rs && s.w.op == OpLoad then s.w.memdata
    else if s.w.rd != 0 && s.w.wen && s.w.rd == rs && (s.w.op == OpJalr || s.w.op == OpJal) then Plus4(s.w.pc)
    else ReadReg(s.regs, rs)
  }

  /** load_use of ctrl.v: the instruction in D needs what a load in E has yet to read. */
  predicate LoadUse(dp: Datapath, s: State) {
    var d := dp.decode(s.d.instr);
    (s.e.rd == d.rs1 || s.e.rd == d.rs2) && s.e.op == OpLoad
  }

  function NextPcReg(dp: Datapath, s: State, rst: bool): Word {
    if rst then RESET_PC
    else if LoadUse(dp, s) then s.pc
    else if ExecuteNeedJump(dp, s.e) then ExecuteJumpPc(dp, s.e)
    else Plus4(s.pc)
  }

  function NextFetch(dp: Datapath, imem: Word -> Instr, s: State, rst: bool): FetchReg {
    if rst || ExecuteNeedJump(dp, s.e) then FETCH_BUBBLE
    else if LoadUse(dp, s) then s.f
    else FetchReg(s.pc, true, imem(s.pc))
  }

  /** fetch_o_commit_info. */
  function FetchInfo(f: FetchReg): CommitInfo {
    CommitInfo(f.commit, f.instr, Plus4(f.pc), f.pc)
  }

  function NextRegD(dp: Datapath, s: State, rst: bool): RegD {
    if rst || ExecuteNeedJump(dp, s.e) then REGD_BUBBLE
    else if LoadUse(dp, s) then s.d
    else RegD(s.f.pc, s.f.instr, FetchInfo(s.f))
  }

  function NextRegE(dp: Datapath, s: State, rst: bool): RegE {
    if rst || ExecuteNeedJump(dp, s.e) || LoadUse(dp, s) then RegEBubble(s.e.imm)
    else
      var d := dp.decode(s.d.instr);
      RegE(Forward(dp, s, d.rs1), Forward(dp, s, d.rs2), d.imm, s.d.pc, d.rd, d.wen,
           d.alu, d.ls, d.op, d.branch, s.d.info)
  }

  function NextRegM(dp: Datapath, s: State, rst: bool): RegM {
    if rst then REGM_BUBBLE
    else RegM(s.e.ls, s.e.op, s.e.regdata2, ExecuteAlu(dp, s.e), s.e.pc, s.e.rd, s.e.wen, ExecuteInfo(dp, s.e))
  }

  function NextRegW(dp: Datapath, s: State, rst: bool): RegW {
    if rst then REGW_BUBBLE
    else RegW(s.m.rd, s.m.wen, MemoryData(dp, s), s.m.op, s.m.aluResult, s.m.pc, s.m.info)
  }

  function NextRegs(s: State, rst: bool): RegFile {
    if rst then s.regs[0 := 0] else WriteReg(s.regs, s.w.wen, s.w.rd, WriteBack(s.w))
  }

  /** Stores are written whether or not reset is high. */
  function NextMem(dp: Datapath, s: State): Memory {
    dp.store(s.m.ls, s.mem, s.m.aluResult, s.m.regdata2)
  }

  /** One rising clock edge: every register reads the values before the edge. */
  function Step(dp: Datapath, imem: Word -> Instr, s: State, rst: bool): State {
    State(NextPcReg(dp, s, rst), NextFetch(dp, imem, s, rst), NextRegD(dp, s, rst), NextRegE(dp, s, rst),
          NextRegM(dp, s, rst), NextRegW(dp, s, rst), NextRegs(s, rst), NextMem(dp, s))
  }

  /** A clock edge without reset. */
  function Clock(dp: Datapath, imem: Word -> Instr): State -> State {
    s => Step(dp, imem, s, false)
  }

  /** What the commit outputs show in a state. */
  function CommitOut(s: State): seq<CommitInfo> {
    if s.w.info.commit then [s.w.info] else []
  }

  /** n clock edges without reset. */
  function Run(dp: Datapath, imem: Word -> Instr, s: State, n: nat): State {
    Iterate(Clock(dp, imem), s, n)
  }

  /** Everything that is committed during the first n clocks. */
  function Commits(dp: Datapath, imem: Word -> Instr, s: State, n: nat): seq<CommitInfo> {
    Outputs(Clock(dp, imem), CommitOut, s, n)
  }
}
