/** What each instruction word does to pc, registers and memory, one instruction at a time. */
module Rv64Machine {
  import opened Arithmetic
  import opened PipelineTypes
  import opened Rv64Datapath
  import opened Rv64Facts
  import opened Rv64Instructions
  import opened SequentialMachine

  // ----- what a decoded instruction does

  /** The blocks behind the decoder are those of the repository. */
  ghost predicate Wired(dp: Datapath) {
    dp.alu == Alu && dp.taken == Taken && dp.jumpTarget == JumpTarget && dp.load == Load && dp.store == Store
  }

  /** One instruction, by the operands and what execute computes of them. */
  lemma Effect(p: Program, a: Arch, d: Decoded, x: Word, y: Word, result: Word)
    requires Wired(p.dp) && Dec(p, a) == d
    requires x == ReadReg(a.regs, d.rs1) && y == ReadReg(a.regs, d.rs2)
    requires result == Alu(d.op, d.alu, x, y, d.imm, a.pc)
    ensures var back := WriteBackData(d.op, result, Load(d.ls, a.mem, result), a.pc);
            Next(p, a) == Arch(if NeedJump(p.dp, d.op, d.branch, x, y) then JumpTarget(d.op, result) else Plus4(a.pc),
                               WriteReg(a.regs, d.wen, d.rd, back), Store(d.ls, a.mem, result, y))
  {
  }

  /** Where nothing jumps, loads or stores: one register may change. */
  lemma PlainEffect(p: Program, a: Arch, d: Decoded, x: Word, y: Word, result: Word)
    requires Wired(p.dp) && Dec(p, a) == d && d.branch == BrNone && d.ls == LsNone
    requires d.op !in {OpJal, OpJalr, OpLoad} && d.wen
    requires x == ReadReg(a.regs, d.rs1) && y == ReadReg(a.regs, d.rs2)
    requires result == Alu(d.op, d.alu, x, y, d.imm, a.pc)
    ensures Next(p, a) == Arch(Plus4(a.pc), WriteReg(a.regs, true, d.rd, result), a.mem)
  {
    Effect(p, a, d, x, y, result);
  }

  lemma UpperStep(p: Program, a: Arch, d: Decoded, base: Word, next: Word)
    requires Wired(p.dp) && Dec(p, a) == d && d.branch == BrNone && d.ls == LsNone && d.wen
    requires d.op in {OpLui, OpAuipc} && base == (if d.op == OpLui then 0 else a.pc) && next == Plus4(a.pc)
    ensures Next(p, a) == Arch(next, WriteReg(a.regs, true, d.rd, AddWord(base, d.imm)), a.mem)
  {
    Effect(p, a, d, ReadReg(a.regs, d.rs1), ReadReg(a.regs, d.rs2), AddWord(base, d.imm));
  }

  lemma JumpStep(p: Program, a: Arch, d: Decoded, base: Word, target: Word, link: Word)
    requires Wired(p.dp) && Dec(p, a) == d && d.branch == BrNone && d.ls == LsNone && d.wen
    requires d.op in {OpJal, OpJalr} && base == (if d.op == OpJal then a.pc else ReadReg(a.regs, d.rs1))
    requires target == JumpTarget(d.op, AddWord(base, d.imm)) && link == Plus4(a.pc)
    ensures Next(p, a) == Arch(target, WriteReg(a.regs, true, d.rd, link), a.mem)
  {
    Effect(p, a, d, ReadReg(a.regs, d.rs1), ReadReg(a.regs, d.rs2), AddWord(base, d.imm));
  }

  predicate Stores(ls: LoadStoreOp) { ls.Sb? || ls.Sh? || ls.Sw? || ls.Sd? }

  lemma LoadStep(p: Program, a: Arch, d: Decoded, x: Word, addr: Word, next: Word)
    requires Wired(p.dp) && Dec(p, a) == d && d.branch == BrNone && !Stores(d.ls) && d.op == OpLoad
    requires d.wen && x == ReadReg(a.regs, d.rs1) && addr == AddWord(x, d.imm) && next == Plus4(a.pc)
    ensures Next(p, a) == Arch(next, WriteReg(a.regs, true, d.rd, Load(d.ls, a.mem, addr)), a.mem)
  {
    var y := ReadReg(a.regs, d.rs2);
    assert Store(d.ls, a.mem, addr, y) == a.mem;
    Effect(p, a, d, x, y, addr);
  }

  lemma StoreStep(p: Program, a: Arch, d: Decoded, x: Word, y: Word, addr: Word, next: Word)
    requires Wired(p.dp) && Dec(p, a) == d && d.branch == BrNone && d.op == OpStore && !d.wen
    requires x == ReadReg(a.regs, d.rs1) && y == ReadReg(a.regs, d.rs2)
    requires addr == AddWord(x, d.imm) && next == Plus4(a.pc)
    ensures Next(p, a) == Arch(next, a.regs, Store(d.ls, a.mem, addr, y))
  {
    Effect(p, a, d, x, y, addr);
  }

  lemma BranchStep(p: Program, a: Arch, d: Decoded, u: Word, v: Word, next: Word)
    requires Wired(p.dp) && Dec(p, a) == d && d.op == OpBranch && d.ls == LsNone && !d.wen
    requires u == ReadReg(a.regs, d.rs1) && v == ReadReg(a.regs, d.rs2)
    requires next == if Taken(d.branch, u, v) then AddWord(a.pc, d.imm) else Plus4(a.pc)
    ensures Next(p, a) == Arch(next, a.regs, a.mem)
  {
    Effect(p, a, d, u, v, AddWord(a.pc, d.imm));
  }

  /** BEQ, BNE, BLT, BGE, BLTU and BGEU by func3, for operands u and v, as signed numbers x and y. */
  ghost predicate BranchHolds(f3: nat, x: int, y: int, u: Word, v: Word) {
    match f3
    case 0 => x == y
    case 1 => x != y
    case 4 => x < y
    case 5 => x >= y
    case 6 => u < v
    case 7 => u >= v
    case _ => false
  }

  lemma TakenIs(i: Instr, x: int, y: int)
    requires Opcode(i) == 0x63 && -0x8000_0000_0000_0000 <= x < 0x8000_0000_0000_0000
    requires -0x8000_0000_0000_0000 <= y < 0x8000_0000_0000_0000
    ensures Taken(Decode(i).branch, x % TWO64, y % TWO64) <==> BranchHolds(Func3(i), x, y, x % TWO64, y % TWO64)
  {
    SignedIs(x);
    SignedIs(y);
  }

  // ----- the instruction words, by the fields that the round trips of Rv64Facts find in the encodings

  /** Two registers, or a register and an immediate: the result goes to rd, and nothing else changes but pc. */
  lemma RegisterWord(p: Program, a: Arch, i: Instr, x: Word, y: Word, next: Word)
    requires p.dp == Rv64() && p.imem(a.pc) == i && Opcode(i) in {0x33, 0x3b, 0x13, 0x1b}
    requires x == (if Rs1(i) == 0 then 0 else a.regs[Rs1(i)]) && y == (if Rs2(i) == 0 then 0 else a.regs[Rs2(i)])
    requires next == (a.pc + 4) % 0x1_0000_0000_0000_0000
    ensures Next(p, a) == Arch(next, WriteReg(a.regs, true, Rd(i), Result(i, x, y, a.pc)), a.mem)
  {
    PlainEffect(p, a, Dec(p, a), x, y, Result(i, x, y, a.pc));
  }

  lemma UpperWord(p: Program, a: Arch, i: Instr, base: Word, imm: Word, value: Word, next: Word)
    requires p.dp == Rv64() && p.imem(a.pc) == i && Opcode(i) in {0x37, 0x17}
    requires base == if Opcode(i) == 0x37 then 0 else a.pc
    requires imm == Wrap64(ImmU(i)) && value == AddWord(base, imm) && next == Plus4(a.pc)
    ensures Next(p, a) == Arch(next, WriteReg(a.regs, true, Rd(i), value), a.mem)
  {
    UpperStep(p, a, Dec(p, a), base, next);
  }

  /** LUI. */
  lemma LoadUpperWord(p: Program, a: Arch, i: Instr, imm: Word, next: Word)
    requires p.dp == Rv64() && p.imem(a.pc) == i && Opcode(i) == 0x37 && imm == ImmU(i) % 0x1_0000_0000_0000_0000
    requires next == (a.pc + 4) % 0x1_0000_0000_0000_0000
    ensures Next(p, a) == Arch(next, WriteReg(a.regs, true, Rd(i), imm), a.mem)
  {
    UpperWord(p, a, i, 0, imm, imm, next);
  }

  /** AUIPC. */
  lemma AddUpperWord(p: Program, a: Arch, i: Instr, imm: Word, value: Word, next: Word)
    requires p.dp == Rv64() && p.imem(a.pc) == i && Opcode(i) == 0x17 && imm == ImmU(i) % 0x1_0000_0000_0000_0000
    requires value == (a.pc + imm) % 0x1_0000_0000_0000_0000 && next == (a.pc + 4) % 0x1_0000_0000_0000_0000
    ensures Next(p, a) == Arch(next, WriteReg(a.regs, true, Rd(i), value), a.mem)
  {
    UpperWord(p, a, i, a.pc, imm, value, next);
  }

  /** JAL: to pc + imm, with pc + 4 in rd. */
  lemma JumpWord(p: Program, a: Arch, i: Instr, imm: Word, target: Word, link: Word)
    requires p.dp == Rv64() && p.imem(a.pc) == i && Opcode(i) == 0x6f && imm == ImmJ(i) % 0x1_0000_0000_0000_0000
    requires target == (a.pc + imm) % 0x1_0000_0000_0000_0000 && link == (a.pc + 4) % 0x1_0000_0000_0000_0000
    ensures Next(p, a) == Arch(target, WriteReg(a.regs, true, Rd(i), link), a.mem)
  {
    JumpStep(p, a, Dec(p, a), a.pc, target, link);
  }

  /** JALR: to the even address at or below rs1 + imm; rs1 is read before rd is written. */
  lemma JumpRegisterWord(p: Program, a: Arch, i: Instr, x: Word, imm: Word, sum: Word, target: Word, link: Word)
    requires p.dp == Rv64() && p.imem(a.pc) == i && Opcode(i) == 0x67 && imm == ImmI(i) % 0x1_0000_0000_0000_0000
    requires x == (if Rs1(i) == 0 then 0 else a.regs[Rs1(i)]) && sum == (x + imm) % 0x1_0000_0000_0000_0000
    requires target == (if sum % 2 == 0 then sum else sum - 1) && link == (a.pc + 4) % 0x1_0000_0000_0000_0000
    ensures Next(p, a) == Arch(target, WriteReg(a.regs, true, Rd(i), link), a.mem)
  {
    JumpStep(p, a, Dec(p, a), x, target, link);
  }

  /** The branches: next is pc + imm where the comparison holds and pc + 4 elsewhere; x and y are signed. */
  lemma BranchWord(p: Program, a: Arch, i: Instr, imm: Word, x: int, y: int, next: Word)
    requires p.dp == Rv64() && p.imem(a.pc) == i && Opcode(i) == 0x63 && imm == ImmB(i) % 0x1_0000_0000_0000_0000
    requires -0x8000_0000_0000_0000 <= x < 0x8000_0000_0000_0000
    requires -0x8000_0000_0000_0000 <= y < 0x8000_0000_0000_0000
    requires x % 0x1_0000_0000_0000_0000 == if Rs1(i) == 0 then 0 else a.regs[Rs1(i)]
    requires y % 0x1_0000_0000_0000_0000 == if Rs2(i) == 0 then 0 else a.regs[Rs2(i)]
    requires var holds := BranchHolds(Func3(i), x, y, x % 0x1_0000_0000_0000_0000, y % 0x1_0000_0000_0000_0000);
             next == (a.pc + if holds then imm else 4) % 0x1_0000_0000_0000_0000
    ensures Next(p, a) == Arch(next, a.regs, a.mem)
  {
    TakenIs(i, x, y);
    BranchStep(p, a, Dec(p, a), ReadReg(a.regs, Rs1(i)), ReadReg(a.regs, Rs2(i)), next);
  }

  lemma LoadOp(i: Instr, ls: LoadStoreOp)
    requires Opcode(i) == 0x03 && ls == [Lb, Lh, Lw, Ld, Lbu, Lhu, Lwu, LsNone][Func3(i)]
    ensures Decode(i).ls == ls && !Stores(ls)
  {
  }

  lemma LoadFields(i: Instr)
    requires Opcode(i) == 0x03
    ensures var d := Decode(i);
            && d.op == OpLoad && d.branch == BrNone && d.wen && d.rd == Rd(i) && d.rs1 == Rs1(i)
            && d.imm == Wrap64(ImmI(i))
  {
  }

  lemma LoadWordAt(p: Program, a: Arch, i: Instr, ls: LoadStoreOp, x: Word, imm: Word, addr: Word, next: Word)
    requires p.dp == Rv64() && p.imem(a.pc) == i && Opcode(i) == 0x03
    requires x == ReadReg(a.regs, Rs1(i)) && imm == Wrap64(ImmI(i))
    requires Decode(i).ls == ls && !Stores(ls) && addr == AddWord(x, imm) && next == Plus4(a.pc)
    ensures Next(p, a) == Arch(next, WriteReg(a.regs, true, Rd(i), Load(ls, a.mem, addr)), a.mem)
  {
    LoadFields(i);
    LoadStep(p, a, Dec(p, a), x, addr, next);
  }

  /** Loads: LB, LH, LW, LD, LBU, LHU and LWU by func3. */
  lemma LoadWord(p: Program, a: Arch, i: Instr, ls: LoadStoreOp, x: Word, imm: Word, addr: Word, next: Word)
    requires p.dp == Rv64() && p.imem(a.pc) == i && Opcode(i) == 0x03 && imm == ImmI(i) % 0x1_0000_0000_0000_0000
    requires ls == [Lb, Lh, Lw, Ld, Lbu, Lhu, Lwu, LsNone][Func3(i)]
    requires x == (if Rs1(i) == 0 then 0 else a.regs[Rs1(i)]) && addr == (x + imm) % 0x1_0000_0000_0000_0000
    requires next == (a.pc + 4) % 0x1_0000_0000_0000_0000
    ensures Next(p, a) == Arch(next, WriteReg(a.regs, true, Rd(i), Load(ls, a.mem, addr)), a.mem)
  {
    LoadOp(i, ls);
    LoadWordAt(p, a, i, ls, x, imm, addr, next);
  }

  lemma StoreOp(i: Instr, st: LoadStoreOp)
    requires Opcode(i) == 0x23 && st == [Sb, Sh, Sw, Sd, LsNone, LsNone, LsNone, LsNone][Func3(i)]
    ensures Decode(i).ls == st
  {
  }

  /** Stores: SB, SH, SW and SD by func3. */
  lemma StoreWord(p: Program, a: Arch, i: Instr, st: LoadStoreOp, x: Word, y: Word, imm: Word, addr: Word, next: Word)
    requires p.dp == Rv64() && p.imem(a.pc) == i && Opcode(i) == 0x23 && imm == ImmS(i) % 0x1_0000_0000_0000_0000
    requires st == [Sb, Sh, Sw, Sd, LsNone, LsNone, LsNone, LsNone][Func3(i)]
    requires x == (if Rs1(i) == 0 then 0 else a.regs[Rs1(i)]) && y == (if Rs2(i) == 0 then 0 else a.regs[Rs2(i)])
    requires addr == (x + imm) % 0x1_0000_0000_0000_0000 && next == (a.pc + 4) % 0x1_0000_0000_0000_0000
    ensures Next(p, a) == Arch(next, a.regs, Store(st, a.mem, addr, y))
  {
    StoreOp(i, st);
    StoreStep(p, a, Dec(p, a), x, y, addr, next);
  }

  /** Everything else, the system instructions among it, only goes on to the next word. */
  lemma OtherWord(p: Program, a: Arch, i: Instr, next: Word)
    requires p.dp == Rv64() && p.imem(a.pc) == i
    requires Opcode(i) !in {0x37, 0x17, 0x6f, 0x67, 0x33, 0x3b, 0x13, 0x1b, 0x03, 0x23, 0x63}
    requires next == (a.pc + 4) % 0x1_0000_0000_0000_0000
    ensures Next(p, a) == Arch(next, a.regs, a.mem)
  {
  }
}
