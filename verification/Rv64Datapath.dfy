/** The combinational blocks of IP/rv64/cache-cpu: decode.v, execute.v and memory.v. */
module Rv64Datapath {
  import opened Arithmetic
  import opened BitMasks
  import BitOperations
  import opened PipelineTypes

  /** The low 32 bits of a number in two's complement. */
  function Signed32(x: int): int {
    if x % TWO32 >= 0x8000_0000 then x % TWO32 - TWO32 else x % TWO32
  }

  /** The low 32 bits, sign-extended to 64. */
  function SignExtend32(x: int): Word { Wrap64(Signed32(x)) }

  function SignExtend(x: nat, sign: nat): int {
    if x >= sign then x - 2 * sign else x
  }

  // ----- decode.v

  function Opcode(i: Instr): nat { i % 128 }
  function Rd(i: Instr): RegIndex { i / 128 % 32 }
  function Func3(i: Instr): nat { i / 4096 % 8 }
  function Rs1(i: Instr): RegIndex { i / 32768 % 32 }
  function Rs2(i: Instr): RegIndex { i / 1048576 % 32 }
  function Func7(i: Instr): nat { i / 33554432 }

  function DecodeOp(i: Instr): Op {
    match Opcode(i)
    case 0x37 => OpLui
    case 0x17 => OpAuipc
    case 0x6f => OpJal
    case 0x67 => OpJalr
    case 0x33 => OpAluReg
    case 0x3b => OpAluRegW
    case 0x13 => OpAluImm
    case 0x1b => OpAluImmW
    case 0x03 => OpLoad
    case 0x23 => OpStore
    case 0x63 => OpBranch
    case 0x73 => OpSystem
    case _ => OpNone
  }

  function DecodeBranch(i: Instr): BranchOp {
    if DecodeOp(i) != OpBranch then BrNone
    else match Func3(i)
      case 0 => Beq
      case 1 => Bne
      case 4 => Blt
      case 5 => Bge
      case 6 => Bltu
      case 7 => Bgeu
      case _ => BrNone
  }

  function DecodeLoadStore(i: Instr): LoadStoreOp {
    if DecodeOp(i) == OpLoad then
      match Func3(i)
      case 0 => Lb
      case 1 => Lh
      case 2 => Lw
      case 3 => Ld
      case 4 => Lbu
      case 5 => Lhu
      case 6 => Lwu
      case _ => LsNone
    else if DecodeOp(i) == OpStore then
      match Func3(i)
      case 0 => Sb
      case 1 => Sh
      case 2 => Sw
      case 3 => Sd
      case _ => LsNone
    else LsNone
  }

  function RegisterAlu(f7: nat, f3: nat): AluOp
    requires f3 < 8
  {
    if f7 == 0 then [Add, Sll, Slt, Sltu, Xor, Srl, Or, And][f3]
    else if f7 == 32 then
      if f3 == 0 then Sub else if f3 == 5 then Sra else AluNone
    else if f7 == 1 then [Mul, Mulh, Mulhsu, Mulhu, Div, Divu, Rem, Remu][f3]
    else AluNone
  }

  function RegisterAluW(f7: nat, f3: nat): AluOp
    requires f3 < 8
  {
    if f7 == 0 then
      if f3 == 0 then Addw else if f3 == 1 then Sllw else if f3 == 5 then Srlw else AluNone
    else if f7 == 32 then
      if f3 == 0 then Subw else if f3 == 5 then Sraw else AluNone
    else if f7 == 1 then [Mulw, AluNone, AluNone, AluNone, Divw, Divuw, Remw, Remuw][f3]
    else AluNone
  }

  /** Immediate forms: func7 is looked at for shifts to the right only, and for both shifts of the W forms. */
  function ImmediateAlu(f7: nat, f3: nat): AluOp
    requires f3 < 8
  {
    if f3 == 5 then
      if f7 == 0 then Srl else if f7 == 32 then Sra else AluNone
    else [Add, Sll, Slt, Sltu, Xor, AluNone, Or, And][f3]
  }

  function ImmediateAluW(f7: nat, f3: nat): AluOp {
    if f3 == 0 then Addw
    else if f3 == 1 && f7 == 0 then Sllw
    else if f3 == 5 && f7 == 0 then Srlw
    else if f3 == 5 && f7 == 32 then Sraw
    else AluNone
  }

  function DecodeAlu(i: Instr): AluOp {
    match DecodeOp(i)
    case OpAluReg => RegisterAlu(Func7(i), Func3(i))
    case OpAluRegW => RegisterAluW(Func7(i), Func3(i))
    case OpAluImm => ImmediateAlu(Func7(i), Func3(i))
    case OpAluImmW => ImmediateAluW(Func7(i), Func3(i))
    case _ => AluNone
  }

  function ImmI(i: Instr): int { SignExtend(i / 1048576, 0x800) }

  function ImmS(i: Instr): int { SignExtend(i / 33554432 * 32 + i / 128 % 32, 0x800) }

  function ImmB(i: Instr): int {
    SignExtend(i / 0x8000_0000 * 4096 + i / 128 % 2 * 2048 + i / 33554432 % 64 * 32 + i / 256 % 16 * 2, 0x1000)
  }

  function ImmJ(i: Instr): int {
    SignExtend(i / 0x8000_0000 * 1048576 + i / 4096 % 256 * 4096 + i / 1048576 % 2 * 2048 + i / 2097152 % 1024 * 2,
               0x10_0000)
  }

  function ImmU(i: Instr): int { SignExtend(i / 4096 * 4096, 0x8000_0000) }

  function DecodeImm(i: Instr): Word {
    match DecodeOp(i)
    case OpLoad | OpJalr | OpAluImm | OpAluImmW => Wrap64(ImmI(i))
    case OpStore => Wrap64(ImmS(i))
    case OpBranch => Wrap64(ImmB(i))
    case OpJal => Wrap64(ImmJ(i))
    case OpLui | OpAuipc => Wrap64(ImmU(i))
    case _ => 0
  }

  function Decode(i: Instr): Decoded {
    var op := DecodeOp(i);
    Decoded(op, DecodeAlu(i), DecodeBranch(i), DecodeLoadStore(i), DecodeImm(i), Rd(i), Rs1(i), Rs2(i),
            op !in {OpNone, OpStore, OpBranch, OpSystem})
  }

  // ----- execute.v

  function Src1(op: Op, r1: Word, pc: Word): Word {
    match op
    case OpAluReg | OpAluRegW | OpAluImm | OpAluImmW | OpStore | OpLoad | OpJalr => r1
    case OpBranch | OpJal | OpAuipc => pc
    case _ => 0
  }

  function Src2(op: Op, r2: Word, imm: Word): Word {
    match op
    case OpAluReg | OpAluRegW => r2
    case OpNone | OpSystem => 0
    case _ => imm
  }

  /** A 32-bit division whose low divisor word is zero is undefined in the source; it is 0 here. */
  function DivW(a: Word, b: Word): Word {
    if b == 0 then Wrap64(-1)
    else if a == 0xFFFF_FFFF_8000_0000 && b == 0xFFFF_FFFF_FFFF_FFFF then 0xFFFF_FFFF_8000_0000
    else if b % TWO32 == 0 then 0
    else SignExtend32(TruncDiv(Signed32(a), Signed32(b)))
  }

  function DivUW(a: Word, b: Word): Word {
    if b == 0 then Wrap64(-1) else if b % TWO32 == 0 then 0 else SignExtend32(a % TWO32 / (b % TWO32))
  }

  function DivSigned(a: Word, b: Word): Word {
    if b == 0 then Wrap64(-1)
    else if a == TWO63 && b == TWO64 - 1 then TWO63
    else Wrap64(TruncDiv(Signed64(a), Signed64(b)))
  }

  function AndWord(a: Word, b: Word): Word {
    AndAtMost(a, b);
    BitOperations.And(a, b)
  }

  function OrWord(a: Word, b: Word): Word {
    BitOperations.WordSizes();
    OrBound(a, b, 64);
    BitOperations.Or(a, b)
  }

  function XorWord(a: Word, b: Word): Word {
    BitOperations.WordSizes();
    XorBound(a, b, 64);
    BitOperations.Xor(a, b)
  }

  function AddWord(a: Word, b: Word): Word { Wrap64(a + b) }
  function AddLow(a: Word, b: Word): Word { SignExtend32(a + b) }
  function SubWord(a: Word, b: Word): Word { Wrap64(a - b) }
  function SubLow(a: Word, b: Word): Word { SignExtend32(a - b) }

  function SllWord(a: Word, b: Word): Word { Wrap64(a * Pow2(b % 64)) }
  function SllLow(a: Word, b: Word): Word { SignExtend32(a * Pow2(b % 32)) }
  function SrlWord(a: Word, b: Word): Word { Wrap64(a / Pow2(b % 64)) }
  function SrlLow(a: Word, b: Word): Word { SignExtend32(a % TWO32 / Pow2(b % 32)) }
  function SraWord(a: Word, b: Word): Word { Wrap64(Signed64(a) / Pow2(b % 64)) }
  function SraLow(a: Word, b: Word): Word { SignExtend32(Signed32(a) / Pow2(b % 32)) }

  function SltWord(a: Word, b: Word): Word { if Signed64(a) < Signed64(b) then 1 else 0 }
  function SltuWord(a: Word, b: Word): Word { if a < b then 1 else 0 }

  function MulWord(a: Word, b: Word): Word { Wrap64(a * b) }
  function MulLow(a: Word, b: Word): Word { SignExtend32(a * b) }
  function MulHigh(a: Word, b: Word): Word { Wrap64(Signed64(a) * Signed64(b) / TWO64) }
  function MulHighSu(a: Word, b: Word): Word { Wrap64(Signed64(a) * b / TWO64) }
  function MulHighU(a: Word, b: Word): Word { Wrap64(a * b / TWO64) }
  function DivUnsigned(a: Word, b: Word): Word { if b == 0 then Wrap64(-1) else Wrap64(a / b) }

  function AluAlu(op: AluOp, a: Word, b: Word): Word {
    match op
    case And => AndWord(a, b)
    case Add => AddWord(a, b)
    case Addw => AddLow(a, b)
    case Sub => SubWord(a, b)
    case Subw => SubLow(a, b)
    case Sll => SllWord(a, b)
    case Sllw => SllLow(a, b)
    case Slt => SltWord(a, b)
    case Sltu => SltuWord(a, b)
    case Xor => XorWord(a, b)
    case Or => OrWord(a, b)
    case Sra => SraWord(a, b)
    case Sraw => SraLow(a, b)
    case Srl => SrlWord(a, b)
    case Srlw => SrlLow(a, b)
    case Mul => MulWord(a, b)
    case Mulh => MulHigh(a, b)
    case Mulhsu => MulHighSu(a, b)
    case Mulhu => MulHighU(a, b)
    case Mulw => MulLow(a, b)
    case Div => DivSigned(a, b)
    case Divu => DivUnsigned(a, b)
    case Divw => DivW(a, b)
    case Divuw => DivUW(a, b)
    case _ => 0
  }

  function Alu(op: Op, alu: AluOp, r1: Word, r2: Word, imm: Word, pc: Word): Word {
    var a, b := Src1(op, r1, pc), Src2(op, r2, imm);
    match op
    case OpLui | OpAuipc | OpBranch | OpStore | OpJal | OpJalr | OpLoad => AddWord(a, b)
    case _ => AluAlu(alu, a, b)
  }

  predicate Taken(branch: BranchOp, r1: Word, r2: Word) {
    match branch
    case BrNone => false
    case Beq => r1 == r2
    case Bne => r1 != r2
    case Blt => Signed64(r1) < Signed64(r2)
    case Bge => Signed64(r1) >= Signed64(r2)
    case Bltu => r1 < r2
    case Bgeu => r1 >= r2
  }

  function EvenBelow(x: Word): Word { x - x % 2 }

  /** jalr clears bit 0 of its target. */
  function JumpTarget(op: Op, aluResult: Word): Word {
    if op == OpJalr then EvenBelow(aluResult) else aluResult
  }

  // ----- memory.v, over byte-addressed little-endian memory

  function Byte(mem: Memory, addr: int): (b: int)
    ensures 0 <= b < 256
  {
    if addr in mem then mem[addr] % 256 else 0
  }

  function ReadBytes(mem: Memory, addr: int, len: nat): (v: nat)
    ensures v < Pow2(8 * len)
    decreases len
  {
    if len == 0 then 0
    else
      assert Pow2(8 * len) == 256 * Pow2(8 * len - 8) by { PowPlus8(8 * len - 8); }
      Byte(mem, addr) + 256 * ReadBytes(mem, addr + 1, len - 1)
  }

  lemma PowPlus8(n: nat)
    ensures Pow2(n + 8) == 256 * Pow2(n)
  {
    assert Pow2(n + 8) == 2 * Pow2(n + 7) == 4 * Pow2(n + 6) == 8 * Pow2(n + 5) == 16 * Pow2(n + 4);
    assert Pow2(n + 4) == 2 * Pow2(n + 3) == 4 * Pow2(n + 2) == 8 * Pow2(n + 1) == 16 * Pow2(n);
  }

  function WriteBytes(mem: Memory, addr: int, data: nat, len: nat): Memory
    decreases len
  {
    if len == 0 then mem else WriteBytes(mem[addr := data % 256], addr + 1, data / 256, len - 1)
  }

  /** dpi_mem_read: address zero reads as zero. */
  function ReadMemory(mem: Memory, addr: Word): (v: nat) {
    if addr == 0 then 0 else ReadBytes(mem, addr, 8)
  }

  /** The field of v below width, zero-extended or, with its upper half negative, sign-extended. */
  function Unsigned(v: nat, width: nat): Word
    requires 0 < width <= TWO64
  {
    v % width
  }

  function Signed(v: nat, width: nat): Word
    requires 0 < width
  {
    Wrap64(SignExtend(v % width, width / 2))
  }

  /** memory_o_memdata from the eight bytes read. */
  function Extend(ls: LoadStoreOp, v: nat): Word {
    match ls
    case Lb => Signed(v, 256)
    case Lh => Signed(v, 65536)
    case Lw => Signed(v, TWO32)
    case Ld => Unsigned(v, TWO64)
    case Lbu => Unsigned(v, 256)
    case Lhu => Unsigned(v, 65536)
    case Lwu => Unsigned(v, TWO32)
    case _ => 0
  }

  function Load(ls: LoadStoreOp, mem: Memory, addr: Word): Word {
    Extend(ls, ReadMemory(mem, addr))
  }

  function Store(ls: LoadStoreOp, mem: Memory, addr: Word, data: Word): Memory {
    match ls
    case Sb => WriteBytes(mem, addr, data, 1)
    case Sh => WriteBytes(mem, addr, data, 2)
    case Sw => WriteBytes(mem, addr, data, 4)
    case Sd => WriteBytes(mem, addr, data, 8)
    case _ => mem
  }

  function Rv64(): Datapath {
    Datapath(Decode, Alu, Taken, JumpTarget, Load, Store)
  }

  /** The decoder and the memory ports meet everything the hazard logic relies on. */
  lemma Rv64Ok()
    ensures DatapathOk(Rv64())
  {
  }
}
