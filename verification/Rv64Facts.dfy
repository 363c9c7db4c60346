/** What decode.v and memory.v compute, against the instruction formats and against memory itself. */
module Rv64Facts {
  import opened Arithmetic
  import opened PipelineTypes
  import opened Rv64Datapath

  // ----- immediates: the encodings of sections 2.3 to 2.6 of the Unprivileged ISA, 20191213

  /** An instruction word from the fields that all formats place alike; top holds bits 31 to 20. */
  function Fields(top: nat, rs1: RegIndex, f3: nat, rd: nat, opcode: nat): nat {
    (((top * 32 + rs1) * 8 + f3) * 32 + rd) * 128 + opcode
  }

  function EncodeI(imm: int, rs1: RegIndex, f3: nat, rd: RegIndex, opcode: nat): nat {
    Fields(imm % 4096, rs1, f3, rd, opcode)
  }

  function EncodeS(imm: int, rs2: RegIndex, rs1: RegIndex, f3: nat, opcode: nat): nat {
    Fields(imm % 4096 / 32 * 32 + rs2, rs1, f3, imm % 32, opcode)
  }

  function EncodeB(imm: int, rs2: RegIndex, rs1: RegIndex, f3: nat, opcode: nat): nat {
    var u := imm % 8192;
    Fields((u / 4096 * 64 + u / 32 % 64) * 32 + rs2, rs1, f3, u / 2 % 16 * 2 + u / 2048 % 2, opcode)
  }

  function EncodeU(imm: int, rd: RegIndex, opcode: nat): nat {
    (imm % 0x1_0000_0000 / 4096 * 32 + rd) * 128 + opcode
  }

  function EncodeJ(imm: int, rd: RegIndex, opcode: nat): nat {
    var u := imm % 2097152;
    (((u / 1048576 * 1024 + u / 2 % 1024) * 2 + u / 2048 % 2) * 256 + u / 4096 % 256) * 4096 + rd * 128 + opcode
  }

  lemma FieldsApart(top: nat, rs1: RegIndex, f3: nat, rd: nat, opcode: nat)
    requires top < 4096 && f3 < 8 && rd < 32 && opcode < 128
    ensures var i := Fields(top, rs1, f3, rd, opcode);
            && i < TWO32 && i % 128 == opcode && i / 128 % 32 == rd && i / 4096 % 8 == f3
            && i / 32768 % 32 == rs1 && i / 1048576 == top
  {
    var i := Fields(top, rs1, f3, rd, opcode);
    Digits(top, rs1, 32);
    Digits(top * 32 + rs1, f3, 8);
    Digits((top * 32 + rs1) * 8 + f3, rd, 32);
    Digits(((top * 32 + rs1) * 8 + f3) * 32 + rd, opcode, 128);
    DivDiv(i, 128, 32);
    DivDiv(i, 4096, 8);
    DivDiv(i, 32768, 32);
  }

  /** The value of a sign-extended field. */
  lemma SignExtendMod(imm: int, sign: nat)
    requires sign > 0 && 0 - sign <= imm < sign
    ensures SignExtend(imm % (2 * sign), sign) == imm
  {
    DivModUnique(imm, 2 * sign, if imm >= 0 then 0 else -1, if imm >= 0 then imm else imm + 2 * sign);
  }

  lemma ImmIRoundTrip(imm: int, rs1: RegIndex, f3: nat, rd: RegIndex, opcode: nat)
    requires -2048 <= imm < 2048 && f3 < 8 && opcode < 128
    ensures EncodeI(imm, rs1, f3, rd, opcode) < TWO32
    ensures var i: Instr := EncodeI(imm, rs1, f3, rd, opcode);
            ImmI(i) == imm && Rs1(i) == rs1 && Func3(i) == f3 && Rd(i) == rd && Opcode(i) == opcode
  {
    FieldsApart(imm % 4096, rs1, f3, rd, opcode);
  }

  /** The formats that carry rs2: bits 31 to 25 above rs2. */
  lemma FieldsApartRs2(hi: nat, rs2: RegIndex, rs1: RegIndex, f3: nat, rd: nat, opcode: nat)
    requires hi < 128 && f3 < 8 && rd < 32 && opcode < 128
    ensures var i := Fields(hi * 32 + rs2, rs1, f3, rd, opcode);
            && i < TWO32 && i % 128 == opcode && i / 128 % 32 == rd && i / 4096 % 8 == f3
            && i / 32768 % 32 == rs1 && i / 1048576 % 32 == rs2 && i / 33554432 == hi
            && i / 0x8000_0000 == hi / 64 && i / 256 % 16 == rd / 2 && i / 128 % 2 == rd % 2
  {
    var top := hi * 32 + rs2;
    FieldsApart(top, rs1, f3, rd, opcode);
    var i := Fields(top, rs1, f3, rd, opcode);
    Digits(hi, rs2, 32);
    DivDiv(i, 1048576, 32);
    DivDiv(i, 33554432, 64);
    DivDiv(i, 128, 2);
    LowBits(i / 128, rd);
  }

  lemma LowBits(x: nat, rd: nat)
    requires x % 32 == rd
    ensures x / 2 % 16 == rd / 2 && x % 2 == rd % 2
  {
    var q := x / 32;
    assert x == (16 * q + rd / 2) * 2 + rd % 2;
    Digits(16 * q + rd / 2, rd % 2, 2);
    Digits(q, rd / 2, 16);
  }

  lemma ImmSRoundTrip(imm: int, rs2: RegIndex, rs1: RegIndex, f3: nat, opcode: nat)
    requires -2048 <= imm < 2048 && f3 < 8 && opcode < 128
    ensures EncodeS(imm, rs2, rs1, f3, opcode) < TWO32
    ensures var i: Instr := EncodeS(imm, rs2, rs1, f3, opcode);
            ImmS(i) == imm && Rs2(i) == rs2 && Rs1(i) == rs1 && Func3(i) == f3 && Opcode(i) == opcode
  {
    var u, k := imm % 4096, imm / 4096;
    var hi, lo := u / 32, u % 32;
    DivModUnique(imm, 32, 128 * k + hi, lo);
    SignExtendMod(imm, 2048);
    FieldsApartRs2(hi, rs2, rs1, f3, lo, opcode);
  }

  lemma BranchBits(u: nat)
    requires u < 8192 && u % 2 == 0
    ensures u == u / 4096 * 4096 + u / 2048 % 2 * 2048 + u / 32 % 64 * 32 + u / 2 % 16 * 2
  {
    DivDiv(u, 2, 16);
    DivDiv(u, 32, 64);
    DivDiv(u, 2048, 2);
  }

  lemma ImmBRoundTrip(imm: int, rs2: RegIndex, rs1: RegIndex, f3: nat, opcode: nat)
    requires -4096 <= imm < 4096 && imm % 2 == 0 && f3 < 8 && opcode < 128
    ensures EncodeB(imm, rs2, rs1, f3, opcode) < TWO32
    ensures var i: Instr := EncodeB(imm, rs2, rs1, f3, opcode);
            ImmB(i) == imm && Rs2(i) == rs2 && Rs1(i) == rs1 && Func3(i) == f3 && Opcode(i) == opcode
  {
    var u := imm % 8192;
    BranchBits(u);
    SignExtendMod(imm, 4096);
    BranchFields(u / 4096, u / 32 % 64, u / 2 % 16, u / 2048 % 2, rs2, rs1, f3, opcode);
  }

  lemma BranchFields(s: nat, h: nat, m: nat, l: nat, rs2: RegIndex, rs1: RegIndex, f3: nat, opcode: nat)
    requires s < 2 && h < 64 && m < 16 && l < 2 && f3 < 8 && opcode < 128
    ensures var i := Fields((s * 64 + h) * 32 + rs2, rs1, f3, m * 2 + l, opcode);
            && i < TWO32 && i % 128 == opcode && i / 4096 % 8 == f3 && i / 32768 % 32 == rs1 && i / 1048576 % 32 == rs2
            && i / 0x8000_0000 == s && i / 33554432 % 64 == h && i / 256 % 16 == m && i / 128 % 2 == l
  {
    Digits(s, h, 64);
    Digits(m, l, 2);
    FieldsApartRs2(s * 64 + h, rs2, rs1, f3, m * 2 + l, opcode);
  }

  lemma ImmURoundTrip(imm: int, rd: RegIndex, opcode: nat)
    requires -0x8000_0000 <= imm < 0x8000_0000 && imm % 4096 == 0 && opcode < 128
    ensures EncodeU(imm, rd, opcode) < TWO32
    ensures var i: Instr := EncodeU(imm, rd, opcode); ImmU(i) == imm && Rd(i) == rd && Opcode(i) == opcode
  {
    var i, u := EncodeU(imm, rd, opcode), imm % 0x1_0000_0000;
    Digits(u / 4096, rd, 32);
    Digits(u / 4096 * 32 + rd, opcode, 128);
    DivDiv(i, 128, 32);
    DivModUnique(imm, 4096, imm / 0x1_0000_0000 * 1048576 + u / 4096, u % 4096);
    SignExtendMod(imm, 0x8000_0000);
  }

  lemma JumpFields(s: nat, h: nat, l: nat, m: nat, rd: RegIndex, opcode: nat)
    requires s < 2 && h < 1024 && l < 2 && m < 256 && opcode < 128
    ensures var i := (((s * 1024 + h) * 2 + l) * 256 + m) * 4096 + rd * 128 + opcode;
            && i < TWO32 && i % 128 == opcode && i / 128 % 32 == rd && i / 4096 % 256 == m
            && i / 1048576 % 2 == l && i / 2097152 % 1024 == h && i / 0x8000_0000 == s
  {
    var i := (((s * 1024 + h) * 2 + l) * 256 + m) * 4096 + rd * 128 + opcode;
    Digits(s, h, 1024);
    Digits(s * 1024 + h, l, 2);
    Digits((s * 1024 + h) * 2 + l, m, 256);
    Digits(((s * 1024 + h) * 2 + l) * 256 + m, rd, 32);
    Digits((((s * 1024 + h) * 2 + l) * 256 + m) * 32 + rd, opcode, 128);
    DivDiv(i, 128, 32);
    DivDiv(i, 4096, 256);
    DivDiv(i, 1048576, 2);
    DivDiv(i, 2097152, 1024);
  }

  lemma JumpBits(u: nat)
    requires u < 2097152 && u % 2 == 0
    ensures u == u / 1048576 * 1048576 + u / 4096 % 256 * 4096 + u / 2048 % 2 * 2048 + u / 2 % 1024 * 2
  {
    DivDiv(u, 2, 1024);
    DivDiv(u, 2048, 2);
    DivDiv(u, 4096, 256);
  }

  lemma ImmJRoundTrip(imm: int, rd: RegIndex, opcode: nat)
    requires -0x10_0000 <= imm < 0x10_0000 && imm % 2 == 0 && opcode < 128
    ensures EncodeJ(imm, rd, opcode) < TWO32
    ensures var i: Instr := EncodeJ(imm, rd, opcode); ImmJ(i) == imm && Rd(i) == rd && Opcode(i) == opcode
  {
    var u := imm % 2097152;
    var s, h, l, m := u / 1048576, u / 2 % 1024, u / 2048 % 2, u / 4096 % 256;
    DivModUnique(imm, 2, 1048576 * (imm / 2097152) + u / 2, u % 2);
    JumpFields(s, h, l, m, rd, opcode);
    JumpBits(u);
    JumpImm(EncodeJ(imm, rd, opcode), s, h, l, m, u);
    SignExtendMod(imm, 0x10_0000);
  }

  lemma JumpImm(i: Instr, s: nat, h: nat, l: nat, m: nat, u: nat)
    requires i / 0x8000_0000 == s && i / 4096 % 256 == m && i / 1048576 % 2 == l && i / 2097152 % 1024 == h
    requires u == s * 1048576 + m * 4096 + l * 2048 + h * 2
    ensures ImmJ(i) == SignExtend(u, 0x10_0000)
  {
  }

  // ----- shifts by an immediate: section 5.2 of the Unprivileged ISA, 20191213

  /** SRLI or SRAI, or their W forms: bit 30 chooses the arithmetic shift. */
  function EncodeShiftRight(arith: bool, shamt: nat, rs1: RegIndex, rd: RegIndex, opcode: nat): nat {
    Fields((if arith then 1024 else 0) + shamt, rs1, 5, rd, opcode)
  }

  function ShiftedRight(arith: bool, x: Word, shamt: nat): Word {
    Wrap64((if arith then Signed64(x) else x) / Pow2(shamt))
  }

  function ShiftedRightWord(arith: bool, x: Word, shamt: nat): Word {
    SignExtend32((if arith then Signed32(x) else x % TWO32) / Pow2(shamt))
  }

  /** What execute computes for an instruction. */
  function Result(i: Instr, r1: Word, r2: Word, pc: Word): Word {
    Alu(DecodeOp(i), DecodeAlu(i), r1, r2, DecodeImm(i), pc)
  }

  lemma ShiftFields(arith: bool, shamt: nat, rs1: RegIndex, f3: nat, rd: RegIndex, opcode: nat)
    requires shamt < 64 && f3 < 8 && opcode < 128
    ensures var top := (if arith then 1024 else 0) + shamt; Fields(top, rs1, f3, rd, opcode) < TWO32
    ensures var top := (if arith then 1024 else 0) + shamt;
            var i: Instr := Fields(top, rs1, f3, rd, opcode);
            && Opcode(i) == opcode && Func3(i) == f3 && ImmI(i) == top && Wrap64(top) == top
            && top % 64 == shamt && (shamt < 32 ==> top % 32 == shamt)
            && Func7(i) == (if arith then 32 else 0) + (if shamt < 32 then 0 else 1)
  {
    var top := (if arith then 1024 else 0) + shamt;
    FieldsApart(top, rs1, f3, rd, opcode);
    DivDiv(Fields(top, rs1, f3, rd, opcode), 1048576, 32);
    Digits(if arith then 16 else 0, shamt, 64);
    Digits((if arith then 32 else 0) + shamt / 32, shamt % 32, 32);
  }

  /**
   * All seven bits of func7 are compared, the lowest of which is bit 5 of the amount: a shift to the right by 32 and
   * more is no operation and gives 0. So the result is the manual's exactly for smaller amounts, or where that is 0.
   */
  lemma ShiftRightImmediate(arith: bool, shamt: nat, rs1: RegIndex, rd: RegIndex, r1: Word, r2: Word, pc: Word)
    requires shamt < 64
    ensures EncodeShiftRight(arith, shamt, rs1, rd, 0x13) < TWO32
    ensures var i: Instr := EncodeShiftRight(arith, shamt, rs1, rd, 0x13);
            && DecodeAlu(i) == (if shamt >= 32 then AluNone else if arith then Sra else Srl)
            && Result(i, r1, r2, pc) == (if shamt < 32 then ShiftedRight(arith, r1, shamt) else 0)
            && (Result(i, r1, r2, pc) == ShiftedRight(arith, r1, shamt)
                <==> shamt < 32 || ShiftedRight(arith, r1, shamt) == 0)
  {
    ShiftFields(arith, shamt, rs1, 5, rd, 0x13);
  }

  /** The W forms have amounts below 32 only, and are always right. */
  lemma ShiftRightWordImmediate(arith: bool, shamt: nat, rs1: RegIndex, rd: RegIndex, r1: Word, r2: Word, pc: Word)
    requires shamt < 32
    ensures EncodeShiftRight(arith, shamt, rs1, rd, 0x1b) < TWO32
    ensures Result(EncodeShiftRight(arith, shamt, rs1, rd, 0x1b), r1, r2, pc) == ShiftedRightWord(arith, r1, shamt)
  {
    var i := EncodeShiftRight(arith, shamt, rs1, rd, 0x1b);
    ShiftFields(arith, shamt, rs1, 5, rd, 0x1b);
    assert DecodeOp(i) == OpAluImmW && DecodeAlu(i) == if arith then Sraw else Srlw;
  }

  /** A shift to the left does not look at func7 and is right for every amount. */
  lemma ShiftLeftImmediate(shamt: nat, rs1: RegIndex, rd: RegIndex, r1: Word, r2: Word, pc: Word)
    requires shamt < 64
    ensures Fields(shamt, rs1, 1, rd, 0x13) < TWO32
    ensures Result(Fields(shamt, rs1, 1, rd, 0x13), r1, r2, pc) == Wrap64(r1 * Pow2(shamt))
  {
    ShiftFields(false, shamt, rs1, 1, rd, 0x13);
  }

  // ----- memory

  /** A store writes len bytes and no others. */
  lemma {:induction false} Unwritten(mem: Memory, addr: int, data: nat, len: nat, x: int)
    requires x < addr || addr + len <= x
    ensures x in WriteBytes(mem, addr, data, len) <==> x in mem
    ensures x in mem ==> WriteBytes(mem, addr, data, len)[x] == mem[x]
    decreases len
  {
    if len > 0 { Unwritten(mem[addr := data % 256], addr + 1, data / 256, len - 1, x); }
  }

  lemma WriteFrame(mem: Memory, addr: int, data: nat, len: nat, x: int)
    requires x < addr || addr + len <= x
    ensures Byte(WriteBytes(mem, addr, data, len), x) == Byte(mem, x)
  {
    Unwritten(mem, addr, data, len, x);
  }

  lemma {:induction false} ReadAfterWrite(mem: Memory, addr: int, data: nat, len: nat)
    ensures ReadBytes(WriteBytes(mem, addr, data, len), addr, len) == data % Pow2(8 * len)
    decreases len
  {
    if len > 0 {
      var first := mem[addr := data % 256];
      var all := WriteBytes(first, addr + 1, data / 256, len - 1);
      assert all == WriteBytes(mem, addr, data, len);
      WriteFrame(first, addr + 1, data / 256, len - 1, addr);
      assert Byte(all, addr) == data % 256;
      ReadAfterWrite(first, addr + 1, data / 256, len - 1);
      SplitByte(data, len);
    }
  }

  lemma SplitByte(data: nat, len: nat)
    requires len > 0
    ensures data % Pow2(8 * len) == data % 256 + 256 * (data / 256 % Pow2(8 * (len - 1)))
  {
    var p := Pow2(8 * (len - 1));
    PowPlus8(8 * (len - 1));
    var q, r := data / 256 / p, data / 256 % p;
    assert data / 256 == p * q + r;
    assert (256 * p) * q == 256 * (p * q);
    DivModUnique(data, 256 * p, q, 256 * r + data % 256);
  }

  lemma PrependByte(b: nat, tail: nat, len: nat)
    requires b < 256 && len > 0
    ensures (b + 256 * tail) % Pow2(8 * len) == b + 256 * (tail % Pow2(8 * (len - 1)))
  {
    Digits(tail, b, 256);
    SplitByte(b + 256 * tail, len);
  }

  /** Reading more bytes gives the same low bytes. */
  lemma {:induction false} ReadPrefix(mem: Memory, addr: int, len: nat, more: nat)
    requires len <= more
    ensures ReadBytes(mem, addr, more) % Pow2(8 * len) == ReadBytes(mem, addr, len)
    decreases len
  {
    if len > 0 {
      ReadPrefix(mem, addr + 1, len - 1, more - 1);
      PrependByte(Byte(mem, addr), ReadBytes(mem, addr + 1, more - 1), len);
    }
  }

  function Len(ls: LoadStoreOp): nat {
    match ls
    case Sb | Lb | Lbu => 1
    case Sh | Lh | Lhu => 2
    case Sw | Lw | Lwu => 4
    case Sd | Ld => 8
    case LsNone => 0
  }

  lemma Pow2Bytes()
    ensures Pow2(8) == 256 && Pow2(16) == 65536 && Pow2(32) == TWO32 && Pow2(64) == TWO64
  {
    assert Pow2(0) == 1;
    PowPlus8(0);
    PowPlus8(8);
    PowPlus8(16);
    PowPlus8(24);
    PowPlus8(32);
    PowPlus8(40);
    PowPlus8(48);
    PowPlus8(56);
  }

  function Modulus(st: LoadStoreOp): nat {
    match st
    case Sb => 256
    case Sh => 65536
    case Sw => TWO32
    case _ => TWO64
  }

  /** Below the width of a store the memory word is the stored word. */
  lemma WordAfterStore(st: LoadStoreOp, mem: Memory, addr: Word, data: Word)
    requires st in {Sb, Sh, Sw, Sd} && addr != 0
    ensures ReadMemory(Store(st, mem, addr, data), addr) % Modulus(st) == data % Modulus(st)
  {
    Pow2Bytes();
    ReadAfterWrite(mem, addr, data, Len(st));
    ReadPrefix(Store(st, mem, addr, data), addr, Len(st), 8);
  }

  lemma ExtendLow(ls: LoadStoreOp, v: nat, data: nat)
    requires ls != LsNone && ls !in {Sb, Sh, Sw, Sd} && v % Modulus(Stored(ls)) == data % Modulus(Stored(ls))
    ensures Extend(ls, v) == Extend(ls, data)
  {
  }

  /** The store of the same width as a load. */
  function Stored(ls: LoadStoreOp): LoadStoreOp {
    match ls
    case Lb | Lbu => Sb
    case Lh | Lhu => Sh
    case Lw | Lwu => Sw
    case _ => Sd
  }

  lemma WholeWord(data: Word)
    ensures Extend(Ld, data) == data
  {
  }

  /**
   * A load of the width just stored reads what was stored, extended as asked, except that address zero reads as zero.
   */
  lemma LoadAfterStore(ls: LoadStoreOp, mem: Memory, addr: Word, data: Word)
    requires ls in {Lb, Lh, Lw, Ld, Lbu, Lhu, Lwu}
    ensures var loaded := Load(ls, Store(Stored(ls), mem, addr, data), addr);
            && loaded == (if addr == 0 then 0 else Extend(ls, data))
            && (loaded == Extend(ls, data) <==> addr != 0 || Extend(ls, data) == 0)
    ensures Extend(Ld, data) == data
  {
    if addr != 0 {
      WordAfterStore(Stored(ls), mem, addr, data);
      ExtendLow(ls, ReadMemory(Store(Stored(ls), mem, addr, data), addr), data);
    }
    WholeWord(data);
  }

  lemma {:induction false} WrittenByte(mem: Memory, addr: int, data: nat, len: nat, x: int)
    requires addr <= x < addr + len
    ensures x in WriteBytes(mem, addr, data, len)
    ensures WriteBytes(mem, addr, data, len)[x] == data / Pow2(8 * (x - addr)) % 256
    decreases len
  {
    var first := mem[addr := data % 256];
    if x == addr {
      Unwritten(first, addr + 1, data / 256, len - 1, x);
    } else {
      WrittenByte(first, addr + 1, data / 256, len - 1, x);
      PowPlus8(8 * (x - addr - 1));
      DivDiv(data, 256, Pow2(8 * (x - addr - 1)));
    }
  }

  /** SB, SH, SW and SD write the low one, two, four or eight bytes, lowest first, and nothing else. */
  lemma StoredBytes(st: LoadStoreOp, mem: Memory, addr: Word, data: Word, len: nat, x: int)
    requires len == if st == Sb then 1 else if st == Sh then 2 else if st == Sw then 4 else if st == Sd then 8 else 0
    ensures var after := Store(st, mem, addr, data);
            && (x in after <==> x in mem || addr <= x < addr + len)
            && (addr <= x < addr + len ==> after[x] == data / Pow2(8 * (x - addr)) % 256)
            && (!(addr <= x < addr + len) && x in mem ==> after[x] == mem[x])
  {
    if addr <= x < addr + len { WrittenByte(mem, addr, data, len, x); } else { Unwritten(mem, addr, data, len, x); }
  }

  /** The byte at an address, zero where nothing was written. */
  ghost predicate Holds(mem: Memory, addr: int, b: seq<int>) {
    forall k :: 0 <= k < |b| ==> b[k] == if addr + k in mem then mem[addr + k] % 256 else 0
  }

  lemma ReadMore(mem: Memory, addr: int, b: seq<int>, k: nat)
    requires k < |b| && Holds(mem, addr, b)
    ensures ReadBytes(mem, addr + k, |b| - k) == b[k] + 256 * ReadBytes(mem, addr + k + 1, |b| - k - 1)
    ensures 0 <= b[k] < 256
  {
    assert b[k] == Byte(mem, addr + k);
  }

  lemma LowFields(v: nat, b0: nat, b1: nat, b2: nat, b3: nat, high: nat)
    requires b0 < 256 && b1 < 256 && b2 < 256 && b3 < 256
    requires v == b0 + 0x100 * b1 + 0x1_0000 * b2 + 0x100_0000 * b3 + 0x1_0000_0000 * high
    ensures v % 256 == b0 && v % 0x1_0000 == b0 + 0x100 * b1
    ensures v % 0x1_0000_0000 == b0 + 0x100 * b1 + 0x1_0000 * b2 + 0x100_0000 * b3
  {
    Digits(b1 + 0x100 * b2 + 0x1_0000 * b3 + 0x100_0000 * high, b0, 256);
    Digits(b2 + 0x100 * b3 + 0x1_0000 * high, b0 + 0x100 * b1, 0x1_0000);
    Digits(high, b0 + 0x100 * b1 + 0x1_0000 * b2 + 0x100_0000 * b3, 0x1_0000_0000);
  }

  /** The low one, two and four bytes of what is read, and all eight. */
  lemma ReadLow(mem: Memory, addr: int, b: seq<int>, v: nat)
    requires |b| == 8 && Holds(mem, addr, b) && v == ReadBytes(mem, addr, 8)
    ensures 0 <= b[0] < 256 && 0 <= b[1] < 256 && 0 <= b[2] < 256 && 0 <= b[3] < 256
    ensures v % 256 == b[0] && v % 0x1_0000 == b[0] + 0x100 * b[1]
    ensures v % 0x1_0000_0000 == b[0] + 0x100 * b[1] + 0x1_0000 * b[2] + 0x100_0000 * b[3]
    ensures v == b[0] + 0x100 * b[1] + 0x1_0000 * b[2] + 0x100_0000 * b[3] + 0x1_0000_0000 * b[4]
                 + 0x100_0000_0000 * b[5] + 0x1_0000_0000_0000 * b[6] + 0x100_0000_0000_0000 * b[7]
  {
    ReadMore(mem, addr, b, 0);
    ReadMore(mem, addr, b, 1);
    ReadMore(mem, addr, b, 2);
    ReadMore(mem, addr, b, 3);
    ReadMore(mem, addr, b, 4);
    ReadMore(mem, addr, b, 5);
    ReadMore(mem, addr, b, 6);
    ReadMore(mem, addr, b, 7);
    LowFields(v, b[0], b[1], b[2], b[3], ReadBytes(mem, addr + 4, 4));
  }

  lemma SignedField(v: nat, half: nat)
    requires 0 < half <= 0x8000_0000
    ensures Signed(v, 2 * half) ==
            if v % (2 * half) < half then v % (2 * half) else 0x1_0000_0000_0000_0000 - 2 * half + v % (2 * half)
  {
    var x := SignExtend(v % (2 * half), half);
    DivModUnique(x, TWO64, if x < 0 then -1 else 0, if x < 0 then x + TWO64 else x);
  }

  /**
   * What unsigned loads and LD give, from the bytes at the address: the low one, two, four or all eight. Address zero
   * reads as zero.
   */
  lemma LoadedBytes(mem: Memory, addr: Word, b: seq<int>)
    requires |b| == 8 && Holds(mem, addr, b)
    ensures Load(Lbu, mem, addr) == if addr == 0 then 0 else b[0]
    ensures Load(Lhu, mem, addr) == if addr == 0 then 0 else b[0] + 0x100 * b[1]
    ensures Load(Lwu, mem, addr) ==
            if addr == 0 then 0 else b[0] + 0x100 * b[1] + 0x1_0000 * b[2] + 0x100_0000 * b[3]
    ensures Load(Ld, mem, addr) ==
            if addr == 0 then 0
            else b[0] + 0x100 * b[1] + 0x1_0000 * b[2] + 0x100_0000 * b[3] + 0x1_0000_0000 * b[4]
                 + 0x100_0000_0000 * b[5] + 0x1_0000_0000_0000 * b[6] + 0x100_0000_0000_0000 * b[7]
  {
    var v := ReadBytes(mem, addr, 8);
    ReadLow(mem, addr, b, v);
    Pow2Bytes();
    Digits(0, v, TWO64);
  }

  /** What the signed loads give: the same, with all ones above where the top bit is set. */
  lemma LoadedSigned(mem: Memory, addr: Word, byte: nat, half: nat, word: nat)
    requires byte == Load(Lbu, mem, addr) && half == Load(Lhu, mem, addr) && word == Load(Lwu, mem, addr)
    ensures Load(Lb, mem, addr) == if byte < 0x80 then byte else 0xffff_ffff_ffff_ff00 + byte
    ensures Load(Lh, mem, addr) == if half < 0x8000 then half else 0xffff_ffff_ffff_0000 + half
    ensures Load(Lw, mem, addr) == if word < 0x8000_0000 then word else 0xffff_ffff_0000_0000 + word
  {
    SignedField(ReadMemory(mem, addr), 0x80);
    SignedField(ReadMemory(mem, addr), 0x8000);
    SignedField(ReadMemory(mem, addr), 0x8000_0000);
  }

  lemma {:induction false} ReadFrame(mem: Memory, other: Memory, addr: int, len: nat)
    requires forall x :: addr <= x < addr + len ==> Byte(mem, x) == Byte(other, x)
    ensures ReadBytes(mem, addr, len) == ReadBytes(other, addr, len)
    decreases len
  {
    if len > 0 { ReadFrame(mem, other, addr + 1, len - 1); }
  }

  /** A store changes no load from eight bytes that it does not touch. */
  lemma StoreElsewhere(st: LoadStoreOp, ls: LoadStoreOp, mem: Memory, at: Word, data: Word, addr: Word)
    requires st in {Sb, Sh, Sw, Sd} && (addr + 8 <= at || at + Len(st) <= addr)
    ensures Load(ls, Store(st, mem, at, data), addr) == Load(ls, mem, addr)
  {
    forall x | addr <= x < addr + 8 ensures Byte(Store(st, mem, at, data), x) == Byte(mem, x) {
      WriteFrame(mem, at, data, Len(st), x);
    }
    ReadFrame(Store(st, mem, at, data), mem, addr, 8);
  }
}
