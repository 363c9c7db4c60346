/** What execute.v computes for each instruction word, in plain arithmetic on the operands. */
module Rv64Instructions {
  import opened Arithmetic
  import opened BitMasks
  import BitOperations
  import opened PipelineTypes
  import opened Rv64Datapath
  import opened Rv64Facts
  import opened SignedDivision

  /** An instruction of two registers: func7, and the fields of all formats. */
  function EncodeR(f7: nat, rs2: RegIndex, rs1: RegIndex, f3: nat, rd: RegIndex, opcode: nat): Instr
    requires f7 < 128 && f3 < 8 && opcode < 128
  {
    FieldsApartRs2(f7, rs2, rs1, f3, rd, opcode);
    Fields(f7 * 32 + rs2, rs1, f3, rd, opcode)
  }

  lemma DecodeR(f7: nat, rs2: RegIndex, rs1: RegIndex, f3: nat, rd: RegIndex, opcode: nat)
    requires f7 < 128 && f3 < 8 && opcode < 128
    ensures var i := EncodeR(f7, rs2, rs1, f3, rd, opcode);
            && Opcode(i) == opcode && Func3(i) == f3 && Func7(i) == f7
            && Rd(i) == rd && Rs1(i) == rs1 && Rs2(i) == rs2
  {
    FieldsApartRs2(f7, rs2, rs1, f3, rd, opcode);
  }

  // ----- two registers: sections 2.4, 5.2 and 7 of the Unprivileged ISA, 20191213

  /** The operation that the decoder finds, done on both registers. */
  lemma ResultR(f7: nat, rs2: RegIndex, rs1: RegIndex, f3: nat, rd: RegIndex, r1: Word, r2: Word, pc: Word)
    requires f7 < 128 && f3 < 8
    ensures Result(EncodeR(f7, rs2, rs1, f3, rd, 0x33), r1, r2, pc) == AluAlu(RegisterAlu(f7, f3), r1, r2)
  {
    DecodeR(f7, rs2, rs1, f3, rd, 0x33);
  }

  lemma ResultRW(f7: nat, rs2: RegIndex, rs1: RegIndex, f3: nat, rd: RegIndex, r1: Word, r2: Word, pc: Word)
    requires f7 < 128 && f3 < 8
    ensures Result(EncodeR(f7, rs2, rs1, f3, rd, 0x3b), r1, r2, pc) == AluAlu(RegisterAluW(f7, f3), r1, r2)
  {
    DecodeR(f7, rs2, rs1, f3, rd, 0x3b);
  }

  /** What the decoder gives no operation, and the remainders that execute does not compute, come to 0. */
  lemma NoResult(f7: nat, rs2: RegIndex, rs1: RegIndex, f3: nat, rd: RegIndex, r1: Word, r2: Word, pc: Word)
    requires f7 < 128 && f3 < 8
    ensures f7 !in {0, 1, 32} || (f7 == 32 && f3 !in {0, 5}) || (f7 == 1 && f3 in {6, 7}) ==>
              Result(EncodeR(f7, rs2, rs1, f3, rd, 0x33), r1, r2, pc) == 0
  {
    ResultR(f7, rs2, rs1, f3, rd, r1, r2, pc);
  }

  lemma NoResultWord(f7: nat, rs2: RegIndex, rs1: RegIndex, f3: nat, rd: RegIndex, r1: Word, r2: Word, pc: Word)
    requires f7 < 128 && f3 < 8
    ensures f7 !in {0, 1, 32} || (f7 == 0 && f3 !in {0, 1, 5}) || (f7 == 32 && f3 !in {0, 5})
            || (f7 == 1 && f3 !in {0, 4, 5}) ==>
              Result(EncodeR(f7, rs2, rs1, f3, rd, 0x3b), r1, r2, pc) == 0
  {
    ResultRW(f7, rs2, rs1, f3, rd, r1, r2, pc);
  }

  /** ADD and SUB. */
  lemma AddSub(rs2: RegIndex, rs1: RegIndex, rd: RegIndex, r1: Word, r2: Word, pc: Word)
    ensures Result(EncodeR(0, rs2, rs1, 0, rd, 0x33), r1, r2, pc) == (r1 + r2) % 0x1_0000_0000_0000_0000
    ensures Result(EncodeR(32, rs2, rs1, 0, rd, 0x33), r1, r2, pc) == (r1 - r2) % 0x1_0000_0000_0000_0000
  {
    ResultR(0, rs2, rs1, 0, rd, r1, r2, pc);
    ResultR(32, rs2, rs1, 0, rd, r1, r2, pc);
  }

  /** The number that a word stands for in two's complement, and the word of the number. */
  lemma SignedIs(x: int)
    requires -0x8000_0000_0000_0000 <= x < 0x8000_0000_0000_0000
    ensures Signed64(Wrap64(x)) == x
  {
    DivModUnique(x, TWO64, if x < 0 then -1 else 0, if x < 0 then x + TWO64 else x);
  }

  /** z is the 32-bit number that differs from v by a multiple of 2^32. */
  lemma SignedLowIs(v: int, z: int)
    requires -0x8000_0000 <= z < 0x8000_0000 && (z - v) % 0x1_0000_0000 == 0
    ensures Signed32(v) == z && SignExtend32(v) == z % 0x1_0000_0000_0000_0000
  {
    var k, low := (z - v) / TWO32, if z < 0 then z + TWO32 else z;
    DivModUnique(v, TWO32, if z < 0 then 0 - k - 1 else 0 - k, low);
  }

  /** SLT and SLTU. */
  lemma SetLess(rs2: RegIndex, rs1: RegIndex, rd: RegIndex, x: int, y: int, r1: Word, r2: Word, pc: Word)
    requires -0x8000_0000_0000_0000 <= x < 0x8000_0000_0000_0000 && -0x8000_0000_0000_0000 <= y < 0x8000_0000_0000_0000
    ensures Result(EncodeR(0, rs2, rs1, 2, rd, 0x33), x % 0x1_0000_0000_0000_0000, y % 0x1_0000_0000_0000_0000, pc)
            == if x < y then 1 else 0
    ensures Result(EncodeR(0, rs2, rs1, 3, rd, 0x33), r1, r2, pc) == if r1 < r2 then 1 else 0
  {
    SignedIs(x);
    SignedIs(y);
    ResultR(0, rs2, rs1, 2, rd, x % TWO64, y % TWO64, pc);
    ResultR(0, rs2, rs1, 3, rd, r1, r2, pc);
  }

  lemma AndOrXorBits(a: Word, b: Word, k: nat)
    ensures AndWord(a, b) / Pow2(k) % 2 == 1 <==> a / Pow2(k) % 2 == 1 && b / Pow2(k) % 2 == 1
    ensures OrWord(a, b) / Pow2(k) % 2 == 1 <==> a / Pow2(k) % 2 == 1 || b / Pow2(k) % 2 == 1
    ensures XorWord(a, b) / Pow2(k) % 2 == 1 <==> (a / Pow2(k) % 2 == 1) != (b / Pow2(k) % 2 == 1)
  {
    AndBit(a, b, k);
    OrBit(a, b, k);
    XorBit(a, b, k);
    BitIsDigit(a, k);
    BitIsDigit(b, k);
    BitIsDigit(AndWord(a, b), k);
    BitIsDigit(OrWord(a, b), k);
    BitIsDigit(XorWord(a, b), k);
  }

  /** AND, OR and XOR, bit by bit. */
  lemma Bitwise(rs2: RegIndex, rs1: RegIndex, rd: RegIndex, r1: Word, r2: Word, pc: Word, k: nat)
    ensures Result(EncodeR(0, rs2, rs1, 7, rd, 0x33), r1, r2, pc) / Pow2(k) % 2 == 1 <==>
            r1 / Pow2(k) % 2 == 1 && r2 / Pow2(k) % 2 == 1
    ensures Result(EncodeR(0, rs2, rs1, 6, rd, 0x33), r1, r2, pc) / Pow2(k) % 2 == 1 <==>
            r1 / Pow2(k) % 2 == 1 || r2 / Pow2(k) % 2 == 1
    ensures Result(EncodeR(0, rs2, rs1, 4, rd, 0x33), r1, r2, pc) / Pow2(k) % 2 == 1 <==>
            (r1 / Pow2(k) % 2 == 1) != (r2 / Pow2(k) % 2 == 1)
  {
    AndOrXorBits(r1, r2, k);
    BitwiseWords(rs2, rs1, rd, r1, r2, pc);
  }

  lemma BitwiseWords(rs2: RegIndex, rs1: RegIndex, rd: RegIndex, r1: Word, r2: Word, pc: Word)
    ensures Result(EncodeR(0, rs2, rs1, 7, rd, 0x33), r1, r2, pc) == AndWord(r1, r2)
    ensures Result(EncodeR(0, rs2, rs1, 6, rd, 0x33), r1, r2, pc) == OrWord(r1, r2)
    ensures Result(EncodeR(0, rs2, rs1, 4, rd, 0x33), r1, r2, pc) == XorWord(r1, r2)
  {
    ResultR(0, rs2, rs1, 7, rd, r1, r2, pc);
    ResultR(0, rs2, rs1, 6, rd, r1, r2, pc);
    ResultR(0, rs2, rs1, 4, rd, r1, r2, pc);
  }

  /** SLL, SRL and SRA, by the low six bits of the second register. */
  lemma Shifts(rs2: RegIndex, rs1: RegIndex, rd: RegIndex, x: int, r1: Word, r2: Word, pc: Word)
    requires -0x8000_0000_0000_0000 <= x < 0x8000_0000_0000_0000
    ensures Result(EncodeR(0, rs2, rs1, 1, rd, 0x33), r1, r2, pc) == r1 * Pow2(r2 % 64) % 0x1_0000_0000_0000_0000
    ensures Result(EncodeR(0, rs2, rs1, 5, rd, 0x33), r1, r2, pc) == r1 / Pow2(r2 % 64)
    ensures Result(EncodeR(32, rs2, rs1, 5, rd, 0x33), x % 0x1_0000_0000_0000_0000, r2, pc)
            == x / Pow2(r2 % 64) % 0x1_0000_0000_0000_0000
  {
    SignedIs(x);
    ResultR(0, rs2, rs1, 1, rd, r1, r2, pc);
    ResultR(0, rs2, rs1, 5, rd, r1, r2, pc);
    ResultR(32, rs2, rs1, 5, rd, x % TWO64, r2, pc);
    QuotientFits(r1, Pow2(r2 % 64));
  }

  lemma QuotientFits(a: Word, b: nat)
    requires b > 0
    ensures 0 <= a / b <= a && Wrap64(a / b) == a / b
  {
    ShiftedFits(a, b);
  }

  /** MUL and MULHU. */
  lemma Products(rs2: RegIndex, rs1: RegIndex, rd: RegIndex, r1: Word, r2: Word, pc: Word)
    ensures Result(EncodeR(1, rs2, rs1, 0, rd, 0x33), r1, r2, pc) == r1 * r2 % 0x1_0000_0000_0000_0000
    ensures Result(EncodeR(1, rs2, rs1, 3, rd, 0x33), r1, r2, pc)
            == r1 * r2 / 0x1_0000_0000_0000_0000 % 0x1_0000_0000_0000_0000
  {
    ResultR(1, rs2, rs1, 0, rd, r1, r2, pc);
    ResultR(1, rs2, rs1, 3, rd, r1, r2, pc);
  }

  /** MULH and MULHSU: the high word, with both operands signed or the first only. */
  lemma SignedProducts(rs2: RegIndex, rs1: RegIndex, rd: RegIndex, x: int, y: int, r2: Word, pc: Word)
    requires -0x8000_0000_0000_0000 <= x < 0x8000_0000_0000_0000 && -0x8000_0000_0000_0000 <= y < 0x8000_0000_0000_0000
    ensures Result(EncodeR(1, rs2, rs1, 1, rd, 0x33), x % 0x1_0000_0000_0000_0000, y % 0x1_0000_0000_0000_0000, pc)
            == x * y / 0x1_0000_0000_0000_0000 % 0x1_0000_0000_0000_0000
    ensures Result(EncodeR(1, rs2, rs1, 2, rd, 0x33), x % 0x1_0000_0000_0000_0000, r2, pc)
            == x * r2 / 0x1_0000_0000_0000_0000 % 0x1_0000_0000_0000_0000
  {
    SignedIs(x);
    SignedIs(y);
    ResultR(1, rs2, rs1, 1, rd, x % TWO64, y % TWO64, pc);
    ResultR(1, rs2, rs1, 2, rd, x % TWO64, r2, pc);
  }

  lemma DivisionWord(rs2: RegIndex, rs1: RegIndex, rd: RegIndex, r1: Word, r2: Word, pc: Word)
    ensures Result(EncodeR(1, rs2, rs1, 4, rd, 0x33), r1, r2, pc) == DivSigned(r1, r2)
  {
    ResultR(1, rs2, rs1, 4, rd, r1, r2, pc);
  }

  /** DIV: the quotient toward zero modulo 2^64; all ones for the divisor 0. */
  lemma Division(rs2: RegIndex, rs1: RegIndex, rd: RegIndex, x: int, y: int, q: int, left: int, r1: Word, pc: Word)
    requires -0x8000_0000_0000_0000 <= x < 0x8000_0000_0000_0000 && -0x8000_0000_0000_0000 <= y < 0x8000_0000_0000_0000
    requires y != 0 ==> IsTruncating(x, y, q, left)
    ensures Result(EncodeR(1, rs2, rs1, 4, rd, 0x33), x % 0x1_0000_0000_0000_0000, y % 0x1_0000_0000_0000_0000, pc)
            == if y == 0 then 0xffff_ffff_ffff_ffff else q % 0x1_0000_0000_0000_0000
  {
    DivisionWord(rs2, rs1, rd, x % TWO64, y % TWO64, pc);
    SignedIs(x);
    SignedIs(y);
    if y != 0 { TruncatingIsUnique(x, y, q, left); }
  }

  /** DIVU. */
  lemma UnsignedDivision(rs2: RegIndex, rs1: RegIndex, rd: RegIndex, r1: Word, r2: Word, pc: Word)
    ensures Result(EncodeR(1, rs2, rs1, 5, rd, 0x33), r1, r2, pc) == if r2 == 0 then 0xffff_ffff_ffff_ffff else r1 / r2
  {
    ResultR(1, rs2, rs1, 5, rd, r1, r2, pc);
    if r2 != 0 { QuotientFits(r1, r2); }
  }

  // ----- the W forms: 32-bit operations, whose result z is sign-extended

  /** ADDW and SUBW. */
  lemma AddSubWord(rs2: RegIndex, rs1: RegIndex, rd: RegIndex, sum: int, difference: int, r1: Word, r2: Word, pc: Word)
    requires -0x8000_0000 <= sum < 0x8000_0000 && (sum - (r1 + r2)) % 0x1_0000_0000 == 0
    requires -0x8000_0000 <= difference < 0x8000_0000 && (difference - (r1 - r2)) % 0x1_0000_0000 == 0
    ensures Result(EncodeR(0, rs2, rs1, 0, rd, 0x3b), r1, r2, pc) == sum % 0x1_0000_0000_0000_0000
    ensures Result(EncodeR(32, rs2, rs1, 0, rd, 0x3b), r1, r2, pc) == difference % 0x1_0000_0000_0000_0000
  {
    SumWords(rs2, rs1, rd, r1, r2, pc);
    SignedLowIs(r1 + r2, sum);
    SignedLowIs(r1 - r2, difference);
  }

  lemma SumWords(rs2: RegIndex, rs1: RegIndex, rd: RegIndex, r1: Word, r2: Word, pc: Word)
    ensures Result(EncodeR(0, rs2, rs1, 0, rd, 0x3b), r1, r2, pc) == SignExtend32(r1 + r2)
    ensures Result(EncodeR(32, rs2, rs1, 0, rd, 0x3b), r1, r2, pc) == SignExtend32(r1 - r2)
  {
    ResultRW(0, rs2, rs1, 0, rd, r1, r2, pc);
    ResultRW(32, rs2, rs1, 0, rd, r1, r2, pc);
  }

  /** MULW. */
  lemma ProductWord(rs2: RegIndex, rs1: RegIndex, rd: RegIndex, product: int, r1: Word, r2: Word, pc: Word)
    requires -0x8000_0000 <= product < 0x8000_0000 && (product - r1 * r2) % 0x1_0000_0000 == 0
    ensures Result(EncodeR(1, rs2, rs1, 0, rd, 0x3b), r1, r2, pc) == product % 0x1_0000_0000_0000_0000
  {
    ResultRW(1, rs2, rs1, 0, rd, r1, r2, pc);
    SignedLowIs(r1 * r2, product);
  }

  /** SLLW, SRLW and SRAW, by the low five bits of the second register; x is the signed low word of the first. */
  lemma ShiftsWord(rs2: RegIndex, rs1: RegIndex, rd: RegIndex, x: int, left: int, right: int,
                   r1: Word, r2: Word, pc: Word)
    requires -0x8000_0000 <= x < 0x8000_0000 && (x - r1) % 0x1_0000_0000 == 0
    requires -0x8000_0000 <= left < 0x8000_0000 && (left - r1 * Pow2(r2 % 32)) % 0x1_0000_0000 == 0
    requires -0x8000_0000 <= right < 0x8000_0000 && (right - r1 % 0x1_0000_0000 / Pow2(r2 % 32)) % 0x1_0000_0000 == 0
    ensures Result(EncodeR(0, rs2, rs1, 1, rd, 0x3b), r1, r2, pc) == left % 0x1_0000_0000_0000_0000
    ensures Result(EncodeR(0, rs2, rs1, 5, rd, 0x3b), r1, r2, pc) == right % 0x1_0000_0000_0000_0000
    ensures Result(EncodeR(32, rs2, rs1, 5, rd, 0x3b), r1, r2, pc) == x / Pow2(r2 % 32) % 0x1_0000_0000_0000_0000
  {
    ShiftWords(rs2, rs1, rd, r1, r2, pc);
    SignedLowIs(r1, x);
    SignedLowIs(r1 * Pow2(r2 % 32), left);
    SignedLowIs(r1 % TWO32 / Pow2(r2 % 32), right);
    ShiftedFits(x, Pow2(r2 % 32));
    SignedLowIs(x / Pow2(r2 % 32), x / Pow2(r2 % 32));
  }

  lemma ShiftWords(rs2: RegIndex, rs1: RegIndex, rd: RegIndex, r1: Word, r2: Word, pc: Word)
    ensures Result(EncodeR(0, rs2, rs1, 1, rd, 0x3b), r1, r2, pc) == SignExtend32(r1 * Pow2(r2 % 32))
    ensures Result(EncodeR(0, rs2, rs1, 5, rd, 0x3b), r1, r2, pc) == SignExtend32(r1 % TWO32 / Pow2(r2 % 32))
    ensures Result(EncodeR(32, rs2, rs1, 5, rd, 0x3b), r1, r2, pc) == SignExtend32(Signed32(r1) / Pow2(r2 % 32))
  {
    ResultRW(0, rs2, rs1, 1, rd, r1, r2, pc);
    ResultRW(0, rs2, rs1, 5, rd, r1, r2, pc);
    ResultRW(32, rs2, rs1, 5, rd, r1, r2, pc);
  }

  /** A quotient by a positive number lies between 0 and the dividend, or -1 and the dividend. */
  lemma ShiftedFits(x: int, b: nat)
    requires b > 0
    ensures if x >= 0 then 0 <= x / b <= x else x <= x / b < 0
  {
    FloorFits(x, b, x / b, x % b);
  }

  lemma FloorFits(x: int, b: nat, q: int, r: nat)
    requires b > 0 && x == b * q + r && r < b
    ensures if x >= 0 then 0 <= q <= x else x <= q < 0
  {
    MulGap(b, q);
    if q >= 0 {
      MulSum(q, 1, b - 1);
      MulNotNegative(q, b - 1);
    } else {
      MulNotNegative(0 - q - 1, b - 1);
      assert b * q == 0 - (0 - q - 1) * (b - 1) - (0 - q - 1) - b;
    }
  }

  lemma MulNotNegative(a: nat, b: nat)
    ensures a * b >= 0
  {
  }

  /** DIVW, by x and y, the signed low words: all ones only if all 64 bits of the divisor are 0. */
  lemma DivisionOfLow(rs2: RegIndex, rs1: RegIndex, rd: RegIndex, x: int, y: int, q: int, left: int, z: int,
                      r1: Word, r2: Word, pc: Word)
    requires -0x8000_0000 <= x < 0x8000_0000 && (x - r1) % 0x1_0000_0000 == 0
    requires -0x8000_0000 <= y < 0x8000_0000 && (y - r2) % 0x1_0000_0000 == 0
    requires y != 0 ==> IsTruncating(x, y, q, left) && -0x8000_0000 <= z < 0x8000_0000 && (z - q) % 0x1_0000_0000 == 0
    ensures Result(EncodeR(1, rs2, rs1, 4, rd, 0x3b), r1, r2, pc)
            == if r2 == 0 then 0xffff_ffff_ffff_ffff else if y == 0 then 0 else z % 0x1_0000_0000_0000_0000
  {
    DividedLow(rs2, rs1, rd, r1, r2, pc);
    SignedLowIs(r1, x);
    SignedLowIs(r2, y);
    if y != 0 {
      TruncatingIsUnique(x, y, q, left);
      SignedLowIs(q, z);
      OnlyOverflow(x, y, q, left, z);
    }
  }

  lemma DividedLow(rs2: RegIndex, rs1: RegIndex, rd: RegIndex, r1: Word, r2: Word, pc: Word)
    ensures Result(EncodeR(1, rs2, rs1, 4, rd, 0x3b), r1, r2, pc) == DivW(r1, r2)
  {
    ResultRW(1, rs2, rs1, 4, rd, r1, r2, pc);
  }

  /** The case that execute.v treats apart comes out the same. */
  lemma OnlyOverflow(x: int, y: int, q: int, left: int, z: int)
    requires y != 0 && IsTruncating(x, y, q, left) && -0x8000_0000 <= z < 0x8000_0000 && (z - q) % 0x1_0000_0000 == 0
    ensures x == -0x8000_0000 && y == -1 ==> z == -0x8000_0000
  {
  }

  /** DIVUW, by the low words. */
  lemma UnsignedDivisionOfLow(rs2: RegIndex, rs1: RegIndex, rd: RegIndex, z: int, r1: Word, r2: Word, pc: Word)
    requires r2 % 0x1_0000_0000 != 0 ==>
               -0x8000_0000 <= z < 0x8000_0000 && (z - r1 % 0x1_0000_0000 / (r2 % 0x1_0000_0000)) % 0x1_0000_0000 == 0
    ensures Result(EncodeR(1, rs2, rs1, 5, rd, 0x3b), r1, r2, pc)
            == if r2 == 0 then 0xffff_ffff_ffff_ffff
               else if r2 % 0x1_0000_0000 == 0 then 0 else z % 0x1_0000_0000_0000_0000
  {
    ResultRW(1, rs2, rs1, 5, rd, r1, r2, pc);
    if r2 % TWO32 != 0 { SignedLowIs(r1 % TWO32 / (r2 % TWO32), z); }
  }

  // ----- a register and an immediate

  lemma ResultI(imm: int, rs1: RegIndex, f3: nat, rd: RegIndex, r1: Word, r2: Word, pc: Word)
    requires -2048 <= imm < 2048 && f3 < 8 && f3 != 5
    ensures EncodeI(imm, rs1, f3, rd, 0x13) < TWO32
    ensures Result(EncodeI(imm, rs1, f3, rd, 0x13), r1, r2, pc) == AluAlu(ImmediateAlu(0, f3), r1, Wrap64(imm))
  {
    ImmIRoundTrip(imm, rs1, f3, rd, 0x13);
  }

  /** ADDI. */
  lemma AddImmediate(imm: int, rs1: RegIndex, rd: RegIndex, r1: Word, r2: Word, pc: Word)
    requires -2048 <= imm < 2048
    ensures EncodeI(imm, rs1, 0, rd, 0x13) < TWO32
    ensures Result(EncodeI(imm, rs1, 0, rd, 0x13), r1, r2, pc) == (r1 + imm) % 0x1_0000_0000_0000_0000
  {
    ResultI(imm, rs1, 0, rd, r1, r2, pc);
    AddReduced(imm, r1, TWO64);
  }

  /** SLTI and SLTIU: the immediate is sign-extended before either comparison. */
  lemma SetLessImmediate(imm: int, rs1: RegIndex, rd: RegIndex, x: int, r1: Word, r2: Word, pc: Word)
    requires -2048 <= imm < 2048 && -0x8000_0000_0000_0000 <= x < 0x8000_0000_0000_0000
    ensures EncodeI(imm, rs1, 2, rd, 0x13) < TWO32 && EncodeI(imm, rs1, 3, rd, 0x13) < TWO32
    ensures Result(EncodeI(imm, rs1, 2, rd, 0x13), x % 0x1_0000_0000_0000_0000, r2, pc) == if x < imm then 1 else 0
    ensures Result(EncodeI(imm, rs1, 3, rd, 0x13), r1, r2, pc) == if r1 < imm % 0x1_0000_0000_0000_0000 then 1 else 0
  {
    SignedIs(x);
    SignedIs(imm);
    ResultI(imm, rs1, 2, rd, x % TWO64, r2, pc);
    ResultI(imm, rs1, 3, rd, r1, r2, pc);
  }

  /** ANDI, ORI and XORI, bit by bit. */
  lemma BitwiseImmediate(imm: int, rs1: RegIndex, rd: RegIndex, r1: Word, r2: Word, pc: Word, k: nat)
    requires -2048 <= imm < 2048
    ensures EncodeI(imm, rs1, 7, rd, 0x13) < TWO32 && EncodeI(imm, rs1, 6, rd, 0x13) < TWO32
    ensures EncodeI(imm, rs1, 4, rd, 0x13) < TWO32
    ensures Result(EncodeI(imm, rs1, 7, rd, 0x13), r1, r2, pc) / Pow2(k) % 2 == 1 <==>
            r1 / Pow2(k) % 2 == 1 && imm % 0x1_0000_0000_0000_0000 / Pow2(k) % 2 == 1
    ensures Result(EncodeI(imm, rs1, 6, rd, 0x13), r1, r2, pc) / Pow2(k) % 2 == 1 <==>
            r1 / Pow2(k) % 2 == 1 || imm % 0x1_0000_0000_0000_0000 / Pow2(k) % 2 == 1
    ensures Result(EncodeI(imm, rs1, 4, rd, 0x13), r1, r2, pc) / Pow2(k) % 2 == 1 <==>
            (r1 / Pow2(k) % 2 == 1) != (imm % 0x1_0000_0000_0000_0000 / Pow2(k) % 2 == 1)
  {
    AndOrXorBits(r1, imm % TWO64, k);
    BitwiseImmediates(imm, rs1, rd, r1, r2, pc);
  }

  lemma BitwiseImmediates(imm: int, rs1: RegIndex, rd: RegIndex, r1: Word, r2: Word, pc: Word)
    requires -2048 <= imm < 2048
    ensures EncodeI(imm, rs1, 7, rd, 0x13) < TWO32 && EncodeI(imm, rs1, 6, rd, 0x13) < TWO32
    ensures EncodeI(imm, rs1, 4, rd, 0x13) < TWO32
    ensures Result(EncodeI(imm, rs1, 7, rd, 0x13), r1, r2, pc) == AndWord(r1, imm % TWO64)
    ensures Result(EncodeI(imm, rs1, 6, rd, 0x13), r1, r2, pc) == OrWord(r1, imm % TWO64)
    ensures Result(EncodeI(imm, rs1, 4, rd, 0x13), r1, r2, pc) == XorWord(r1, imm % TWO64)
  {
    ResultI(imm, rs1, 7, rd, r1, r2, pc);
    ResultI(imm, rs1, 6, rd, r1, r2, pc);
    ResultI(imm, rs1, 4, rd, r1, r2, pc);
  }

  lemma SumOfWord(imm: int, rs1: RegIndex, rd: RegIndex, r1: Word, r2: Word, pc: Word)
    requires -2048 <= imm < 2048
    ensures EncodeI(imm, rs1, 0, rd, 0x1b) < TWO32
    ensures Result(EncodeI(imm, rs1, 0, rd, 0x1b), r1, r2, pc) == AluAlu(Addw, r1, Wrap64(imm))
  {
    ImmIRoundTrip(imm, rs1, 0, rd, 0x1b);
  }

  lemma WrappedSum(imm: int, r1: int, sum: int)
    requires (sum - (r1 + imm)) % 0x1_0000_0000 == 0
    ensures (sum - (r1 + Wrap64(imm))) % 0x1_0000_0000 == 0
  {
    var q, k := imm / TWO64, (sum - (r1 + imm)) / TWO32;
    DivModUnique(sum - (r1 + Wrap64(imm)), TWO32, k + q * TWO32, 0);
  }

  lemma AddwIs(imm: int, r1: Word, sum: int)
    requires -0x8000_0000 <= sum < 0x8000_0000 && (sum - (r1 + imm)) % 0x1_0000_0000 == 0
    ensures AluAlu(Addw, r1, Wrap64(imm)) == sum % 0x1_0000_0000_0000_0000
  {
    WrappedSum(imm, r1, sum);
    SignedLowIs(r1 + Wrap64(imm), sum);
  }

  /** ADDIW. */
  lemma AddImmediateWord(imm: int, rs1: RegIndex, rd: RegIndex, sum: int, r1: Word, r2: Word, pc: Word)
    requires -2048 <= imm < 2048 && -0x8000_0000 <= sum < 0x8000_0000 && (sum - (r1 + imm)) % 0x1_0000_0000 == 0
    ensures EncodeI(imm, rs1, 0, rd, 0x1b) < TWO32
    ensures Result(EncodeI(imm, rs1, 0, rd, 0x1b), r1, r2, pc) == sum % 0x1_0000_0000_0000_0000
  {
    SumOfWord(imm, rs1, rd, r1, r2, pc);
    AddwIs(imm, r1, sum);
  }

  /** SLLIW. */
  lemma ShiftLeftWordImmediate(shamt: nat, rs1: RegIndex, rd: RegIndex, z: int, r1: Word, r2: Word, pc: Word)
    requires shamt < 32 && -0x8000_0000 <= z < 0x8000_0000 && (z - r1 * Pow2(shamt)) % 0x1_0000_0000 == 0
    ensures Fields(shamt, rs1, 1, rd, 0x1b) < TWO32
    ensures Result(Fields(shamt, rs1, 1, rd, 0x1b), r1, r2, pc) == z % 0x1_0000_0000_0000_0000
  {
    ShiftFields(false, shamt, rs1, 1, rd, 0x1b);
    SignedLowIs(r1 * Pow2(shamt), z);
  }
}
