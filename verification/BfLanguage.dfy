/** The source language of bf.c, its bytecode, and the meaning of both. */
module BfLanguage {
  import opened Iteration

  const PROGRAM_SIZE := 4096
  const STACK_SIZE := 512
  const DATA_SIZE := 4096

  datatype Op = IncDp | DecDp | IncVal | DecVal | Out | In

  // ----- source: commands, loops, and any other character as a comment

  datatype Item = Act(op: Op) | Loop(body: seq<Item>)

  function CharOf(op: Op): char {
    match op
    case IncDp => '>'
    case DecDp => '<'
    case IncVal => '+'
    case DecVal => '-'
    case Out => '.'
    case In => ','
  }

  predicate IsPlain(c: char) { c == '>' || c == '<' || c == '+' || c == '-' || c == '.' || c == ',' }

  predicate IsCommand(c: char) { IsPlain(c) || c == '[' || c == ']' }

  /** The commands of a source text. */
  function Commands(code: string): (cmds: string)
    ensures |cmds| <= |code| && forall k :: 0 <= k < |cmds| ==> IsCommand(cmds[k])
  {
    if code == [] then []
    else
      Commands(code[..|code| - 1]) + if IsCommand(code[|code| - 1]) then [code[|code| - 1]] else []
  }

  /** The text of a structured program. */
  function Text(items: seq<Item>): string {
    if items == [] then []
    else
      (match items[0]
       case Act(op) => [CharOf(op)]
       case Loop(body) => ['['] + Text(body) + [']'])
      + Text(items[1..])
  }

  /** How deep loops are nested. */
  function Nesting(items: seq<Item>): nat {
    if items == [] then 0
    else
      var first := match items[0] case Act(_) => 0 case Loop(body) => 1 + Nesting(body);
      var rest := Nesting(items[1..]);
      if first > rest then first else rest
  }

  /** The source texts that the compiler is to accept. */
  ghost predicate Acceptable(cmds: string) {
    |cmds| < PROGRAM_SIZE && exists items :: Text(items) == cmds && Nesting(items) <= STACK_SIZE
  }

  // ----- memory, tape pointer and streams, shared by both meanings

  /** The input stream, by position, and whether plain char is signed. */
  datatype Machine = Machine(input: nat -> nat, signedChar: bool)

  datatype Store = Store(ptr: nat, data: seq<nat>, consumed: nat, output: seq<nat>)

  /** unsigned int and unsigned short wrap around. */
  function Wrap32(x: int): nat { x % 0x1_0000_0000 }
  function Wrap16(x: int): nat { x % 0x1_0000 }

  /** A char read from the input, widened to an unsigned short. */
  function Widen(m: Machine, c: nat): nat {
    if m.signedChar && c % 256 >= 128 then 0xff00 + c % 256 else c % 256
  }

  predicate OnTape(st: Store) { st.ptr < DATA_SIZE && st.ptr < |st.data| }

  function Apply(m: Machine, op: Op, st: Store): Store
    requires OnTape(st)
  {
    match op
    case IncDp => st.(ptr := Wrap32(st.ptr + 1))
    case DecDp => st.(ptr := Wrap32(-1 + st.ptr))
    case IncVal => st.(data := st.data[st.ptr := Wrap16(st.data[st.ptr] + 1)])
    case DecVal => st.(data := st.data[st.ptr := Wrap16(st.data[st.ptr] as int - 1)])
    case Out => st.(output := st.output + [st.data[st.ptr] % 256])
    case In => st.(data := st.data[st.ptr := Widen(m, m.input(st.consumed))], consumed := st.consumed + 1)
  }

  // ----- the structured meaning

  /** What remains to be done, and the store. */
  datatype Run = Run(todo: seq<Item>, st: Store)

  predicate Halted(r: Run) { r.todo == [] || !OnTape(r.st) }

  /** A loop is left when the cell is zero, else its body is run before the loop again. */
  function StructuredStep(m: Machine, r: Run): Run {
    if Halted(r) then r
    else
      match r.todo[0]
      case Act(op) => Run(r.todo[1..], Apply(m, op, r.st))
      case Loop(body) =>
        if r.st.data[r.st.ptr] == 0 then Run(r.todo[1..], r.st)
        else Run(body + r.todo, r.st)
  }

  // ----- the bytecode and its meaning

  datatype Operator = End | Plain(op: Op) | JmpFwd | JmpBck

  datatype Instruction = Instruction(operator: Operator, operand: nat)

  datatype Vm = Vm(pc: nat, st: Store)

  predicate VmHalted(prog: seq<Instruction>, v: Vm) {
    v.pc >= |prog| || prog[v.pc].operator == End || !OnTape(v.st)
  }

  /** One round of the loop of execute_bf. */
  function VmStep(m: Machine, prog: seq<Instruction>, v: Vm): Vm {
    if VmHalted(prog, v) then v
    else
      var i := prog[v.pc];
      match i.operator
      case Plain(op) => Vm(v.pc + 1, Apply(m, op, v.st))
      case JmpFwd => Vm(1 + if v.st.data[v.st.ptr] == 0 then i.operand else v.pc, v.st)
      case JmpBck => Vm(1 + if v.st.data[v.st.ptr] != 0 then i.operand else v.pc, v.st)
      case End => v
  }

  // ----- bytecode of a structured program

  /** The instructions from a up to b are those of items, with resolved jumps. */
  ghost predicate Codes(prog: seq<Instruction>, a: nat, items: seq<Item>, b: nat)
    decreases items
  {
    if items == [] then a == b
    else
      a < b <= |prog| &&
      match items[0]
      case Act(op) => prog[a].operator == Plain(op) && Codes(prog, a + 1, items[1..], b)
      case Loop(body) =>
        var e := prog[a].operand;
        && IsLoop(prog, a, e) && e < b
        && Codes(prog, a + 1, body, e) && Codes(prog, e + 1, items[1..], b)
  }

  ghost predicate IsLoop(prog: seq<Instruction>, s: nat, e: nat) {
    && s < e < |prog| && prog[s].operator == JmpFwd && prog[s].operand == e
    && prog[e].operator == JmpBck && prog[e].operand == s
  }

  /** The program from pc on does what is left to do; inside a loop pc is at one of its brackets. */
  ghost predicate DoesTodo(prog: seq<Instruction>, pc: nat, todo: seq<Item>)
    decreases |todo|
  {
    pc < |prog| &&
    if todo == [] then prog[pc].operator == End
    else
      match todo[0]
      case Act(op) => prog[pc].operator == Plain(op) && DoesTodo(prog, pc + 1, todo[1..])
      case Loop(body) =>
        var s := if prog[pc].operator == JmpBck then prog[pc].operand else pc;
        var e := if prog[pc].operator == JmpBck then pc else prog[pc].operand;
        IsLoop(prog, s, e) && Codes(prog, s + 1, body, e) && DoesTodo(prog, e + 1, todo[1..])
  }

  lemma {:induction false} CodesBefore(prog: seq<Instruction>, a: nat, items: seq<Item>, b: nat, todo: seq<Item>)
    requires Codes(prog, a, items, b) && DoesTodo(prog, b, todo)
    ensures DoesTodo(prog, a, items + todo)
    decreases |items|
  {
    if items == [] {
      assert items + todo == todo;
    } else {
      assert (items + todo)[1..] == items[1..] + todo;
      CodesBefore(prog, if items[0].Act? then a + 1 else prog[a].operand + 1, items[1..], b, todo);
    }
  }

  /** Where the program does what is left, one step of either keeps that, and the stores stay equal. */
  lemma StepsTogether(m: Machine, prog: seq<Instruction>, v: Vm, r: Run)
    requires DoesTodo(prog, v.pc, r.todo) && v.st == r.st
    ensures VmHalted(prog, v) <==> Halted(r)
    ensures var v', r' := VmStep(m, prog, v), StructuredStep(m, r);
            DoesTodo(prog, v'.pc, r'.todo) && v'.st == r'.st
  {
    if !Halted(r) && r.todo[0].Loop? && r.st.data[r.st.ptr] != 0 {
      var s := if prog[v.pc].operator == JmpBck then prog[v.pc].operand else v.pc;
      var e := if prog[v.pc].operator == JmpBck then v.pc else prog[v.pc].operand;
      assert DoesTodo(prog, e, r.todo);
      CodesBefore(prog, s + 1, r.todo[0].body, e, r.todo);
    }
  }

  /** A compiled program: the code of items, then END. */
  ghost predicate Compiled(prog: seq<Instruction>, items: seq<Item>) {
    exists n: nat :: n < |prog| && Codes(prog, 0, items, n) && prog[n].operator == End
  }

  /** The bytecode machine after n steps from the start of its program. */
  ghost function VmAfter(m: Machine, prog: seq<Instruction>, st: Store, n: nat): Vm {
    Iterate(v => VmStep(m, prog, v), Vm(0, st), n)
  }

  /** The structured program after n steps. */
  ghost function RunAfter(m: Machine, items: seq<Item>, st: Store, n: nat): Run {
    Iterate(r => StructuredStep(m, r), Run(items, st), n)
  }

  /** Step for step, for any number of steps, bytecode and source have the same store and halt together. */
  lemma {:induction false} SameRun(m: Machine, prog: seq<Instruction>, items: seq<Item>, st: Store, n: nat)
    requires Compiled(prog, items)
    ensures var v, r := VmAfter(m, prog, st, n), RunAfter(m, items, st, n);
            v.st == r.st && (VmHalted(prog, v) <==> Halted(r)) && DoesTodo(prog, v.pc, r.todo)
  {
    if n == 0 {
      var e: nat :| e < |prog| && Codes(prog, 0, items, e) && prog[e].operator == End;
      CodesBefore(prog, 0, items, e, []);
      assert items + [] == items;
      StepsTogether(m, prog, Vm(0, st), Run(items, st));
    } else {
      SameRun(m, prog, items, st, n - 1);
      var v, r := VmAfter(m, prog, st, n - 1), RunAfter(m, items, st, n - 1);
      StepsTogether(m, prog, v, r);
      StepsTogether(m, prog, VmStep(m, prog, v), StructuredStep(m, r));
    }
  }

  /** The program counter never leaves compiled code. */
  lemma PcStays(m: Machine, prog: seq<Instruction>, items: seq<Item>, st: Store, n: nat)
    requires Compiled(prog, items)
    ensures VmAfter(m, prog, st, n).pc < |prog|
    ensures VmAfter(m, prog, st, n + 1) == VmStep(m, prog, VmAfter(m, prog, st, n))
  {
    SameRun(m, prog, items, st, n);
  }
}
