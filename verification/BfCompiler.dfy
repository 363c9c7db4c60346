/** The one-pass compiler and the interpreter of bf.c, on the arrays they update. */
module BfCompiler {
  import opened BfLanguage

  // ----- texts and bracket depth

  lemma {:induction false} TextAppend(a: seq<Item>, b: seq<Item>)
    ensures Text(a + b) == Text(a) + Text(b)
    decreases |a|
  {
    if a == [] {
      assert a + b == b;
    } else {
      assert (a + b)[1..] == a[1..] + b;
      TextAppend(a[1..], b);
    }
  }

  lemma {:induction false} NestingAppend(a: seq<Item>, b: seq<Item>)
    ensures Nesting(a + b) == if Nesting(a) > Nesting(b) then Nesting(a) else Nesting(b)
    decreases |a|
  {
    if a == [] {
      assert a + b == b;
    } else {
      assert (a + b)[1..] == a[1..] + b;
      NestingAppend(a[1..], b);
    }
  }

  ghost function Depth(s: string): int {
    if s == [] then 0
    else
      var c := s[|s| - 1];
      Depth(s[..|s| - 1]) + if c == '[' then 1 else if c == ']' then -1 else 0
  }

  lemma {:induction false} DepthAppend(a: string, b: string)
    ensures Depth(a + b) == Depth(a) + Depth(b)
    decreases |b|
  {
    if b == [] {
      assert a + b == a;
    } else {
      assert (a + b)[..|a + b| - 1] == a + b[..|b| - 1];
      DepthAppend(a, b[..|b| - 1]);
    }
  }

  lemma DepthSplit(a: string, b: string, k: nat)
    requires k <= |a| + |b|
    ensures Depth((a + b)[..k]) == if k <= |a| then Depth(a[..k]) else Depth(a) + Depth(b[..k - |a|])
  {
    if k <= |a| {
      assert (a + b)[..k] == a[..k];
    } else {
      assert (a + b)[..k] == a + b[..k - |a|];
      DepthAppend(a, b[..k - |a|]);
    }
  }

  /** In the text of a structured program brackets balance, and depth stays between 0 and the nesting. */
  lemma {:induction false} DepthOfText(items: seq<Item>, k: nat)
    requires k <= |Text(items)|
    ensures 0 <= Depth(Text(items)[..k]) <= Nesting(items)
    ensures Depth(Text(items)) == 0
    decreases items
  {
    if items != [] {
      var head, tail := Text([items[0]]), Text(items[1..]);
      assert [items[0]] + items[1..] == items;
      TextAppend([items[0]], items[1..]);
      NestingAppend([items[0]], items[1..]);
      DepthSplit(head, tail, k);
      DepthAppend(head, tail);
      HeadDepth(items[0], if k <= |head| then k else |head|);
      DepthOfText(items[1..], if k <= |head| then 0 else k - |head|);
    }
  }

  lemma {:induction false} HeadDepth(item: Item, k: nat)
    requires k <= |Text([item])|
    ensures 0 <= Depth(Text([item])[..k]) <= Nesting([item])
    ensures Depth(Text([item])) == 0
    decreases item
  {
    var text := Text([item]);
    match item
    case Act(op) =>
      assert text == [CharOf(op)] && text[..0] == [];
      assert text[..k] == if k == 0 then [] else text;
    case Loop(body) =>
      var open := ['['] + Text(body);
      assert text == open + [']'] + Text([]) == open + [']'];
      DepthAppend(['['], Text(body));
      DepthAppend(open, [']']);
      DepthSplit(open, [']'], k);
      DepthSplit(['['], Text(body), if k <= |open| then k else |open|);
      DepthOfText(body, if 1 < k <= |open| then k - 1 else 0);
      assert [']'][..1] == [']'];
  }

  lemma SplitSame(x: string, restX: string, y: string, restY: string)
    requires x + restX == y + restY && |x| == |y|
    ensures x == y && restX == restY
  {
    assert (x + restX)[..|x|] == x && (y + restY)[..|x|] == y;
    assert (x + restX)[|x|..] == restX && (y + restY)[|x|..] == restY;
  }

  lemma BodyNoLonger(a: seq<Item>, restA: string, b: seq<Item>, restB: string)
    requires Text(a) + ([']'] + restA) == Text(b) + ([']'] + restB)
    ensures |Text(b)| <= |Text(a)|
  {
    var x, y := Text(a), Text(b);
    if |x| < |y| {
      assert x + ([']'] + restA) == (x + [']']) + restA;
      assert y + ([']'] + restB) == y[..|x| + 1] + (y[|x| + 1..] + [']'] + restB);
      SplitSame(x + [']'], restA, y[..|x| + 1], y[|x| + 1..] + [']'] + restB);
      DepthAppend(x, [']']);
      DepthOfText(a, 0);
      DepthOfText(b, |x| + 1);
      assert false;
    }
  }

  lemma LoopText(x: string, rest: string)
    ensures ['['] + x + [']'] + rest == ['['] + (x + ([']'] + rest))
  {
  }

  lemma SameLoop(a: seq<Item>, restA: string, b: seq<Item>, restB: string)
    requires ['['] + Text(a) + [']'] + restA == ['['] + Text(b) + [']'] + restB
    ensures Text(a) == Text(b) && restA == restB
  {
    var x, y, ra, rb := Text(a), Text(b), [']'] + restA, [']'] + restB;
    LoopText(x, restA);
    LoopText(y, restB);
    SplitSame(['['], x + ra, ['['], y + rb);
    BodyNoLonger(a, restA, b, restB);
    BodyNoLonger(b, restB, a, restA);
    SplitSame(x, ra, y, rb);
    SplitSame([']'], restA, [']'], restB);
  }

  /** A text has one structure only: equal texts are texts of equal programs. */
  lemma {:induction false} TextDeterminesItems(a: seq<Item>, b: seq<Item>)
    requires Text(a) == Text(b)
    ensures a == b
    decreases a
  {
    if a != [] && b != [] {
      var text := Text(a);
      assert text[0] == Text(b)[0];
      if a[0].Act? {
        assert text[1..] == Text(a[1..]) && text[1..] == Text(b[1..]);
      } else {
        SameLoop(a[0].body, Text(a[1..]), b[0].body, Text(b[1..]));
        TextDeterminesItems(a[0].body, b[0].body);
      }
      TextDeterminesItems(a[1..], b[1..]);
    }
  }

  /** What every prefix of an acceptable text satisfies. */
  lemma AcceptableDepth(cmds: string, k: nat)
    requires Acceptable(cmds) && k <= |cmds|
    ensures 0 <= Depth(cmds[..k]) <= STACK_SIZE && Depth(cmds) == 0
  {
    var items :| Text(items) == cmds && Nesting(items) <= STACK_SIZE;
    DepthOfText(items, k);
  }

  /** The commands among the first k characters. */
  ghost function Read(code: string, k: nat): string
    requires k <= |code|
  {
    Commands(code[..k])
  }

  lemma ReadNext(code: string, k: nat)
    requires k < |code|
    ensures Read(code, k + 1) == Read(code, k) + if IsCommand(code[k]) then [code[k]] else []
  {
    assert code[..k + 1][..k] == code[..k];
  }

  lemma {:induction false} ReadPrefix(code: string, k: nat)
    requires k <= |code|
    ensures |Read(code, k)| <= |Commands(code)| && Commands(code)[..|Read(code, k)|] == Read(code, k)
    ensures k == |code| ==> Read(code, k) == Commands(code)
    decreases |code|
  {
    if k == |code| {
      assert code[..k] == code;
    } else {
      assert code[..|code| - 1][..k] == code[..k];
      ReadPrefix(code[..|code| - 1], k);
    }
  }

  /** A prefix at a depth that is not allowed rules the whole text out. */
  lemma TooDeep(code: string, k: nat)
    requires k <= |code| && !(0 <= Depth(Read(code, k)) <= STACK_SIZE)
    ensures !Acceptable(Commands(code))
  {
    ReadPrefix(code, k);
    var cmds, n := Commands(code), |Read(code, k)|;
    assert !(0 <= Depth(cmds[..n]) <= STACK_SIZE);
    if Acceptable(cmds) {
      AcceptableDepth(cmds, n);
      assert false;
    }
  }

  // ----- the open loops during compilation

  /** The commands read so far: every frame but the last is followed by an open bracket. */
  ghost function FramesText(frames: seq<seq<Item>>): string {
    if |frames| == 0 then []
    else if |frames| == 1 then Text(frames[0])
    else FramesText(frames[..|frames| - 1]) + ['['] + Text(frames[|frames| - 1])
  }

  ghost function MaxNesting(frames: seq<seq<Item>>): nat {
    if |frames| == 0 then 0
    else
      var rest, last := MaxNesting(frames[..|frames| - 1]), |frames| - 1 + Nesting(frames[|frames| - 1]);
      if rest > last then rest else last
  }

  ghost function WithItem(frames: seq<seq<Item>>, item: Item): seq<seq<Item>>
    requires frames != []
  {
    frames[..|frames| - 1] + [frames[|frames| - 1] + [item]]
  }

  /** An item at the end of the innermost frame adds its text and its nesting. */
  lemma ItemAdded(frames: seq<seq<Item>>, item: Item)
    requires frames != []
    ensures FramesText(WithItem(frames, item)) == FramesText(frames) + Text([item])
  {
    var n := |frames| - 1;
    TextAppend(frames[n], [item]);
    assert WithItem(frames, item)[..n] == frames[..n];
    if n > 0 {
      var rest := FramesText(frames[..n]) + ['['];
      assert rest + (Text(frames[n]) + Text([item])) == rest + Text(frames[n]) + Text([item]);
    }
  }

  lemma NestingAdded(frames: seq<seq<Item>>, item: Item)
    requires frames != []
    ensures MaxNesting(WithItem(frames, item)) <=
            if MaxNesting(frames) > |frames| - 1 + Nesting([item]) then MaxNesting(frames)
            else |frames| - 1 + Nesting([item])
  {
    NestingAppend(frames[|frames| - 1], [item]);
    assert WithItem(frames, item)[..|frames| - 1] == frames[..|frames| - 1];
  }

  lemma FrameOpened(frames: seq<seq<Item>>)
    requires frames != []
    ensures FramesText(frames + [[]]) == FramesText(frames) + ['[']
    ensures MaxNesting(frames + [[]]) <= if MaxNesting(frames) > |frames| then MaxNesting(frames) else |frames|
  {
  }

  /** The innermost frame becomes a loop at the end of the frame around it. */
  lemma FrameClosed(frames: seq<seq<Item>>)
    requires |frames| > 1
    ensures var outer, loop := frames[..|frames| - 1], Loop(frames[|frames| - 1]);
            && FramesText(WithItem(outer, loop)) == FramesText(frames) + [']']
            && MaxNesting(WithItem(outer, loop)) <= MaxNesting(frames)
  {
    var outer, body := frames[..|frames| - 1], frames[|frames| - 1];
    ItemAdded(outer, Loop(body));
    NestingAdded(outer, Loop(body));
    assert Text([Loop(body)]) == ['['] + Text(body) + [']'] + Text([]);
    var all := FramesText(outer);
    assert all + (['['] + Text(body) + [']']) == all + ['['] + Text(body) + [']'];
  }

  // ----- code that is already placed

  lemma {:induction false} CodesSame(p: seq<Instruction>, q: seq<Instruction>, a: nat, items: seq<Item>, b: nat)
    requires Codes(p, a, items, b) && |p| == |q|
    requires forall i :: a <= i < b && i < |p| ==> p[i] == q[i]
    ensures Codes(q, a, items, b)
    decreases items
  {
    if items != [] {
      match items[0]
      case Act(_) =>
        CodesSame(p, q, a + 1, items[1..], b);
      case Loop(body) =>
        var e := p[a].operand;
        CodesSame(p, q, a + 1, body, e);
        CodesSame(p, q, e + 1, items[1..], b);
    }
  }

  lemma {:induction false} CodesAppend(prog: seq<Instruction>, a: nat, items: seq<Item>, m: nat, item: Item, b: nat)
    requires Codes(prog, a, items, m) && Codes(prog, m, [item], b)
    ensures Codes(prog, a, items + [item], b)
    decreases |items|
  {
    if items == [] {
      assert items + [item] == [item];
    } else {
      assert (items + [item])[1..] == items[1..] + [item];
      var n := if items[0].Act? then a + 1 else prog[a].operand + 1;
      CodesAppend(prog, n, items[1..], m, item, b);
      CodesGrow(prog, n, items[1..], m);
      CodesGrow(prog, m, [item], b);
    }
  }

  lemma {:induction false} CodesGrow(prog: seq<Instruction>, a: nat, items: seq<Item>, b: nat)
    requires Codes(prog, a, items, b)
    ensures a <= b
    ensures items != [] ==> a < b
  {
  }

  function Start(stack: seq<nat>): nat { if stack == [] then 0 else stack[|stack| - 1] + 1 }

  /** The stack holds the positions of the open brackets, and between them lies the code of the frames. */
  ghost predicate Encodes(prog: seq<Instruction>, stack: seq<nat>, frames: seq<seq<Item>>, pc: nat)
    decreases |stack|
  {
    && |frames| == |stack| + 1 && pc <= |prog|
    && Codes(prog, Start(stack), frames[|stack|], pc)
    && (stack != [] ==>
          var s := stack[|stack| - 1];
          s < pc && prog[s].operator == JmpFwd && Encodes(prog, stack[..|stack| - 1], frames[..|stack|], s))
  }

  lemma {:induction false} EncodesSame(p: seq<Instruction>, q: seq<Instruction>, stack: seq<nat>,
                                       frames: seq<seq<Item>>, pc: nat)
    requires Encodes(p, stack, frames, pc) && |p| == |q|
    requires forall i :: 0 <= i < pc ==> p[i] == q[i]
    ensures Encodes(q, stack, frames, pc)
    decreases |stack|
  {
    CodesSame(p, q, Start(stack), frames[|stack|], pc);
    if stack != [] {
      EncodesSame(p, q, stack[..|stack| - 1], frames[..|stack|], stack[|stack| - 1]);
    }
  }

  lemma PlaceItem(prog: seq<Instruction>, stack: seq<nat>, frames: seq<seq<Item>>, pc: nat, item: Item, next: nat)
    requires Encodes(prog, stack, frames, pc) && pc <= next <= |prog| && Codes(prog, pc, [item], next)
    ensures Encodes(prog, stack, WithItem(frames, item), next)
  {
    CodesAppend(prog, Start(stack), frames[|stack|], pc, item, next);
    assert WithItem(frames, item)[..|stack|] == frames[..|stack|];
  }

  lemma PlaceOpen(prog: seq<Instruction>, stack: seq<nat>, frames: seq<seq<Item>>, pc: nat)
    requires Encodes(prog, stack, frames, pc) && pc < |prog| && prog[pc].operator == JmpFwd
    ensures Encodes(prog, stack + [pc], frames + [[]], pc + 1)
  {
  }

  /** Both brackets get each other's position: the innermost frame is now a loop of the frame around it. */
  lemma PlaceClose(prog: seq<Instruction>, stack: seq<nat>, frames: seq<seq<Item>>, pc: nat)
    requires Encodes(prog, stack, frames, pc) && pc < |prog| && stack != []
    ensures var s := stack[|stack| - 1];
            var placed := prog[pc := Instruction(JmpBck, s)];
            Encodes(placed[s := Instruction(JmpFwd, pc)], stack[..|stack| - 1],
                    WithItem(frames[..|stack|], Loop(frames[|stack|])), pc + 1)
  {
    var s := stack[|stack| - 1];
    var q := prog[pc := Instruction(JmpBck, s)][s := Instruction(JmpFwd, pc)];
    CodesSame(prog, q, s + 1, frames[|stack|], pc);
    EncodesSame(prog, q, stack[..|stack| - 1], frames[..|stack|], s);
    assert IsLoop(q, s, pc);
    assert Codes(q, s, [Loop(frames[|stack|])], pc + 1) by {
      assert [Loop(frames[|stack|])][1..] == [];
    }
    PlaceItem(q, stack[..|stack| - 1], frames[..|stack|], s, Loop(frames[|stack|]), pc + 1);
  }

  /** The unsigned short pc comes back from the step below zero that a comment at pc 0 makes. */
  lemma PcWraps(pc: nat)
    requires pc < PROGRAM_SIZE
    ensures Wrap16(pc + 1) == pc + 1 && Wrap16(Wrap16(pc - 1) + 1) == pc
  {
  }

  function PlainOp(c: char): Op
    requires IsPlain(c)
    ensures CharOf(PlainOp(c)) == c
  {
    match c
    case '>' => IncDp
    case '<' => DecDp
    case '+' => IncVal
    case '-' => DecVal
    case '.' => Out
    case _ => In
  }

  // ----- the compiler and the interpreter

  class Interpreter {
    const program: array<Instruction>
    const stack: array<nat>
    var sp: nat
    const data: array<nat>
    var consumed: nat
    var output: seq<nat>

    ghost predicate Valid()
      reads this
    {
      program.Length == PROGRAM_SIZE && stack.Length == STACK_SIZE && data.Length == DATA_SIZE && stack != data
    }

    /** The commands cmds are compiled up to pc, with frames still open. */
    ghost predicate Compiling(pc: nat, cmds: string, frames: seq<seq<Item>>)
      reads this, program, stack
    {
      && Valid() && sp <= STACK_SIZE && pc <= PROGRAM_SIZE
      && Encodes(program[..], stack[..sp], frames, pc)
      && FramesText(frames) == cmds && MaxNesting(frames) <= STACK_SIZE
      && |cmds| == pc && Depth(cmds) == sp
    }

    method Emit(op: Op, pc: nat, ghost cmds: string, ghost frames: seq<seq<Item>>)
      returns (ghost after: seq<seq<Item>>)
      requires Compiling(pc, cmds, frames) && pc < PROGRAM_SIZE
      modifies program
      ensures Compiling(pc + 1, cmds + [CharOf(op)], after)
    {
      ghost var was := program[..];
      program[pc] := program[pc].(operator := Plain(op));
      after := WithItem(frames, Act(op));
      EncodesSame(was, program[..], stack[..sp], frames, pc);
      PlaceItem(program[..], stack[..sp], frames, pc, Act(op), pc + 1);
      ItemAdded(frames, Act(op));
      NestingAdded(frames, Act(op));
      DepthAppend(cmds, [CharOf(op)]);
    }

    method OpenLoop(pc: nat, ghost cmds: string, ghost frames: seq<seq<Item>>)
      returns (ok: bool, ghost after: seq<seq<Item>>)
      requires Compiling(pc, cmds, frames) && pc < PROGRAM_SIZE
      modifies this`sp, program, stack
      ensures ok ==> Compiling(pc + 1, cmds + ['['], after)
      ensures !ok ==> Depth(cmds + ['[']) > STACK_SIZE
    {
      ghost var was, open := program[..], stack[..sp];
      DepthAppend(cmds, ['[']);
      program[pc] := program[pc].(operator := JmpFwd);
      if sp == STACK_SIZE {
        return false, frames;
      }
      stack[sp] := pc;
      sp := sp + 1;
      ok, after := true, frames + [[]];
      assert stack[..sp] == open + [pc];
      EncodesSame(was, program[..], open, frames, pc);
      PlaceOpen(program[..], open, frames, pc);
      FrameOpened(frames);
    }

    method CloseLoop(pc: nat, ghost cmds: string, ghost frames: seq<seq<Item>>)
      returns (ok: bool, ghost after: seq<seq<Item>>)
      requires Compiling(pc, cmds, frames) && pc < PROGRAM_SIZE
      modifies this`sp, program
      ensures ok ==> Compiling(pc + 1, cmds + [']'], after)
      ensures !ok ==> Depth(cmds + [']']) < 0
    {
      ghost var was, open := program[..], stack[..sp];
      DepthAppend(cmds, [']']);
      if sp == 0 {
        return false, frames;
      }
      sp := sp - 1;
      var jmp := stack[sp];
      assert jmp == open[|open| - 1];
      program[pc] := Instruction(JmpBck, jmp);
      program[jmp] := program[jmp].(operand := pc);
      ok, after := true, WithItem(frames[..sp + 1], Loop(frames[sp + 1]));
      assert program[..] == was[pc := Instruction(JmpBck, jmp)][jmp := Instruction(JmpFwd, pc)];
      assert stack[..sp] == open[..|open| - 1];
      PlaceClose(was, open, frames, pc);
      FrameClosed(frames);
    }

    /** One round of the compiler's switch; it fails only where a bracket leaves the depths allowed. */
    method CompileChar(c: char, pc: nat, ghost cmds: string, ghost frames: seq<seq<Item>>)
      returns (ok: bool, next: nat, ghost after: seq<seq<Item>>)
      requires Compiling(pc, cmds, frames) && pc < PROGRAM_SIZE
      modifies this`sp, program, stack
      ensures ok ==> Compiling(next, cmds + (if IsCommand(c) then [c] else []), after)
      ensures !ok ==> IsCommand(c) && !(0 <= Depth(cmds + [c]) <= STACK_SIZE)
    {
      ok, next, after := true, pc, frames;
      PcWraps(pc);
      if c == '[' {
        ok, after := OpenLoop(pc, cmds, frames);
      } else if c == ']' {
        ok, after := CloseLoop(pc, cmds, frames);
      } else if IsPlain(c) {
        after := Emit(PlainOp(c), pc, cmds, frames);
      } else {
        next := Wrap16(pc - 1);
        assert cmds + [] == cmds;
      }
      next := Wrap16(next + 1);
    }

    /** The loop over the code: it leaves early on failure, and where the program array is full. */
    method CompileAll(code: string) returns (ok: bool, pc: nat, ghost frames: seq<seq<Item>>)
      requires Valid() && sp == 0
      modifies this`sp, program, stack
      ensures !ok ==> !Acceptable(Commands(code))
      ensures ok && pc < PROGRAM_SIZE ==> Compiling(pc, Commands(code), frames)
      ensures ok && pc >= PROGRAM_SIZE ==> pc == PROGRAM_SIZE <= |Commands(code)|
    {
      var k: nat := 0;
      ok, pc, frames := true, 0, [[]];
      while k < |code| && pc < PROGRAM_SIZE
        invariant k <= |code|
        invariant Compiling(pc, Read(code, k), frames)
      {
        ReadNext(code, k);
        ok, pc, frames := CompileChar(code[k], pc, Read(code, k), frames);
        if !ok {
          TooDeep(code, k + 1);
          return;
        }
        k := k + 1;
      }
      ReadPrefix(code, k);
    }

    /** Succeeds exactly on the acceptable texts, and leaves the code of the source's own structure. */
    method Compile(code: string) returns (success: bool)
      requires Valid() && sp == 0
      modifies this`sp, program, stack
      ensures success <==> Acceptable(Commands(code))
      ensures success ==> sp == 0 && exists items :: Text(items) == Commands(code) && Compiled(program[..], items)
    {
      var ok, pc, frames := CompileAll(code);
      if !ok {
        return false;
      }
      if sp != 0 || pc == PROGRAM_SIZE {
        if Acceptable(Commands(code)) {
          AcceptableDepth(Commands(code), 0);
          assert false;
        }
        return false;
      }
      ghost var was := program[..];
      program[pc] := program[pc].(operator := End);
      CodesSame(was, program[..], 0, frames[0], pc);
      assert Text(frames[0]) == Commands(code) && Nesting(frames[0]) <= STACK_SIZE;
      success := true;
    }

    /** The memory the running program sees, with its tape pointer. */
    function Snapshot(ptr: nat): Store
      reads this, data
    {
      Store(ptr, data[..], consumed, output)
    }

    /** One round of the interpreter's loop, on the arrays. */
    method ExecuteStep(m: Machine, pc: nat, ptr: nat) returns (nextPc: nat, nextPtr: nat)
      requires Valid() && !VmHalted(program[..], Vm(pc, Snapshot(ptr)))
      modifies data, this`consumed, this`output
      ensures Vm(nextPc, Snapshot(nextPtr)) == VmStep(m, program[..], Vm(pc, old(Snapshot(ptr))))
    {
      nextPc, nextPtr := pc, ptr;
      var i := program[pc];
      match i.operator {
        case Plain(op) =>
          match op {
            case IncDp => nextPtr := Wrap32(ptr + 1);
            case DecDp => nextPtr := Wrap32(-1 + ptr);
            case IncVal => data[ptr] := Wrap16(data[ptr] + 1);
            case DecVal => data[ptr] := Wrap16(data[ptr] as int - 1);
            case Out => output := output + [data[ptr] % 256];
            case In =>
              data[ptr] := Widen(m, m.input(consumed));
              consumed := consumed + 1;
          }
        case JmpFwd =>
          if data[ptr] == 0 {
            nextPc := i.operand;
          }
        case JmpBck =>
          if data[ptr] != 0 {
            nextPc := i.operand;
          }
      }
      nextPc := nextPc + 1;
    }

    /** Runs compiled code for at most budget rounds: after each, memory is as the source's own steps leave it. */
    method Execute(m: Machine, budget: nat, ghost items: seq<Item>) returns (steps: nat, halted: bool, ptr: nat)
      requires Valid() && Compiled(program[..], items)
      modifies data, this`consumed, this`output
      ensures steps <= budget && (steps < budget ==> halted)
      ensures var r := RunAfter(m, items, old(Snapshot(0)), steps);
              (halted <==> Halted(r)) && Snapshot(ptr) == r.st
    {
      ghost var prog, st := program[..], Snapshot(0);
      var pc: nat := 0;
      ptr, steps := 0, 0;
      PcStays(m, prog, items, st, 0);
      while steps < budget && program[pc].operator != End && ptr < DATA_SIZE
        invariant steps <= budget && pc < PROGRAM_SIZE
        invariant Vm(pc, Snapshot(ptr)) == VmAfter(m, prog, st, steps)
      {
        pc, ptr := ExecuteStep(m, pc, ptr);
        PcStays(m, prog, items, st, steps);
        steps := steps + 1;
        PcStays(m, prog, items, st, steps);
      }
      SameRun(m, prog, items, st, steps);
      halted := program[pc].operator == End || ptr >= DATA_SIZE;
    }

    /** compile_bf and, where it succeeds, execute_bf: memory is as the text's own steps leave it. */
    method Interpret(m: Machine, code: string, budget: nat)
      returns (success: bool, steps: nat, halted: bool, ptr: nat, ghost items: seq<Item>)
      requires Valid() && sp == 0
      modifies this`sp, program, stack, data, this`consumed, this`output
      ensures success <==> Acceptable(Commands(code))
      ensures success ==> Text(items) == Commands(code) && steps <= budget && (steps < budget ==> halted)
      ensures success ==>
                var r := RunAfter(m, items, old(Snapshot(0)), steps);
                (halted <==> Halted(r)) && Snapshot(ptr) == r.st
      ensures !success ==> Snapshot(0) == old(Snapshot(0))
    {
      success := Compile(code);
      steps, halted, ptr, items := 0, true, 0, [];
      if success {
        items :| Text(items) == Commands(code) && Compiled(program[..], items);
        steps, halted, ptr := Execute(m, budget, items);
      }
    }
  }
}
