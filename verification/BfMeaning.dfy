/** What a program text does when it is run, command by command and in numbers. */
module BfMeaning {
  import opened Arithmetic
  import opened BfCompiler
  import opened BfLanguage
  import opened Iteration

  // ----- texts

  /** Eight characters are commands, and every other one is a comment. */
  lemma CommandsAre(code: string, c: char)
    ensures Commands(code + [c]) == Commands(code) + if c in "><+-.,[]" then [c] else []
  {
    assert (code + [c])[..|code|] == code;
  }

  /** What is accepted: fewer than 4096 commands, the text of a program with loops nested at most 512 deep. */
  lemma AcceptableBy(cmds: string, items: seq<Item>)
    requires |cmds| < 4096 && Text(items) == cmds && Nesting(items) <= 512
    ensures Acceptable(cmds)
  {
  }

  /** Nothing else is; and then brackets balance, with depths from 0 to 512. */
  lemma AcceptableIs(cmds: string) returns (items: seq<Item>)
    requires Acceptable(cmds)
    ensures |cmds| < 4096 && Text(items) == cmds && Nesting(items) <= 512 && Depth(cmds) == 0
    ensures forall k :: 0 <= k <= |cmds| ==> 0 <= Depth(cmds[..k]) <= 512
  {
    items :| Text(items) == cmds && Nesting(items) <= STACK_SIZE;
    forall k | 0 <= k <= |cmds| ensures 0 <= Depth(cmds[..k]) <= 512 { AcceptableDepth(cmds, k); }
    AcceptableDepth(cmds, 0);
  }

  // ----- one command

  /** What the six plain commands do, in a run at the text that is left to do: all that is not said stays. */
  lemma PlainMeans(m: Machine, r: Run)
    requires OnTape(r.st) && r.todo != [] && r.todo[0].Act?
    ensures var text, st, after := Text(r.todo), r.st, StructuredStep(m, r);
            var cell, input := st.data[st.ptr], m.input(st.consumed) % 256;
            && text != [] && Text(after.todo) == text[1..] && text[0] in "><+-.,"
            && (text[0] == '+' ==> after.st == st.(data := st.data[st.ptr := (cell + 1) % 65536]))
            && (text[0] == '-' ==> after.st == st.(data := st.data[st.ptr := (cell + 65535) % 65536]))
            && (text[0] == '>' ==> after.st == st.(ptr := st.ptr + 1))
            && (text[0] == '<' ==> after.st == st.(ptr := if st.ptr == 0 then 0xffff_ffff else st.ptr - 1))
            && (text[0] == '.' ==> after.st == st.(output := st.output + [cell % 256]))
            && (text[0] == ',' ==>
                  var widened := if m.signedChar && input >= 128 then 65280 + input else input;
                  after.st == st.(data := st.data[st.ptr := widened], consumed := st.consumed + 1))
  {
    assert Text(r.todo) == [CharOf(r.todo[0].op)] + Text(r.todo[1..]);
  }

  /** A loop at a zero cell is passed over; at any other its body comes before the loop once more. */
  lemma LoopMeans(m: Machine, r: Run)
    requires OnTape(r.st) && r.todo != [] && r.todo[0].Loop?
    ensures var text, body, rest := Text(r.todo), Text(r.todo[0].body), Text(r.todo[1..]);
            var after := StructuredStep(m, r);
            && text == ['['] + body + [']'] + rest && after.st == r.st
            && Text(after.todo) == if r.st.data[r.st.ptr] == 0 then rest else body + text
  {
    TextAppend(r.todo[0].body, r.todo);
  }

  /** A run ends at the end of the text, and where the pointer has left the 4096 cells of the tape, on either side. */
  lemma HaltedMeans(m: Machine, r: Run)
    requires |r.st.data| == 4096
    ensures Halted(r) <==> Text(r.todo) == [] || r.st.ptr >= 4096
    ensures Halted(r) ==> StructuredStep(m, r) == r
    ensures !Halted(r) && Text(r.todo)[0] == '>' && r.st.ptr == 4095 ==> Halted(StructuredStep(m, r))
    ensures !Halted(r) && Text(r.todo)[0] == '<' && r.st.ptr == 0 ==> Halted(StructuredStep(m, r))
  {
    if r.todo != [] && OnTape(r.st) {
      if r.todo[0].Act? { PlainMeans(m, r); } else { LoopMeans(m, r); }
    }
  }

  /** Text without brackets is done from left to right, one command a step. */
  lemma {:induction false} StraightText(m: Machine, items: seq<Item>, st: Store, n: nat)
    requires '[' !in Text(items) && forall k :: 0 <= k < n ==> !Halted(RunAfter(m, items, st, k))
    ensures n <= |Text(items)| && Text(RunAfter(m, items, st, n).todo) == Text(items)[n..]
  {
    if n > 0 {
      StraightText(m, items, st, n - 1);
      var r := RunAfter(m, items, st, n - 1);
      assert !Halted(r);
      assert Text(r.todo) != [] ==> Text(r.todo)[0] == Text(items)[n - 1];
      if r.todo[0].Loop? {
        LoopMeans(m, r);
        assert false;
      }
      PlainMeans(m, r);
    }
  }

  // ----- two loops

  /** The steps of a run from anywhere. */
  ghost function RunOn(m: Machine, r: Run, n: nat): Run { Iterate(x => StructuredStep(m, x), r, n) }

  lemma RunOnSum(m: Machine, r: Run, a: nat, b: nat)
    ensures RunOn(m, r, a + b) == RunOn(m, RunOn(m, r, a), b)
  {
    IterateSum(x => StructuredStep(m, x), r, a, b);
  }

  /** The only loop with the text [-]. */
  lemma ClearIs(loop: Item)
    requires Text([loop]) == "[-]"
    ensures loop == Loop([Act(DecVal)])
  {
    var clear := [Loop([Act(DecVal)])];
    assert Text([Act(DecVal)]) == "-";
    assert Text(clear) == ['['] + Text([Act(DecVal)]) + [']'] + Text([]);
    TextDeterminesItems([loop], clear);
  }

  lemma ClearOnce(m: Machine, todo: seq<Item>, st: Store)
    requires OnTape(st) && 0 < st.data[st.ptr] < 65536 && todo != [] && todo[0] == Loop([Act(DecVal)])
    ensures RunOn(m, Run(todo, st), 2) == Run(todo, st.(data := st.data[st.ptr := st.data[st.ptr] - 1]))
  {
    var step := x => StructuredStep(m, x);
    assert ([Act(DecVal)] + todo)[1..] == todo;
    assert RunOn(m, Run(todo, st), 1) == step(Run(todo, st)) == Run([Act(DecVal)] + todo, st);
  }

  /** [-] leaves zero in the cell, after two steps for each unit and one to leave the loop. */
  lemma {:induction false} ClearLoop(m: Machine, todo: seq<Item>, st: Store, c: nat)
    requires OnTape(st) && c == st.data[st.ptr] < 65536 && todo != [] && Text([todo[0]]) == "[-]"
    ensures RunOn(m, Run(todo, st), 2 * c + 1) == Run(todo[1..], st.(data := st.data[st.ptr := 0]))
    decreases c
  {
    ClearIs(todo[0]);
    if c == 0 {
      assert st.data[st.ptr := 0] == st.data;
    } else {
      ClearOnce(m, todo, st);
      var less := st.(data := st.data[st.ptr := c - 1]);
      ClearLoop(m, todo, less, c - 1);
      RunOnSum(m, Run(todo, st), 2, 2 * (c - 1) + 1);
      assert less.data[st.ptr := 0] == st.data[st.ptr := 0];
    }
  }

  lemma TextAct(op: Op, rest: seq<Item>)
    ensures Text([Act(op)] + rest) == [CharOf(op)] + Text(rest)
  {
    assert ([Act(op)] + rest)[1..] == rest;
  }

  /** The only loop with the text [->+<]. */
  lemma MoveIs(loop: Item)
    requires Text([loop]) == "[->+<]"
    ensures loop == Loop([Act(DecVal)] + ([Act(IncDp)] + ([Act(IncVal)] + ([Act(DecDp)] + []))))
  {
    var body := [Act(DecVal)] + ([Act(IncDp)] + ([Act(IncVal)] + ([Act(DecDp)] + [])));
    TextAct(DecDp, []);
    TextAct(IncVal, [Act(DecDp)] + []);
    TextAct(IncDp, [Act(IncVal)] + ([Act(DecDp)] + []));
    TextAct(DecVal, [Act(IncDp)] + ([Act(IncVal)] + ([Act(DecDp)] + [])));
    assert Text(body) == "->+<";
    assert Text([Loop(body)]) == ['['] + Text(body) + [']'] + Text([]);
    TextDeterminesItems([loop], [Loop(body)]);
  }

  lemma ActNext(m: Machine, r: Run, n: nat, op: Op, rest: seq<Item>, todo: seq<Item>, st: Store)
    requires RunOn(m, r, n) == Run(([Act(op)] + rest) + todo, st) && OnTape(st)
    ensures RunOn(m, r, n + 1) == Run(rest + todo, Apply(m, op, st))
  {
    assert (([Act(op)] + rest) + todo)[1..] == rest + todo;
  }

  /** One unit less here and one more next door, modulo 65536. */
  function Moved(st: Store, units: nat): Store
    requires st.ptr + 1 < |st.data| && units <= st.data[st.ptr]
  {
    var next := (st.data[st.ptr + 1] + units) % 65536;
    st.(data := st.data[st.ptr := st.data[st.ptr] - units][st.ptr + 1 := next])
  }

  lemma FourCommands(m: Machine, st: Store)
    requires st.ptr + 1 < 4096 == |st.data| && 0 < st.data[st.ptr] < 65536
    ensures var a := Apply(m, DecVal, st); OnTape(a)
    ensures var b := Apply(m, IncDp, Apply(m, DecVal, st)); OnTape(b)
    ensures var c := Apply(m, IncVal, Apply(m, IncDp, Apply(m, DecVal, st))); OnTape(c)
    ensures Apply(m, DecDp, Apply(m, IncVal, Apply(m, IncDp, Apply(m, DecVal, st)))) == Moved(st, 1)
  {
  }

  lemma MoveOnce(m: Machine, todo: seq<Item>, st: Store)
    requires st.ptr + 1 < 4096 == |st.data| && 0 < st.data[st.ptr] < 65536
    requires todo != [] && todo[0] == Loop([Act(DecVal)] + ([Act(IncDp)] + ([Act(IncVal)] + ([Act(DecDp)] + []))))
    ensures RunOn(m, Run(todo, st), 5) == Run(todo, Moved(st, 1))
  {
    var r, right, left := Run(todo, st), [Act(IncVal)] + ([Act(DecDp)] + []), [Act(DecDp)] + [];
    FourCommands(m, st);
    var a := Apply(m, DecVal, st);
    var b := Apply(m, IncDp, a);
    var c := Apply(m, IncVal, b);
    assert RunOn(m, r, 0) == r;
    assert RunOn(m, r, 1) == StructuredStep(m, r) == Run(todo[0].body + todo, st);
    ActNext(m, r, 1, DecVal, [Act(IncDp)] + right, todo, st);
    ActNext(m, r, 2, IncDp, right, todo, a);
    ActNext(m, r, 3, IncVal, left, todo, b);
    ActNext(m, r, 4, DecDp, [], todo, c);
    assert [] + todo == todo;
  }

  lemma MovedMore(st: Store, units: nat)
    requires st.ptr + 1 < |st.data| && units < st.data[st.ptr]
    ensures Moved(Moved(st, units), 1) == Moved(st, units + 1)
  {
    AddReduced(st.data[st.ptr + 1] + units, 1, 65536);
    assert Moved(Moved(st, units), 1).data == Moved(st, units + 1).data;
  }

  /** From the j-th store on, one pass of the loop leads to the next. */
  ghost predicate Passes(m: Machine, todo: seq<Item>, at: nat -> Store, j: nat) {
    RunOn(m, Run(todo, at(j)), 5) == Run(todo, at(j + 1))
  }

  lemma {:induction false} AllPasses(m: Machine, todo: seq<Item>, at: nat -> Store, k: nat)
    requires forall j :: 0 <= j < k ==> Passes(m, todo, at, j)
    ensures RunOn(m, Run(todo, at(0)), 5 * k) == Run(todo, at(k))
  {
    if k > 0 {
      AllPasses(m, todo, at, k - 1);
      RunOnSum(m, Run(todo, at(0)), 5 * (k - 1), 5);
      assert Passes(m, todo, at, k - 1);
    }
  }

  lemma LeaveLoop(m: Machine, todo: seq<Item>, st: Store)
    requires OnTape(st) && st.data[st.ptr] == 0 && todo != [] && todo[0].Loop?
    ensures RunOn(m, Run(todo, st), 1) == Run(todo[1..], st)
  {
    assert RunOn(m, Run(todo, st), 0) == Run(todo, st);
  }

  lemma PassesOne(m: Machine, todo: seq<Item>, st: Store, at: nat -> Store, j: nat)
    requires st.ptr + 1 < 4096 == |st.data| && j < st.data[st.ptr] < 65536
    requires at(j) == Moved(st, j) && at(j + 1) == Moved(st, j + 1)
    requires todo != [] && todo[0] == Loop([Act(DecVal)] + ([Act(IncDp)] + ([Act(IncVal)] + ([Act(DecDp)] + []))))
    ensures Passes(m, todo, at, j)
  {
    MoveOnce(m, todo, Moved(st, j));
    MovedMore(st, j);
  }

  lemma MoveAll(m: Machine, todo: seq<Item>, st: Store, c: nat)
    requires st.ptr + 1 < 4096 == |st.data| && c == st.data[st.ptr] < 65536 && st.data[st.ptr + 1] < 65536
    requires todo != [] && todo[0] == Loop([Act(DecVal)] + ([Act(IncDp)] + ([Act(IncVal)] + ([Act(DecDp)] + []))))
    ensures RunOn(m, Run(todo, st), 5 * c + 1) == Run(todo[1..], Moved(st, c))
  {
    var at: nat -> Store := (j: nat) => if j <= c then Moved(st, j) else st;
    forall j | 0 <= j < c ensures Passes(m, todo, at, j) { PassesOne(m, todo, st, at, j); }
    AllPasses(m, todo, at, c);
    assert Moved(st, 0).data == st.data;
    LeaveLoop(m, todo, Moved(st, c));
    RunOnSum(m, Run(todo, st), 5 * c, 1);
  }

  /** [->+<] moves the cell to the next one, modulo 65536, in five steps for each unit and one to leave the loop. */
  lemma MoveLoop(m: Machine, todo: seq<Item>, st: Store, c: nat)
    requires st.ptr + 1 < 4096 == |st.data| && c == st.data[st.ptr] < 65536 && st.data[st.ptr + 1] < 65536
    requires todo != [] && Text([todo[0]]) == "[->+<]"
    ensures RunOn(m, Run(todo, st), 5 * c + 1) ==
            Run(todo[1..], st.(data := st.data[st.ptr := 0][st.ptr + 1 := (st.data[st.ptr + 1] + c) % 65536]))
  {
    MoveIs(todo[0]);
    MoveAll(m, todo, st, c);
  }

  // ----- whole programs

  lemma OneItem(op: Op)
    ensures Text([Act(op)]) == [CharOf(op)] && Nesting([Act(op)]) == 0
  {
    assert [Act(op)][1..] == [];
  }

  lemma OnePlain(c: char)
    requires c in "><+-.,"
    ensures Commands([c]) == [c] && Acceptable([c])
  {
    CommandsAre([], c);
    assert [] + [c] == [c];
    OneItem(PlainOp(c));
    AcceptableBy([c], [Act(PlainOp(c))]);
  }

  lemma StartsPlain(items: seq<Item>, c: char)
    requires c in "><+-.," && Text(items) == [c]
    ensures items != [] && items[0].Act?
  {
  }

  /**
   * A program of one command, compiled and executed: what becomes of the first cell, the pointer, the output and the
   * input.
   */
  method OneCommand(bf: Interpreter, m: Machine, c: char) returns (ptr: nat)
    requires bf.Valid() && bf.sp == 0 && c in "><+-.,"
    modifies bf`sp, bf.program, bf.stack, bf.data, bf`consumed, bf`output
    ensures forall k :: 1 <= k < 4096 ==> bf.data[k] == old(bf.data[k])
    ensures c == '+' ==> bf.data[0] == (old(bf.data[0]) + 1) % 65536
    ensures c == '-' ==> bf.data[0] == (old(bf.data[0]) + 65535) % 65536
    ensures c == ',' ==>
              var input := m.input(old(bf.consumed)) % 256;
              bf.data[0] == if m.signedChar && input >= 128 then 65280 + input else input
    ensures c !in "+-," ==> bf.data[0] == old(bf.data[0])
    ensures ptr == if c == '>' then 1 else if c == '<' then 0xffff_ffff else 0
    ensures bf.output == if c == '.' then old(bf.output) + [old(bf.data[0]) % 256] else old(bf.output)
    ensures bf.consumed == if c == ',' then old(bf.consumed) + 1 else old(bf.consumed)
  {
    OnePlain(c);
    ghost var st := bf.Snapshot(0);
    var success, steps, halted, at, items := bf.Interpret(m, [c], 1);
    StartsPlain(items, c);
    PlainMeans(m, Run(items, st));
    assert RunAfter(m, items, st, 0) == Run(items, st);
    ptr := at;
    ghost var after := bf.Snapshot(ptr);
    assert after.data == bf.data[..] && st.data == old(bf.data[..]);
  }
}
