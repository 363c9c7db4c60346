/** Radix page tables as x86/qemu/vme.c builds them, and the hardware walk over them. */
module PageTables {
  import opened Arithmetic
  import opened Pigeonhole

  /** One level of the walk: which bits of an address index its table. */
  datatype PtInfo = PtInfo(mask: nat, shift: nat, bits: nat)

  /** Slots first, first + 1, ..., last - 1. */
  datatype SlotRange = SlotRange(first: nat, last: nat)

  /** levels tables below CR3; kernel lists the level-1 slots that hold kernel tables. */
  datatype Config = Config(levels: nat, info: seq<PtInfo>, kernel: seq<SlotRange>, userStart: nat, userEnd: nat)

  predicate KernelSlot(c: Config, i: nat) {
    exists k :: 0 <= k < |c.kernel| && c.kernel[k].first <= i < c.kernel[k].last
  }

  const PAGE: nat := 4096
  const PTE_P: nat := 1
  const PTE_W: nat := 2
  const PTE_U: nat := 4

  predicate Present(e: nat) { e % 2 == 1 }
  predicate Writable(e: nat) { e / 2 % 2 == 1 }
  predicate User(e: nat) { e / 4 % 2 == 1 }
  predicate Huge(e: nat) { e / 128 % 2 == 1 }

  /** baseof: an entry or address without its low twelve bits. */
  function Base(e: nat): nat { e - e % PAGE }

  /** An entry: page addresses have no low bits, so or-ing flags adds them. */
  function Entry(page: nat, flags: nat): nat { page + flags }

  function Slots(c: Config, level: nat): nat
    requires level < |c.info|
  {
    Pow2(c.info[level].bits)
  }

  /** indexof: the bits of addr under the mask, shifted down. */
  function Index(c: Config, addr: nat, level: nat): (i: nat)
    requires level < |c.info|
    ensures i < Slots(c, level)
  {
    addr / Pow2(c.info[level].shift) % Slots(c, level)
  }

  /** The levels cover adjacent bit fields, from the page offset up; masks select exactly those fields. */
  predicate GoodConfig(c: Config) {
    && c.levels >= 1 && |c.info| == c.levels + 1
    && c.info[c.levels].shift == 12
    && (forall l :: 1 <= l < c.levels ==> c.info[l].shift == c.info[l + 1].shift + c.info[l + 1].bits)
    && (forall l :: 1 <= l <= c.levels ==> c.info[l].mask == (Pow2(c.info[l].bits) - 1) * Pow2(c.info[l].shift))
  }

  /** Page tables by the address of their page. */
  type Memory = map<nat, seq<nat>>

  predicate HasTable(c: Config, mem: Memory, page: nat, level: nat)
    requires level < |c.info|
  {
    page in mem && |mem[page]| == Slots(c, level)
  }

  // ----- the hardware walk

  datatype Translation = Fault | Maps(frame: nat, writable: bool, user: bool, level: nat)

  /** Access rights are those that every level grants. */
  function Restrict(t: Translation, e: nat): Translation {
    match t
    case Fault => Fault
    case Maps(frame, w, u, l) => Maps(frame, w && Writable(e), u && User(e), l)
  }

  /** The translation of va from the table at page, by sections 4.3 and 4.5 of the Intel SDM, volume 3A. */
  function Walk(c: Config, mem: Memory, page: nat, level: nat, va: nat): Translation
    requires GoodConfig(c) && 1 <= level <= c.levels
    decreases c.levels - level
  {
    if !HasTable(c, mem, page, level) then Fault
    else
      var e := mem[page][Index(c, va, level)];
      if !Present(e) then Fault
      else if level == c.levels || Huge(e) then Maps(Base(e), Writable(e), User(e), level)
      else Restrict(Walk(c, mem, Base(e), level + 1, va), e)
  }

  /** An entry with all rights points to its table, is no huge page and restricts nothing. */
  lemma FullEntry(page: nat)
    requires page % PAGE == 0
    ensures var e := Entry(page, PTE_P + PTE_W + PTE_U);
            Base(e) == page && Present(e) && Writable(e) && User(e) && !Huge(e)
  {
    var k := page / PAGE;
    Digits(k, 7, PAGE);
    Digits(2048 * k + 3, 1, 2);
    Digits(1024 * k + 1, 3, 4);
    Digits(32 * k, 7, 128);
    Digits(1024 * k + 1, 1, 2);
    Digits(512 * k, 1, 2);
    Digits(16 * k, 0, 2);
  }

  /** Every table that a walk from page can reach lies in region. */
  ghost predicate Closed(c: Config, mem: Memory, region: set<nat>, page: nat, level: nat)
    requires GoodConfig(c) && 1 <= level <= c.levels
    decreases c.levels - level
  {
    && page in region
    && (HasTable(c, mem, page, level) && level < c.levels ==>
          forall i :: 0 <= i < |mem[page]| && Present(mem[page][i]) && !Huge(mem[page][i]) ==>
            Closed(c, mem, region, Base(mem[page][i]), level + 1))
  }

  ghost predicate Agree(mem: Memory, other: Memory, region: set<nat>) {
    forall p :: p in region ==> (p in mem <==> p in other) && (p in mem ==> mem[p] == other[p])
  }

  /** A walk depends only on the tables it can reach. */
  lemma {:induction false} WalkFrame(c: Config, mem: Memory, other: Memory, region: set<nat>, page: nat, level: nat,
                                     va: nat)
    requires GoodConfig(c) && 1 <= level <= c.levels
    requires Closed(c, mem, region, page, level) && Agree(mem, other, region)
    ensures Walk(c, mem, page, level, va) == Walk(c, other, page, level, va)
    decreases c.levels - level
  {
    if HasTable(c, mem, page, level) && level < c.levels {
      var e := mem[page][Index(c, va, level)];
      if Present(e) && !Huge(e) { WalkFrame(c, mem, other, region, Base(e), level + 1, va); }
    }
  }

  lemma {:induction false} ClosedFrame(c: Config, mem: Memory, other: Memory, region: set<nat>, page: nat, level: nat)
    requires GoodConfig(c) && 1 <= level <= c.levels
    requires Closed(c, mem, region, page, level) && Agree(mem, other, region)
    ensures Closed(c, other, region, page, level)
    decreases c.levels - level
  {
    if HasTable(c, mem, page, level) && level < c.levels {
      forall i | 0 <= i < |mem[page]| && Present(mem[page][i]) && !Huge(mem[page][i])
        ensures Closed(c, other, region, Base(mem[page][i]), level + 1)
      {
        ClosedFrame(c, mem, other, region, Base(mem[page][i]), level + 1);
      }
    }
  }

  // ----- the tables of an address space

  /** Slots of the root that hold kernel tables are not the address space's own. */
  predicate Own(c: Config, level: nat, i: nat) {
    level > 1 || !KernelSlot(c, i)
  }

  /** The own, present entry i of a table. */
  predicate HasChild(c: Config, mem: Memory, page: nat, level: nat, i: nat)
    requires level < |c.info|
  {
    HasTable(c, mem, page, level) && i < |mem[page]| && Own(c, level, i) && Present(mem[page][i])
  }

  function Child(c: Config, mem: Memory, page: nat, level: nat, i: nat): nat
    requires level < |c.info| && HasChild(c, mem, page, level, i)
  {
    Base(mem[page][i])
  }

  /** The table at page and all the address space's tables below it. */
  ghost function Footprint(c: Config, mem: Memory, page: nat, level: nat): set<nat>
    requires GoodConfig(c) && 1 <= level <= c.levels
    decreases c.levels - level, Slots(c, level) + 1
  {
    if level == c.levels then {page}
    else {page} + TablesBelow(c, mem, page, level, Slots(c, level))
  }

  /** The tables below the first k slots of page. */
  ghost function TablesBelow(c: Config, mem: Memory, page: nat, level: nat, k: nat): set<nat>
    requires GoodConfig(c) && 1 <= level < c.levels && k <= Slots(c, level)
    decreases c.levels - level, k
  {
    if k == 0 then {} else TablesBelow(c, mem, page, level, k - 1) + ChildFootprint(c, mem, page, level, k - 1)
  }

  ghost function ChildFootprint(c: Config, mem: Memory, page: nat, level: nat, i: nat): set<nat>
    requires GoodConfig(c) && 1 <= level < c.levels && i < Slots(c, level)
    decreases c.levels - level, i
  {
    if HasChild(c, mem, page, level, i) then Footprint(c, mem, Child(c, mem, page, level, i), level + 1) else {}
  }

  lemma {:induction false} BelowHas(c: Config, mem: Memory, page: nat, level: nat, k: nat, i: nat)
    requires GoodConfig(c) && 1 <= level < c.levels && i < k <= Slots(c, level)
    ensures ChildFootprint(c, mem, page, level, i) <= TablesBelow(c, mem, page, level, k)
  {
    if i < k - 1 { BelowHas(c, mem, page, level, k - 1, i); }
  }

  lemma {:induction false} BelowFrom(c: Config, mem: Memory, page: nat, level: nat, k: nat, p: nat) returns (i: nat)
    requires GoodConfig(c) && 1 <= level < c.levels && k <= Slots(c, level) && p in TablesBelow(c, mem, page, level, k)
    ensures i < k && p in ChildFootprint(c, mem, page, level, i)
  {
    if p in ChildFootprint(c, mem, page, level, k - 1) {
      i := k - 1;
    } else {
      i := BelowFrom(c, mem, page, level, k - 1, p);
    }
  }

  /** A slot of a valid table: its child, if any, is a valid table of its own, entered with all rights. */
  ghost predicate ValidSlot(c: Config, mem: Memory, page: nat, level: nat, i: nat)
    requires GoodConfig(c) && 1 <= level < c.levels && i < Slots(c, level)
    decreases c.levels - level, 0
  {
    HasChild(c, mem, page, level, i) ==>
      && mem[page][i] == Entry(Child(c, mem, page, level, i), PTE_P + PTE_W + PTE_U)
      && ValidTable(c, mem, Child(c, mem, page, level, i), level + 1)
      && page !in ChildFootprint(c, mem, page, level, i)
  }

  ghost predicate Apart(c: Config, mem: Memory, page: nat, level: nat, i: nat, j: nat)
    requires GoodConfig(c) && 1 <= level < c.levels && i < Slots(c, level) && j < Slots(c, level)
  {
    ChildFootprint(c, mem, page, level, i) !! ChildFootprint(c, mem, page, level, j)
  }

  /** The tables form a tree: every table is reached through one slot only. */
  ghost predicate ValidTable(c: Config, mem: Memory, page: nat, level: nat)
    requires GoodConfig(c) && 1 <= level <= c.levels
    decreases c.levels - level, 1
  {
    && HasTable(c, mem, page, level) && page % PAGE == 0
    && (level < c.levels ==>
          && (forall i :: 0 <= i < Slots(c, level) ==> ValidSlot(c, mem, page, level, i))
          && (forall i, j :: 0 <= i < j < Slots(c, level) ==> Apart(c, mem, page, level, i, j)))
  }

  lemma ChildInFootprint(c: Config, mem: Memory, page: nat, level: nat, i: nat)
    requires GoodConfig(c) && 1 <= level < c.levels && i < Slots(c, level)
    ensures ChildFootprint(c, mem, page, level, i) <= Footprint(c, mem, page, level)
  {
    BelowHas(c, mem, page, level, Slots(c, level), i);
  }

  /** The footprint, and its validity, depend only on the tables in it. */
  lemma {:induction false} FootprintFrame(c: Config, mem: Memory, other: Memory, page: nat, level: nat)
    requires GoodConfig(c) && 1 <= level <= c.levels
    requires ValidTable(c, mem, page, level) && Agree(mem, other, Footprint(c, mem, page, level))
    ensures Footprint(c, other, page, level) == Footprint(c, mem, page, level)
    ensures ValidTable(c, other, page, level)
    decreases c.levels - level, 1
  {
    assert page in Footprint(c, mem, page, level);
    if level < c.levels {
      forall i | 0 <= i < Slots(c, level)
        ensures ChildFootprint(c, other, page, level, i) == ChildFootprint(c, mem, page, level, i)
        ensures ValidSlot(c, other, page, level, i)
      {
        ChildInFootprint(c, mem, page, level, i);
        SlotFrame(c, mem, other, page, level, i);
      }
      BelowSame(c, mem, other, page, level, Slots(c, level));
      forall i, j | 0 <= i < j < Slots(c, level) ensures Apart(c, other, page, level, i, j) {
        assert Apart(c, mem, page, level, i, j);
      }
    }
  }

  lemma {:induction false} SlotFrame(c: Config, mem: Memory, other: Memory, page: nat, level: nat, i: nat)
    requires GoodConfig(c) && 1 <= level < c.levels && i < Slots(c, level)
    requires ValidTable(c, mem, page, level) && HasTable(c, other, page, level) && other[page][i] == mem[page][i]
    requires Agree(mem, other, ChildFootprint(c, mem, page, level, i))
    ensures ChildFootprint(c, other, page, level, i) == ChildFootprint(c, mem, page, level, i)
    ensures ValidSlot(c, other, page, level, i)
    decreases c.levels - level, 0
  {
    assert ValidSlot(c, mem, page, level, i);
    if HasChild(c, mem, page, level, i) {
      FootprintFrame(c, mem, other, Child(c, mem, page, level, i), level + 1);
    }
  }

  lemma {:induction false} BelowSame(c: Config, mem: Memory, other: Memory, page: nat, level: nat, k: nat)
    requires GoodConfig(c) && 1 <= level < c.levels && k <= Slots(c, level)
    requires forall i :: 0 <= i < k ==>
               ChildFootprint(c, other, page, level, i) == ChildFootprint(c, mem, page, level, i)
    ensures TablesBelow(c, other, page, level, k) == TablesBelow(c, mem, page, level, k)
  {
    if k > 0 { BelowSame(c, mem, other, page, level, k - 1); }
  }

  /** The own tables that a walk can reach lie in the footprint. */
  lemma {:induction false} FootprintClosed(c: Config, mem: Memory, page: nat, level: nat, region: set<nat>)
    requires GoodConfig(c) && 2 <= level <= c.levels
    requires ValidTable(c, mem, page, level) && Footprint(c, mem, page, level) <= region
    ensures Closed(c, mem, region, page, level)
    decreases c.levels - level
  {
    if level < c.levels {
      forall i | 0 <= i < |mem[page]| && Present(mem[page][i]) && !Huge(mem[page][i])
        ensures Closed(c, mem, region, Base(mem[page][i]), level + 1)
      {
        ChildInFootprint(c, mem, page, level, i);
        assert ValidSlot(c, mem, page, level, i) && HasChild(c, mem, page, level, i);
        FootprintClosed(c, mem, Child(c, mem, page, level, i), level + 1, region);
      }
    }
  }

  /** A change at or below slot i that adds tables which are new to the whole footprint. */
  ghost predicate ChangedBelow(c: Config, mem: Memory, other: Memory, page: nat, level: nat, i: nat, taken: set<nat>)
    requires GoodConfig(c) && 1 <= level < c.levels && i < Slots(c, level)
  {
    && ValidTable(c, mem, page, level) && HasTable(c, other, page, level)
    && (forall j {:trigger other[page][j]} :: 0 <= j < Slots(c, level) && j != i ==> other[page][j] == mem[page][j])
    && ValidSlot(c, other, page, level, i)
    && ChildFootprint(c, other, page, level, i) == ChildFootprint(c, mem, page, level, i) + taken
    && taken !! Footprint(c, mem, page, level)
    && Agree(mem, other, Footprint(c, mem, page, level) - ChildFootprint(c, mem, page, level, i) - {page})
  }

  lemma OtherSlot(c: Config, mem: Memory, other: Memory, page: nat, level: nat, i: nat, taken: set<nat>, j: nat)
    requires GoodConfig(c) && 1 <= level < c.levels && i < Slots(c, level) && j < Slots(c, level) && i != j
    requires ChangedBelow(c, mem, other, page, level, i, taken)
    ensures ChildFootprint(c, other, page, level, j) == ChildFootprint(c, mem, page, level, j)
    ensures ValidSlot(c, other, page, level, j)
    ensures ChildFootprint(c, mem, page, level, j) !! ChildFootprint(c, mem, page, level, i) + taken
  {
    ChildInFootprint(c, mem, page, level, j);
    assert Apart(c, mem, page, level, if i < j then i else j, if i < j then j else i);
    assert ValidSlot(c, mem, page, level, j) && other[page][j] == mem[page][j];
    SlotFrame(c, mem, other, page, level, j);
  }

  lemma {:induction false} BelowGrows(c: Config, mem: Memory, other: Memory, page: nat, level: nat, i: nat,
                                      taken: set<nat>, k: nat)
    requires GoodConfig(c) && 1 <= level < c.levels && i < Slots(c, level) && k <= Slots(c, level)
    requires ChangedBelow(c, mem, other, page, level, i, taken)
    ensures TablesBelow(c, other, page, level, k) == TablesBelow(c, mem, page, level, k) + if i < k then taken else {}
  {
    if k > 0 {
      BelowGrows(c, mem, other, page, level, i, taken, k - 1);
      if k - 1 != i { OtherSlot(c, mem, other, page, level, i, taken, k - 1); }
    }
  }

  /** The table stays valid, and its footprint grows by the tables taken. */
  lemma Lift(c: Config, mem: Memory, other: Memory, page: nat, level: nat, i: nat, taken: set<nat>)
    requires GoodConfig(c) && 1 <= level < c.levels && i < Slots(c, level)
    requires ChangedBelow(c, mem, other, page, level, i, taken)
    ensures ValidTable(c, other, page, level)
    ensures Footprint(c, other, page, level) == Footprint(c, mem, page, level) + taken
  {
    BelowGrows(c, mem, other, page, level, i, taken, Slots(c, level));
    assert ValidSlot(c, mem, page, level, i);
    forall j | 0 <= j < Slots(c, level) ensures ValidSlot(c, other, page, level, j) {
      if j != i { OtherSlot(c, mem, other, page, level, i, taken, j); }
    }
    forall j, k | 0 <= j < k < Slots(c, level) ensures Apart(c, other, page, level, j, k) {
      assert Apart(c, mem, page, level, j, k);
      if j != i { OtherSlot(c, mem, other, page, level, i, taken, j); }
      if k != i { OtherSlot(c, mem, other, page, level, i, taken, k); }
    }
  }

  /** Walks through the other own slots are not affected. */
  lemma WalkOtherSlot(c: Config, mem: Memory, other: Memory, page: nat, level: nat, i: nat, taken: set<nat>, va: nat)
    requires GoodConfig(c) && 1 <= level < c.levels && i < Slots(c, level)
    requires ChangedBelow(c, mem, other, page, level, i, taken)
    requires Index(c, va, level) != i && Own(c, level, Index(c, va, level))
    ensures Walk(c, other, page, level, va) == Walk(c, mem, page, level, va)
  {
    var j := Index(c, va, level);
    assert other[page][j] == mem[page][j];
    if HasChild(c, mem, page, level, j) {
      var region := ChildFootprint(c, mem, page, level, j);
      assert ValidSlot(c, mem, page, level, j);
      OtherSlot(c, mem, other, page, level, i, taken, j);
      ChildInFootprint(c, mem, page, level, j);
      assert page !in region && other[page][j] == mem[page][j];
      FootprintClosed(c, mem, Child(c, mem, page, level, j), level + 1, region);
      WalkFrame(c, mem, other, region, Child(c, mem, page, level, j), level + 1, va);
    }
  }

  // ----- ptwalk

  function Zeros(n: nat): (z: seq<nat>)
    ensures |z| == n && forall i :: 0 <= i < n ==> z[i] == 0
  {
    seq(n, _ => 0)
  }

  datatype WalkResult = WalkResult(ok: bool, mem: Memory, free: seq<nat>, table: nat)

  /** A new, empty table from the free pages, entered with all rights in slot i. */
  function Allocate(c: Config, mem: Memory, page: nat, level: nat, i: nat, added: nat): Memory
    requires GoodConfig(c) && 1 <= level < c.levels && HasTable(c, mem, page, level) && i < Slots(c, level)
  {
    mem[added := Zeros(Slots(c, level + 1))][page := mem[page][i := Entry(added, PTE_P + PTE_W + PTE_U)]]
  }

  /** ptwalk(as, va, PTE_W | PTE_U) from the table at page: the last-level table for va, allocating what is missing. */
  function WalkAlloc(c: Config, mem: Memory, free: seq<nat>, page: nat, level: nat, va: nat): WalkResult
    requires GoodConfig(c) && 1 <= level <= c.levels
    decreases c.levels - level
  {
    if level == c.levels then WalkResult(true, mem, free, page)
    else if !HasTable(c, mem, page, level) then WalkResult(false, mem, free, page)
    else
      var i := Index(c, va, level);
      if Present(mem[page][i]) then WalkAlloc(c, mem, free, Base(mem[page][i]), level + 1, va)
      else if free == [] then WalkResult(false, mem, free, page)
      else WalkAlloc(c, Allocate(c, mem, page, level, i, free[0]), free[1..], free[0], level + 1, va)
  }

  /** The free pages are page addresses, all different, and none of them is in use. */
  ghost predicate FreePages(mem: Memory, free: seq<nat>) {
    && (forall k :: 0 <= k < |free| ==> free[k] % PAGE == 0 && free[k] !in mem)
    && (forall k, l :: 0 <= k < l < |free| ==> free[k] != free[l])
  }

  lemma AllocateGood(c: Config, mem: Memory, page: nat, level: nat, i: nat, added: nat)
    requires GoodConfig(c) && 1 <= level < c.levels && ValidTable(c, mem, page, level) && i < Slots(c, level)
    requires Own(c, level, i) && !Present(mem[page][i]) && added % PAGE == 0 && added !in mem
    requires forall p :: p in Footprint(c, mem, page, level) ==> p in mem
    ensures var other := Allocate(c, mem, page, level, i, added);
            && ChangedBelow(c, mem, other, page, level, i, {added})
            && ValidTable(c, other, added, level + 1) && Footprint(c, other, added, level + 1) == {added}
  {
    var other := Allocate(c, mem, page, level, i, added);
    assert added != page;
    FullEntry(added);
    assert page in Footprint(c, mem, page, level);
    EmptyTable(c, other, added, level + 1);
  }

  lemma EmptyTable(c: Config, mem: Memory, page: nat, level: nat)
    requires GoodConfig(c) && 1 <= level <= c.levels && page in mem && page % PAGE == 0
    requires mem[page] == Zeros(Slots(c, level))
    ensures ValidTable(c, mem, page, level) && Footprint(c, mem, page, level) == {page}
  {
    NoChildren(c, mem, page, level);
  }

  /** A table without children is a tree of one table. */
  lemma NoChildren(c: Config, mem: Memory, page: nat, level: nat)
    requires GoodConfig(c) && 1 <= level <= c.levels && HasTable(c, mem, page, level) && page % PAGE == 0
    requires forall i :: 0 <= i < Slots(c, level) && level < c.levels ==> !HasChild(c, mem, page, level, i)
    ensures ValidTable(c, mem, page, level) && Footprint(c, mem, page, level) == {page}
  {
    if level < c.levels {
      NoneBelow(c, mem, page, level, Slots(c, level));
      forall i | 0 <= i < Slots(c, level)
        ensures ValidSlot(c, mem, page, level, i) && ChildFootprint(c, mem, page, level, i) == {}
      {
        assert !HasChild(c, mem, page, level, i);
      }
      forall i, j | 0 <= i < j < Slots(c, level) ensures Apart(c, mem, page, level, i, j) {
        assert ChildFootprint(c, mem, page, level, i) == {};
      }
    }
  }

  lemma {:induction false} NoneBelow(c: Config, mem: Memory, page: nat, level: nat, k: nat)
    requires GoodConfig(c) && 1 <= level < c.levels && k <= Slots(c, level)
    requires forall i :: 0 <= i < k ==> !HasChild(c, mem, page, level, i)
    ensures TablesBelow(c, mem, page, level, k) == {}
  {
    if k > 0 { NoneBelow(c, mem, page, level, k - 1); }
  }

  lemma {:induction false} FootprintInMemory(c: Config, mem: Memory, page: nat, level: nat, p: nat)
    requires GoodConfig(c) && 1 <= level <= c.levels && ValidTable(c, mem, page, level)
    requires p in Footprint(c, mem, page, level)
    ensures p in mem
    decreases c.levels - level
  {
    if p != page {
      var i := BelowFrom(c, mem, page, level, Slots(c, level), p);
      assert ValidSlot(c, mem, page, level, i);
      FootprintInMemory(c, mem, Child(c, mem, page, level, i), level + 1, p);
    }
  }

  ghost function Added(mem: Memory, other: Memory): set<nat> { other.Keys - mem.Keys }

  /** The pages that were taken from the front of free when rest is left. */
  ghost function Taken(free: seq<nat>, rest: seq<nat>): set<nat>
    requires |rest| <= |free|
  {
    Elements(free[..|free| - |rest|])
  }

  ghost function Elements(pages: seq<nat>): set<nat> { set p | p in pages }

  /** What is left of what is left of pool, and the pages taken in both steps. */
  lemma TakenMore(pool: seq<nat>, before: seq<nat>, rest: seq<nat>, tables: set<nat>, now: set<nat>)
    requires |rest| <= |before| <= |pool|
    requires before == pool[|pool| - |before|..] && rest == before[|before| - |rest|..]
    requires tables == Taken(pool, before) && now == tables + Taken(before, rest)
    ensures |rest| <= |pool| && rest == pool[|pool| - |rest|..] && now == Taken(pool, rest)
  {
    TakenTwice(pool, before, rest);
  }

  lemma TakenTwice(free: seq<nat>, mid: seq<nat>, rest: seq<nat>)
    requires |rest| <= |mid| <= |free| && mid == free[|free| - |mid|..]
    ensures Taken(free, rest) == Taken(free, mid) + Taken(mid, rest)
  {
  }

  /** other is mem with tables added below page, taken from the free pages; nothing else changed. */
  ghost predicate Grown(c: Config, mem: Memory, other: Memory, free: seq<nat>, rest: seq<nat>, page: nat, level: nat)
    requires GoodConfig(c) && 1 <= level <= c.levels
  {
    && ValidTable(c, other, page, level)
    && mem.Keys <= other.Keys && FreePages(other, rest)
    && |rest| <= |free| && rest == free[|free| - |rest|..]
    && Added(mem, other) == Taken(free, rest)
    && Footprint(c, other, page, level) == Footprint(c, mem, page, level) + Added(mem, other)
    && forall p {:trigger other[p]} :: p in mem && p !in Footprint(c, mem, page, level) ==> other[p] == mem[p]
  }

  /** The path to va is present and ends at table. */
  ghost predicate Leads(c: Config, mem: Memory, page: nat, level: nat, va: nat, table: nat)
    requires GoodConfig(c) && 1 <= level <= c.levels
    decreases c.levels - level
  {
    if level == c.levels then page == table
    else
      && HasChild(c, mem, page, level, Index(c, va, level))
      && Leads(c, mem, Child(c, mem, page, level, Index(c, va, level)), level + 1, va, table)
  }

  /** A grown child makes a grown table. */
  lemma GrownBelow(c: Config, mem: Memory, other: Memory, free: seq<nat>, rest: seq<nat>, page: nat, level: nat, i: nat)
    requires GoodConfig(c) && 1 <= level < c.levels && i < Slots(c, level)
    requires ValidTable(c, mem, page, level) && HasChild(c, mem, page, level, i)
    requires Grown(c, mem, other, free, rest, Child(c, mem, page, level, i), level + 1)
    ensures ChangedBelow(c, mem, other, page, level, i, Added(mem, other))
    ensures Grown(c, mem, other, free, rest, page, level)
  {
    assert ValidSlot(c, mem, page, level, i);
    var child := Child(c, mem, page, level, i);
    ChildInFootprint(c, mem, page, level, i);
    assert page in mem && page !in Footprint(c, mem, child, level + 1);
    assert other[page] == mem[page];
    forall p | p in Footprint(c, mem, page, level) ensures p in mem && p in other {
      FootprintInMemory(c, mem, page, level, p);
    }
    forall p | p in Footprint(c, mem, page, level) - ChildFootprint(c, mem, page, level, i)
      ensures other[p] == mem[p]
    {
    }
    assert HasChild(c, other, page, level, i) && Child(c, other, page, level, i) == child;
    Lift(c, mem, other, page, level, i, Added(mem, other));
  }

  /** One allocation makes a grown table. */
  lemma GrownByOne(c: Config, mem: Memory, free: seq<nat>, page: nat, level: nat, i: nat)
    requires GoodConfig(c) && 1 <= level < c.levels && i < Slots(c, level)
    requires ValidTable(c, mem, page, level) && Own(c, level, i) && !Present(mem[page][i])
    requires FreePages(mem, free) && free != []
    ensures var other := Allocate(c, mem, page, level, i, free[0]);
            && Grown(c, mem, other, free, free[1..], page, level)
            && HasChild(c, other, page, level, i) && Child(c, other, page, level, i) == free[0]
            && ValidTable(c, other, free[0], level + 1)
  {
    var other := Allocate(c, mem, page, level, i, free[0]);
    forall p | p in Footprint(c, mem, page, level) ensures p in mem { FootprintInMemory(c, mem, page, level, p); }
    AllocateGood(c, mem, page, level, i, free[0]);
    Lift(c, mem, other, page, level, i, {free[0]});
    assert Added(mem, other) == {free[0]} == Taken(free, free[1..]);
    assert page in Footprint(c, mem, page, level);
    FullEntry(free[0]);
  }

  /** What the walk goes on with after an allocation. */
  lemma NewTable(c: Config, mem: Memory, free: seq<nat>, page: nat, level: nat, i: nat)
    requires GoodConfig(c) && 1 <= level < c.levels && i < Slots(c, level)
    requires ValidTable(c, mem, page, level) && Own(c, level, i) && !Present(mem[page][i])
    requires FreePages(mem, free) && free != []
    ensures var other := Allocate(c, mem, page, level, i, free[0]);
            && ValidTable(c, other, free[0], level + 1) && FreePages(other, free[1..])
            && free[0] in other && other[free[0]] == Zeros(Slots(c, level + 1))
  {
    GrownByOne(c, mem, free, page, level, i);
  }

  lemma GrownTwice(c: Config, a: Memory, b: Memory, d: Memory, free: seq<nat>, mid: seq<nat>, rest: seq<nat>, page: nat,
                   level: nat)
    requires GoodConfig(c) && 1 <= level <= c.levels
    requires Grown(c, a, b, free, mid, page, level) && Grown(c, b, d, mid, rest, page, level)
    ensures Grown(c, a, d, free, rest, page, level)
  {
    assert Added(a, d) == Added(a, b) + Added(b, d);
    TakenTwice(free, mid, rest);
    forall p | p in a && p !in Footprint(c, a, page, level) ensures d[p] == a[p] {
      assert b[p] == a[p] && p !in Added(a, b);
    }
  }

  /** One allocation, and growth below the new table. */
  lemma GrownByNew(c: Config, mem: Memory, other: Memory, free: seq<nat>, rest: seq<nat>, page: nat, level: nat, i: nat)
    requires GoodConfig(c) && 1 <= level < c.levels && i < Slots(c, level)
    requires ValidTable(c, mem, page, level) && Own(c, level, i) && !Present(mem[page][i])
    requires FreePages(mem, free) && free != []
    requires Grown(c, Allocate(c, mem, page, level, i, free[0]), other, free[1..], rest, free[0], level + 1)
    ensures Grown(c, mem, other, free, rest, page, level)
    ensures HasChild(c, other, page, level, i) && Child(c, other, page, level, i) == free[0]
  {
    var one := Allocate(c, mem, page, level, i, free[0]);
    GrownByOne(c, mem, free, page, level, i);
    GrownBelow(c, one, other, free[1..], rest, page, level, i);
    GrownTwice(c, mem, one, other, free, free[1..], rest, page, level);
    assert ValidSlot(c, one, page, level, i);
    assert other[page] == one[page];
  }

  /** ptwalk keeps the tree a tree; when pages suffice, the path to va is there. */
  lemma {:induction false} WalkAllocGrown(c: Config, mem: Memory, free: seq<nat>, page: nat, level: nat, va: nat)
    requires GoodConfig(c) && 1 <= level <= c.levels && ValidTable(c, mem, page, level) && FreePages(mem, free)
    requires Own(c, level, Index(c, va, level))
    ensures var r := WalkAlloc(c, mem, free, page, level, va);
            && Grown(c, mem, r.mem, free, r.free, page, level)
            && (r.ok ==> Leads(c, r.mem, page, level, va, r.table))
    decreases c.levels - level
  {
    var r := WalkAlloc(c, mem, free, page, level, va);
    if level < c.levels {
      var i := Index(c, va, level);
      if Present(mem[page][i]) {
        var child := Child(c, mem, page, level, i);
        assert ValidSlot(c, mem, page, level, i);
        WalkAllocGrown(c, mem, free, child, level + 1, va);
        GrownBelow(c, mem, r.mem, free, r.free, page, level, i);
        assert r.mem[page] == mem[page];
      } else if free != [] {
        NewTable(c, mem, free, page, level, i);
        WalkAllocGrown(c, Allocate(c, mem, page, level, i, free[0]), free[1..], free[0], level + 1, va);
        GrownByNew(c, mem, r.mem, free, r.free, page, level, i);
      }
    }
  }

  /** How many tables are missing on the path to va. */
  function Missing(c: Config, mem: Memory, page: nat, level: nat, va: nat): (n: nat)
    requires GoodConfig(c) && 1 <= level <= c.levels
    ensures n <= c.levels - level
    decreases c.levels - level
  {
    if level == c.levels then 0
    else if HasChild(c, mem, page, level, Index(c, va, level)) then
      Missing(c, mem, Child(c, mem, page, level, Index(c, va, level)), level + 1, va)
    else c.levels - level
  }

  /** ptwalk takes a free page for each missing table, and fails only when they do not suffice. */
  lemma {:induction false} WalkAllocTakes(c: Config, mem: Memory, free: seq<nat>, page: nat, level: nat, va: nat)
    requires GoodConfig(c) && 1 <= level <= c.levels && ValidTable(c, mem, page, level) && FreePages(mem, free)
    requires Own(c, level, Index(c, va, level))
    ensures var r, n := WalkAlloc(c, mem, free, page, level, va), Missing(c, mem, page, level, va);
            && (r.ok <==> n <= |free|)
            && r.free == if r.ok then free[n..] else []
    decreases c.levels - level
  {
    if level < c.levels {
      var i := Index(c, va, level);
      if Present(mem[page][i]) {
        assert ValidSlot(c, mem, page, level, i);
        WalkAllocTakes(c, mem, free, Child(c, mem, page, level, i), level + 1, va);
      } else if free != [] {
        var other := Allocate(c, mem, page, level, i, free[0]);
        NewTable(c, mem, free, page, level, i);
        EmptyMissing(c, other, free[0], level + 1, va);
        WalkAllocTakes(c, other, free[1..], free[0], level + 1, va);
        if c.levels - level <= |free| { DropOne(free, c.levels - level); }
      }
    }
  }

  lemma DropOne(free: seq<nat>, n: nat)
    requires 0 < n <= |free|
    ensures free[1..][n - 1..] == free[n..]
  {
  }

  lemma EmptyMissing(c: Config, mem: Memory, page: nat, level: nat, va: nat)
    requires GoodConfig(c) && 1 <= level <= c.levels && page in mem && mem[page] == Zeros(Slots(c, level))
    ensures Missing(c, mem, page, level, va) == c.levels - level
  {
  }

  /** ptwalk along a present path changes nothing. */
  lemma {:induction false} WalkPresent(c: Config, mem: Memory, free: seq<nat>, page: nat, level: nat, va: nat,
                                       table: nat)
    requires GoodConfig(c) && 1 <= level <= c.levels && Leads(c, mem, page, level, va, table)
    ensures WalkAlloc(c, mem, free, page, level, va) == WalkResult(true, mem, free, table)
    decreases c.levels - level
  {
    if level < c.levels {
      WalkPresent(c, mem, free, Child(c, mem, page, level, Index(c, va, level)), level + 1, va, table);
    }
  }

  /** Walks through own slots are not affected when a child grows without changing its own walks. */
  lemma GrownBelowWalk(c: Config, mem: Memory, other: Memory, free: seq<nat>, rest: seq<nat>, page: nat, level: nat,
                       i: nat, probe: nat)
    requires GoodConfig(c) && 1 <= level < c.levels && i < Slots(c, level)
    requires ValidTable(c, mem, page, level) && HasChild(c, mem, page, level, i)
    requires Grown(c, mem, other, free, rest, Child(c, mem, page, level, i), level + 1)
    requires Own(c, level, Index(c, probe, level))
    requires Walk(c, other, Child(c, mem, page, level, i), level + 1, probe)
             == Walk(c, mem, Child(c, mem, page, level, i), level + 1, probe)
    ensures Walk(c, other, page, level, probe) == Walk(c, mem, page, level, probe)
  {
    GrownBelow(c, mem, other, free, rest, page, level, i);
    assert ValidSlot(c, mem, page, level, i);
    assert other[page] == mem[page];
    if Index(c, probe, level) != i {
      WalkOtherSlot(c, mem, other, page, level, i, Added(mem, other), probe);
    }
  }

  lemma AllocateWalk(c: Config, mem: Memory, free: seq<nat>, page: nat, level: nat, i: nat, probe: nat)
    requires GoodConfig(c) && 1 <= level < c.levels && i < Slots(c, level)
    requires ValidTable(c, mem, page, level) && Own(c, level, i) && !Present(mem[page][i])
    requires FreePages(mem, free) && free != [] && Own(c, level, Index(c, probe, level))
    ensures Walk(c, Allocate(c, mem, page, level, i, free[0]), page, level, probe) == Walk(c, mem, page, level, probe)
  {
    var other := Allocate(c, mem, page, level, i, free[0]);
    forall p | p in Footprint(c, mem, page, level) ensures p in mem { FootprintInMemory(c, mem, page, level, p); }
    AllocateGood(c, mem, page, level, i, free[0]);
    if Index(c, probe, level) != i {
      WalkOtherSlot(c, mem, other, page, level, i, {free[0]}, probe);
    } else {
      FullEntry(free[0]);
      assert Walk(c, other, free[0], level + 1, probe) == Fault;
    }
  }

  /** ptwalk changes no translation. */
  lemma {:induction false} WalkAllocKeeps(c: Config, mem: Memory, free: seq<nat>, page: nat, level: nat, va: nat,
                                          probe: nat)
    requires GoodConfig(c) && 1 <= level <= c.levels && ValidTable(c, mem, page, level) && FreePages(mem, free)
    requires Own(c, level, Index(c, va, level)) && Own(c, level, Index(c, probe, level))
    ensures Walk(c, WalkAlloc(c, mem, free, page, level, va).mem, page, level, probe)
            == Walk(c, mem, page, level, probe)
    decreases c.levels - level
  {
    var r := WalkAlloc(c, mem, free, page, level, va);
    if level < c.levels {
      var i := Index(c, va, level);
      if Present(mem[page][i]) {
        var child := Child(c, mem, page, level, i);
        assert ValidSlot(c, mem, page, level, i);
        WalkAllocGrown(c, mem, free, child, level + 1, va);
        WalkAllocKeeps(c, mem, free, child, level + 1, va, probe);
        GrownBelowWalk(c, mem, r.mem, free, r.free, page, level, i, probe);
      } else if free != [] {
        var other := Allocate(c, mem, page, level, i, free[0]);
        GrownByOne(c, mem, free, page, level, i);
        WalkAllocGrown(c, other, free[1..], free[0], level + 1, va);
        WalkAllocKeeps(c, other, free[1..], free[0], level + 1, va, probe);
        AllocateWalk(c, mem, free, page, level, i, probe);
        GrownBelowWalk(c, other, r.mem, free[1..], r.free, page, level, i, probe);
      }
    }
  }

  // ----- writing a last-level entry

  /** What an entry of the last level means. */
  function Leaf(c: Config, e: nat): Translation {
    if Present(e) then Maps(Base(e), Writable(e), User(e), c.levels) else Fault
  }

  /** Two addresses use the same slots from this level down. */
  ghost predicate SameSlots(c: Config, level: nat, a: nat, b: nat)
    requires GoodConfig(c) && 1 <= level <= c.levels
    decreases c.levels - level
  {
    Index(c, a, level) == Index(c, b, level) && (level < c.levels ==> SameSlots(c, level + 1, a, b))
  }

  function SetEntry(mem: Memory, table: nat, i: nat, e: nat): Memory
    requires table in mem && i < |mem[table]|
  {
    var entries: seq<nat> := mem[table][i := e];
    mem[table := entries]
  }

  /** The table of the last level on a present path is one of the tree's. */
  lemma {:induction false} LeadsIntoFootprint(c: Config, mem: Memory, page: nat, level: nat, va: nat, table: nat)
    requires GoodConfig(c) && 1 <= level <= c.levels && ValidTable(c, mem, page, level)
    requires Leads(c, mem, page, level, va, table)
    ensures table in Footprint(c, mem, page, level) && HasTable(c, mem, table, c.levels)
    decreases c.levels - level
  {
    if level < c.levels {
      var i := Index(c, va, level);
      assert ValidSlot(c, mem, page, level, i);
      ChildInFootprint(c, mem, page, level, i);
      LeadsIntoFootprint(c, mem, Child(c, mem, page, level, i), level + 1, va, table);
    }
  }

  /** Writing an entry of a last-level table below slot i leaves the table above valid. */
  lemma SetBelow(c: Config, mem: Memory, page: nat, level: nat, i: nat, table: nat, k: nat, e: nat)
    requires GoodConfig(c) && 1 <= level < c.levels && i < Slots(c, level)
    requires ValidTable(c, mem, page, level) && HasChild(c, mem, page, level, i)
    requires HasTable(c, mem, table, c.levels) && k < |mem[table]| && table in ChildFootprint(c, mem, page, level, i)
    requires var other := SetEntry(mem, table, k, e);
             && ValidTable(c, other, Child(c, mem, page, level, i), level + 1)
             && Footprint(c, other, Child(c, mem, page, level, i), level + 1) == ChildFootprint(c, mem, page, level, i)
    ensures var other := SetEntry(mem, table, k, e);
            && other[page] == mem[page] && ChangedBelow(c, mem, other, page, level, i, {})
            && ValidTable(c, other, page, level) && Footprint(c, other, page, level) == Footprint(c, mem, page, level)
  {
    var other := SetEntry(mem, table, k, e);
    assert ValidSlot(c, mem, page, level, i);
    assert page != table && other[page] == mem[page];
    assert HasChild(c, other, page, level, i) && Child(c, other, page, level, i) == Child(c, mem, page, level, i);
    Lift(c, mem, other, page, level, i, {});
  }

  lemma {:induction false} SetEntryValid(c: Config, mem: Memory, page: nat, level: nat, va: nat, table: nat, e: nat)
    requires GoodConfig(c) && 1 <= level <= c.levels && ValidTable(c, mem, page, level)
    requires Leads(c, mem, page, level, va, table)
    requires HasTable(c, mem, table, c.levels)
    ensures var other := SetEntry(mem, table, Index(c, va, c.levels), e);
            && ValidTable(c, other, page, level) && Footprint(c, other, page, level) == Footprint(c, mem, page, level)
            && Leads(c, other, page, level, va, table)
    decreases c.levels - level
  {
    if level < c.levels {
      var i := Index(c, va, level);
      var child := Child(c, mem, page, level, i);
      assert ValidSlot(c, mem, page, level, i);
      LeadsIntoFootprint(c, mem, child, level + 1, va, table);
      SetEntryValid(c, mem, child, level + 1, va, table, e);
      SetBelow(c, mem, page, level, i, table, Index(c, va, c.levels), e);
    }
  }

  /** Writing the entry of va changes the translation of va's page, and of no other. */
  lemma {:induction false} SetEntryWalk(c: Config, mem: Memory, page: nat, level: nat, va: nat, table: nat, e: nat,
                                        probe: nat)
    requires GoodConfig(c) && 1 <= level <= c.levels && ValidTable(c, mem, page, level)
    requires Leads(c, mem, page, level, va, table)
    requires Own(c, level, Index(c, probe, level)) && HasTable(c, mem, table, c.levels)
    ensures var other := SetEntry(mem, table, Index(c, va, c.levels), e);
            Walk(c, other, page, level, probe)
            == if SameSlots(c, level, va, probe) then Leaf(c, e) else Walk(c, mem, page, level, probe)
    decreases c.levels - level
  {
    if level < c.levels {
      var k := Index(c, va, c.levels);
      var other := SetEntry(mem, table, k, e);
      var i := Index(c, va, level);
      var child := Child(c, mem, page, level, i);
      assert ValidSlot(c, mem, page, level, i);
      LeadsIntoFootprint(c, mem, child, level + 1, va, table);
      SetEntryValid(c, mem, child, level + 1, va, table, e);
      SetBelow(c, mem, page, level, i, table, k, e);
      if Index(c, probe, level) != i {
        WalkOtherSlot(c, mem, other, page, level, i, {}, probe);
      } else {
        SetEntryWalk(c, mem, child, level + 1, va, table, e, probe);
        FullEntry(child);
      }
    }
  }

  /** The entry at which a present path ends is the translation of its address. */
  lemma {:induction false} LeafOfPath(c: Config, mem: Memory, page: nat, level: nat, va: nat, table: nat)
    requires GoodConfig(c) && 1 <= level <= c.levels && ValidTable(c, mem, page, level)
    requires Leads(c, mem, page, level, va, table)
    ensures HasTable(c, mem, table, c.levels)
    ensures Walk(c, mem, page, level, va) == Leaf(c, mem[table][Index(c, va, c.levels)])
    decreases c.levels - level
  {
    if level < c.levels {
      var i := Index(c, va, level);
      assert ValidSlot(c, mem, page, level, i);
      LeafOfPath(c, mem, Child(c, mem, page, level, i), level + 1, va, table);
      FullEntry(Child(c, mem, page, level, i));
    }
  }

  // ----- slots and pages

  /** The bit above those that a level indexes. */
  function Top(c: Config, level: nat): nat
    requires GoodConfig(c) && 1 <= level <= c.levels
  {
    c.info[level].shift + c.info[level].bits
  }

  /** The bits of a page number that the levels from this one down index. */
  function PageBits(c: Config, level: nat, a: nat): nat
    requires GoodConfig(c) && 1 <= level <= c.levels && Top(c, level) >= 12
  {
    a / Pow2(12) % Pow2(Top(c, level) - 12)
  }

  lemma {:induction false} ShiftAtLeast(c: Config, level: nat)
    requires GoodConfig(c) && 1 <= level <= c.levels
    ensures c.info[level].shift >= 12
    decreases c.levels - level
  {
    if level < c.levels { ShiftAtLeast(c, level + 1); }
  }

  lemma IndexIsField(c: Config, level: nat, a: nat)
    requires GoodConfig(c) && 1 <= level <= c.levels && c.info[level].shift >= 12
    ensures Index(c, a, level) == a / Pow2(12) / Pow2(c.info[level].shift - 12) % Slots(c, level)
  {
    Pow2Add(12, c.info[level].shift - 12);
    DivDiv(a, Pow2(12), Pow2(c.info[level].shift - 12));
  }

  lemma SameParts(m: nat, a: nat, x: nat, b: nat, y: nat)
    requires m > 0 && x < m && y < m
    ensures a * m + x == b * m + y <==> a == b && x == y
  {
    Digits(a, x, m);
    Digits(b, y, m);
  }

  /** Two addresses use the same slots from a level down exactly when those bits of their page numbers agree. */
  lemma {:induction false} SameSlotsSamePage(c: Config, level: nat, a: nat, b: nat)
    requires GoodConfig(c) && 1 <= level <= c.levels
    ensures Top(c, level) >= 12 && (SameSlots(c, level, a, b) <==> PageBits(c, level, a) == PageBits(c, level, b))
    decreases c.levels - level
  {
    ShiftAtLeast(c, level);
    IndexIsField(c, level, a);
    IndexIsField(c, level, b);
    if level < c.levels {
      SameSlotsSamePage(c, level + 1, a, b);
      var s, pa, pb := c.info[level].shift - 12, a / Pow2(12), b / Pow2(12);
      SplitField(pa, c.info[level].bits, s);
      SplitField(pb, c.info[level].bits, s);
      SameParts(Pow2(s), pa / Pow2(s) % Slots(c, level), pa % Pow2(s), pb / Pow2(s) % Slots(c, level), pb % Pow2(s));
    } else {
      assert Pow2(0) == 1;
    }
  }

  /** For addresses below the top of the tree, the slots determine the page. */
  lemma SlotsDeterminePage(c: Config, a: nat, b: nat)
    requires GoodConfig(c) && a < Pow2(Top(c, 1)) && b < Pow2(Top(c, 1))
    ensures SameSlots(c, 1, a, b) <==> a / PAGE == b / PAGE
  {
    SameSlotsSamePage(c, 1, a, b);
    Pow2Add(12, Top(c, 1) - 12);
    Pow2Values();
    PageInTree(a, Pow2(Top(c, 1) - 12));
    PageInTree(b, Pow2(Top(c, 1) - 12));
  }

  lemma PageInTree(a: nat, pages: nat)
    requires pages > 0 && a < PAGE * pages
    ensures a / PAGE % pages == a / PAGE
  {
  }

  // ----- teardown

  /** The tables of the tree, children before parents: the order in which teardown frees them. */
  ghost function PostOrder(c: Config, mem: Memory, page: nat, level: nat): seq<nat>
    requires GoodConfig(c) && 1 <= level <= c.levels
    decreases c.levels - level, Slots(c, level) + 1
  {
    (if level < c.levels then PostUpTo(c, mem, page, level, Slots(c, level)) else []) + [page]
  }

  ghost function PostUpTo(c: Config, mem: Memory, page: nat, level: nat, k: nat): seq<nat>
    requires GoodConfig(c) && 1 <= level < c.levels && k <= Slots(c, level)
    decreases c.levels - level, k
  {
    if k == 0 then []
    else PostUpTo(c, mem, page, level, k - 1) + PostChild(c, mem, page, level, k - 1)
  }

  ghost function PostChild(c: Config, mem: Memory, page: nat, level: nat, i: nat): seq<nat>
    requires GoodConfig(c) && 1 <= level < c.levels && i < Slots(c, level)
    decreases c.levels - level, i
  {
    if HasChild(c, mem, page, level, i) then PostOrder(c, mem, Child(c, mem, page, level, i), level + 1) else []
  }

  lemma {:induction false} InPostOrder(c: Config, mem: Memory, page: nat, level: nat, p: nat)
    requires GoodConfig(c) && 1 <= level <= c.levels
    ensures p in PostOrder(c, mem, page, level) <==> p in Footprint(c, mem, page, level)
    decreases c.levels - level, Slots(c, level) + 1
  {
    if level < c.levels { InPostUpTo(c, mem, page, level, Slots(c, level), p); }
  }

  lemma {:induction false} InPostUpTo(c: Config, mem: Memory, page: nat, level: nat, k: nat, p: nat)
    requires GoodConfig(c) && 1 <= level < c.levels && k <= Slots(c, level)
    ensures p in PostUpTo(c, mem, page, level, k) <==> p in TablesBelow(c, mem, page, level, k)
    decreases c.levels - level, k
  {
    if k > 0 {
      InPostUpTo(c, mem, page, level, k - 1, p);
      if HasChild(c, mem, page, level, k - 1) {
        InPostOrder(c, mem, Child(c, mem, page, level, k - 1), level + 1, p);
      }
    }
  }

  lemma PostUpToIsBelow(c: Config, mem: Memory, page: nat, level: nat, k: nat)
    requires GoodConfig(c) && 1 <= level < c.levels && k <= Slots(c, level)
    ensures forall p :: p in PostUpTo(c, mem, page, level, k) <==> p in TablesBelow(c, mem, page, level, k)
  {
    forall p ensures p in PostUpTo(c, mem, page, level, k) <==> p in TablesBelow(c, mem, page, level, k) {
      InPostUpTo(c, mem, page, level, k, p);
    }
  }

  lemma PostOrderIsFootprint(c: Config, mem: Memory, page: nat, level: nat)
    requires GoodConfig(c) && 1 <= level <= c.levels
    ensures forall p :: p in PostOrder(c, mem, page, level) <==> p in Footprint(c, mem, page, level)
  {
    forall p ensures p in PostOrder(c, mem, page, level) <==> p in Footprint(c, mem, page, level) {
      InPostOrder(c, mem, page, level, p);
    }
  }

  lemma DistinctAppend<T>(a: seq<T>, b: seq<T>)
    requires Distinct(a) && Distinct(b) && forall x :: x in a ==> x !in b
    ensures Distinct(a + b)
  {
    var ab := a + b;
    forall k, l | 0 <= k < l < |ab| ensures ab[k] != ab[l] {
      if k < |a| <= l { assert ab[k] in a && ab[l] in b; }
    }
  }

  /** No table occurs twice. */
  lemma {:induction false} PostOrderDistinct(c: Config, mem: Memory, page: nat, level: nat)
    requires GoodConfig(c) && 1 <= level <= c.levels && ValidTable(c, mem, page, level)
    ensures Distinct(PostOrder(c, mem, page, level))
    decreases c.levels - level, Slots(c, level) + 1
  {
    if level < c.levels {
      PostUpToDistinct(c, mem, page, level, Slots(c, level));
      PostUpToIsBelow(c, mem, page, level, Slots(c, level));
      PageNotBelow(c, mem, page, level, Slots(c, level));
      DistinctAppend(PostUpTo(c, mem, page, level, Slots(c, level)), [page]);
    }
  }

  lemma PageNotBelow(c: Config, mem: Memory, page: nat, level: nat, k: nat)
    requires GoodConfig(c) && 1 <= level < c.levels && k <= Slots(c, level) && ValidTable(c, mem, page, level)
    ensures page !in TablesBelow(c, mem, page, level, k)
  {
    forall i | 0 <= i < k ensures page !in ChildFootprint(c, mem, page, level, i) {
      assert ValidSlot(c, mem, page, level, i);
    }
    if page in TablesBelow(c, mem, page, level, k) {
      var i := BelowFrom(c, mem, page, level, k, page);
      assert false;
    }
  }

  lemma ChildNotBelow(c: Config, mem: Memory, page: nat, level: nat, k: nat)
    requires GoodConfig(c) && 1 <= level < c.levels && k < Slots(c, level) && ValidTable(c, mem, page, level)
    ensures ChildFootprint(c, mem, page, level, k) !! TablesBelow(c, mem, page, level, k)
  {
    forall p | p in TablesBelow(c, mem, page, level, k) ensures p !in ChildFootprint(c, mem, page, level, k) {
      var i := BelowFrom(c, mem, page, level, k, p);
      assert Apart(c, mem, page, level, i, k);
    }
  }

  lemma {:induction false} PostUpToDistinct(c: Config, mem: Memory, page: nat, level: nat, k: nat)
    requires GoodConfig(c) && 1 <= level < c.levels && k <= Slots(c, level) && ValidTable(c, mem, page, level)
    ensures Distinct(PostUpTo(c, mem, page, level, k))
    decreases c.levels - level, k
  {
    if k > 0 {
      PostUpToDistinct(c, mem, page, level, k - 1);
      PostUpToIsBelow(c, mem, page, level, k - 1);
      if HasChild(c, mem, page, level, k - 1) {
        var child := Child(c, mem, page, level, k - 1);
        assert ValidSlot(c, mem, page, level, k - 1);
        ChildNotBelow(c, mem, page, level, k - 1);
        PostOrderDistinct(c, mem, child, level + 1);
        PostOrderIsFootprint(c, mem, child, level + 1);
        DistinctAppend(PostUpTo(c, mem, page, level, k - 1), PostOrder(c, mem, child, level + 1));
      }
    }
  }

  /** t is a table of level tl in the tree of page. */
  ghost predicate TableAt(c: Config, mem: Memory, page: nat, level: nat, t: nat, tl: nat)
    requires GoodConfig(c) && 1 <= level <= c.levels
    decreases c.levels - level, 1
  {
    (t == page && tl == level) || (level < c.levels && exists i: nat :: TableBelow(c, mem, page, level, i, t, tl))
  }

  ghost predicate TableBelow(c: Config, mem: Memory, page: nat, level: nat, i: nat, t: nat, tl: nat)
    requires GoodConfig(c) && 1 <= level < c.levels
    decreases c.levels - level, 0
  {
    i < Slots(c, level) && HasChild(c, mem, page, level, i) &&
    TableAt(c, mem, Child(c, mem, page, level, i), level + 1, t, tl)
  }

  ghost predicate Earlier(order: seq<nat>, x: nat, y: nat) {
    exists a, b :: 0 <= a < b < |order| && order[a] == x && order[b] == y
  }

  lemma EarlierWithin(a: seq<nat>, b: seq<nat>, c: seq<nat>, x: nat, y: nat)
    requires Earlier(b, x, y)
    ensures Earlier(a + b + c, x, y)
  {
    var k, l :| 0 <= k < l < |b| && b[k] == x && b[l] == y;
    var all := a + b + c;
    assert all[|a| + k] == x && all[|a| + l] == y;
  }

  /** What comes in order below slot i comes in that order below the first k slots. */
  lemma {:induction false} EarlierBelow(c: Config, mem: Memory, page: nat, level: nat, i: nat, k: nat, x: nat, y: nat)
    requires GoodConfig(c) && 1 <= level < c.levels && i < k <= Slots(c, level)
    requires Earlier(PostChild(c, mem, page, level, i), x, y)
    ensures Earlier(PostUpTo(c, mem, page, level, k), x, y)
  {
    var before, last := PostUpTo(c, mem, page, level, k - 1), PostChild(c, mem, page, level, k - 1);
    if i == k - 1 {
      EarlierWithin(before, last, [], x, y);
      assert before + last + [] == before + last;
    } else {
      EarlierBelow(c, mem, page, level, i, k - 1, x, y);
      EarlierWithin([], before, last, x, y);
      assert [] + before + last == before + last;
    }
  }

  lemma RootLast(c: Config, mem: Memory, page: nat, level: nat, i: nat)
    requires GoodConfig(c) && 1 <= level < c.levels && i < Slots(c, level) && HasChild(c, mem, page, level, i)
    ensures Earlier(PostOrder(c, mem, page, level), Child(c, mem, page, level, i), page)
  {
    var below, child := PostUpTo(c, mem, page, level, Slots(c, level)), Child(c, mem, page, level, i);
    InPostUpTo(c, mem, page, level, Slots(c, level), child);
    BelowHas(c, mem, page, level, Slots(c, level), i);
    var k :| 0 <= k < |below| && below[k] == child;
    assert (below + [page])[k] == child && (below + [page])[|below|] == page;
  }

  /** Every table of the tree comes after each of its children. */
  lemma {:induction false} ChildrenFirst(c: Config, mem: Memory, page: nat, level: nat, t: nat, tl: nat, i: nat)
    requires GoodConfig(c) && 1 <= level <= c.levels && TableAt(c, mem, page, level, t, tl)
    requires 1 <= tl < c.levels && i < Slots(c, tl) && HasChild(c, mem, t, tl, i)
    ensures Earlier(PostOrder(c, mem, page, level), Child(c, mem, t, tl, i), t)
    decreases c.levels - level
  {
    if t == page && tl == level {
      RootLast(c, mem, page, level, i);
    } else {
      var j: nat :| TableBelow(c, mem, page, level, j, t, tl);
      var below, child := PostUpTo(c, mem, page, level, Slots(c, level)), Child(c, mem, t, tl, i);
      ChildrenFirst(c, mem, Child(c, mem, page, level, j), level + 1, t, tl, i);
      EarlierBelow(c, mem, page, level, j, Slots(c, level), child, t);
      EarlierWithin([], below, [page], child, t);
      assert [] + below + [page] == PostOrder(c, mem, page, level);
    }
  }

  /** Children before parents, throughout the tree of page. */
  ghost predicate ChildrenBeforeParents(c: Config, mem: Memory, page: nat, order: seq<nat>)
    requires GoodConfig(c)
  {
    forall t: nat, tl: nat, i: nat {:trigger TableAt(c, mem, page, 1, t, tl), HasChild(c, mem, t, tl, i)} ::
      TableAt(c, mem, page, 1, t, tl) && 1 <= tl < c.levels && i < Slots(c, tl) && HasChild(c, mem, t, tl, i) ==>
        Earlier(order, Child(c, mem, t, tl, i), t)
  }

  lemma PostOrderChildrenFirst(c: Config, mem: Memory, page: nat)
    requires GoodConfig(c)
    ensures ChildrenBeforeParents(c, mem, page, PostOrder(c, mem, page, 1))
  {
    forall t: nat, tl: nat, i: nat
      | TableAt(c, mem, page, 1, t, tl) && 1 <= tl < c.levels && i < Slots(c, tl) && HasChild(c, mem, t, tl, i)
      ensures Earlier(PostOrder(c, mem, page, 1), Child(c, mem, t, tl, i), t)
    {
      ChildrenFirst(c, mem, page, 1, t, tl, i);
    }
  }

  /** The order depends only on the tables in it. */
  lemma {:induction false} PostOrderFrame(c: Config, mem: Memory, other: Memory, page: nat, level: nat)
    requires GoodConfig(c) && 1 <= level <= c.levels
    requires ValidTable(c, mem, page, level) && Agree(mem, other, Footprint(c, mem, page, level))
    ensures PostOrder(c, other, page, level) == PostOrder(c, mem, page, level)
    decreases c.levels - level, Slots(c, level) + 1
  {
    assert page in Footprint(c, mem, page, level);
    if level < c.levels { PostUpToFrame(c, mem, other, page, level, Slots(c, level)); }
  }

  lemma {:induction false} PostUpToFrame(c: Config, mem: Memory, other: Memory, page: nat, level: nat, k: nat)
    requires GoodConfig(c) && 1 <= level < c.levels && k <= Slots(c, level)
    requires ValidTable(c, mem, page, level) && Agree(mem, other, Footprint(c, mem, page, level))
    ensures PostUpTo(c, other, page, level, k) == PostUpTo(c, mem, page, level, k)
    decreases c.levels - level, k
  {
    if k > 0 {
      PostUpToFrame(c, mem, other, page, level, k - 1);
      assert page in Footprint(c, mem, page, level);
      assert ValidSlot(c, mem, page, level, k - 1);
      ChildInFootprint(c, mem, page, level, k - 1);
      if HasChild(c, mem, page, level, k - 1) {
        PostOrderFrame(c, mem, other, Child(c, mem, page, level, k - 1), level + 1);
      }
    }
  }

  // ----- the two configurations

  /** User addresses lie below the top of the tree and use no kernel slot. */
  ghost predicate UserOutsideKernel(c: Config)
    requires GoodConfig(c)
  {
    && c.levels >= 2
    && forall va {:trigger Index(c, va, 1)} :: c.userStart <= va < c.userEnd ==>
         !KernelSlot(c, Index(c, va, 1)) && va < Pow2(Top(c, 1))
  }

  /** __x86_64__: four levels of 512 entries; 512 GiB for the kernel, 512 GiB for the user. */
  function X86_64(): Config {
    Config(4, [PtInfo(0, 0, 0), PtInfo(0xff80_0000_0000, 39, 9), PtInfo(0x7f_c000_0000, 30, 9),
               PtInfo(0x3fe0_0000, 21, 9), PtInfo(0x1f_f000, 12, 9)],
           [SlotRange(0, 1)], 0x1000_0000_0000, 0x1080_0000_0000)
  }

  /** i386: two levels of 1024 entries; the kernel has the first GiB and what lies above 0xfd000000. */
  function X86_32(): Config {
    Config(2, [PtInfo(0, 0, 0), PtInfo(0xffc0_0000, 22, 10), PtInfo(0x3f_f000, 12, 10)],
           [SlotRange(0, 256), SlotRange(1012, 1024)], 0x4000_0000, 0x8000_0000)
  }

  lemma Pow2Values()
    ensures Pow2(9) == 512 && Pow2(10) == 1024 && Pow2(12) == 4096 && Pow2(21) == 0x20_0000 && Pow2(22) == 0x40_0000
    ensures Pow2(30) == 0x4000_0000 && Pow2(32) == 0x1_0000_0000 && Pow2(39) == 0x80_0000_0000
    ensures Pow2(48) == 0x1_0000_0000_0000
  {
  }

  lemma X86_64Levels()
    ensures GoodConfig(X86_64())
  {
    Pow2Values();
  }

  lemma UserSlot64(va: nat)
    requires 0x1000_0000_0000 <= va < 0x1080_0000_0000
    ensures Index(X86_64(), va, 1) == 32 && !KernelSlot(X86_64(), 32)
  {
    Pow2Values();
    DivModUnique(va, 0x80_0000_0000, 32, va - 0x1000_0000_0000);
  }

  lemma X86_64Good()
    ensures GoodConfig(X86_64()) && UserOutsideKernel(X86_64())
  {
    X86_64Levels();
    Pow2Values();
    forall va | 0x1000_0000_0000 <= va < 0x1080_0000_0000
      ensures !KernelSlot(X86_64(), Index(X86_64(), va, 1))
    {
      UserSlot64(va);
    }
  }

  lemma UserSlot32(va: nat)
    requires 0x4000_0000 <= va < 0x8000_0000
    ensures 256 <= Index(X86_32(), va, 1) < 512
  {
    Pow2Values();
    var q := va / 0x40_0000;
    assert 256 <= q < 512;
    Digits(0, q, 1024);
  }

  lemma X86_32Good()
    ensures GoodConfig(X86_32()) && UserOutsideKernel(X86_32())
  {
    Pow2Values();
    forall va | 0x4000_0000 <= va < 0x8000_0000 ensures !KernelSlot(X86_32(), Index(X86_32(), va, 1)) {
      UserSlot32(va);
    }
  }
}
