/** The address space operations of x86/qemu/vme.c, on the page tables they write in place. */
module Vme {
  import opened Pigeonhole
  import opened Arithmetic
  import opened PageTables

  datatype Outcome = Done | BadRange | Unaligned | NoPages | NotMapped | AlreadyMapped

  /** The arguments of one map call. */
  datatype Request = Request(va: nat, pa: nat, prot: nat)

  /** Memory and free pages after map calls, and what the last one came to. */
  datatype Mapping = Mapping(mem: Memory, free: seq<nat>, outcome: Outcome)

  class AddressSpace {
    const c: Config
    const kpt: nat                    // the kernel's root table
    ghost const kernelPages: set<nat> // the tables that kernel translations go through

    var mem: Memory                   // page tables, by page address
    var free: seq<nat>                // the pages that pgalloc will return
    var freed: seq<nat>               // the pages given to pgfree, in order
    var ptr: nat                      // as->ptr

    constructor (c: Config, kpt: nat, ghost kernelPages: set<nat>, mem: Memory, free: seq<nat>)
      ensures this.c == c && this.kpt == kpt && this.kernelPages == kernelPages
      ensures this.mem == mem && this.free == free && freed == [] && ptr == 0
    {
      this.c, this.kpt, this.kernelPages := c, kpt, kernelPages;
      this.mem, this.free, freed, ptr := mem, free, [], 0;
    }

    /** The kernel's tables are in place, closed under walks, and not marked for users. */
    ghost predicate KernelIn(m: Memory) {
      && GoodConfig(c) && UserOutsideKernel(c)
      && kernelPages <= m.Keys && kpt in kernelPages && HasTable(c, m, kpt, 1)
      && (forall k :: 0 <= k < |c.kernel| ==> c.kernel[k].first <= c.kernel[k].last <= Slots(c, 1))
      && forall i :: 0 <= i < Slots(c, 1) && KernelSlot(c, i) ==>
           && !User(m[kpt][i])
           && (Present(m[kpt][i]) && !Huge(m[kpt][i]) ==> Closed(c, m, kernelPages, Base(m[kpt][i]), 2))
    }

    ghost predicate Ready()
      reads this
    {
      KernelIn(mem) && FreePages(mem, free)
    }

    function Root(): nat
      reads this
    {
      Base(ptr)
    }

    /** The tables of the address space form a tree; its kernel slots are the kernel's. */
    ghost predicate Valid()
      reads this
    {
      && Ready()
      && ptr == Entry(Root(), PTE_P + PTE_U)
      && ValidTable(c, mem, Root(), 1)
      && Footprint(c, mem, Root(), 1) !! kernelPages
      && forall i :: 0 <= i < Slots(c, 1) && KernelSlot(c, i) ==> mem[Root()][i] == mem[kpt][i]
    }

    /** What the hardware makes of an address once CR3 is as->ptr. */
    ghost function Translate(va: nat): Translation
      reads this
      requires GoodConfig(c)
    {
      Walk(c, mem, Root(), 1, va)
    }

    /** The table pages of the address space. */
    ghost function Tables(): set<nat>
      reads this
      requires GoodConfig(c)
    {
      Footprint(c, mem, Root(), 1)
    }

    ghost predicate UserAddress(va: nat) {
      c.userStart <= va < c.userEnd
    }

    /** A change that touches neither the kernel's tables nor the root's kernel slots keeps kernel translations. */
    lemma KernelWalk(m: Memory, other: Memory, root: nat, va: nat)
      requires KernelIn(m) && HasTable(c, m, root, 1) && HasTable(c, other, root, 1)
      requires KernelSlot(c, Index(c, va, 1))
      requires other[root][Index(c, va, 1)] == m[root][Index(c, va, 1)] == m[kpt][Index(c, va, 1)]
      requires Agree(m, other, kernelPages)
      ensures Walk(c, other, root, 1, va) == Walk(c, m, kpt, 1, va)
      ensures Walk(c, m, root, 1, va) == Walk(c, m, kpt, 1, va)
    {
      var e := m[kpt][Index(c, va, 1)];
      if Present(e) && !Huge(e) { WalkFrame(c, m, other, kernelPages, Base(e), 2, va); }
    }

    lemma KernelInFrame(m: Memory, other: Memory)
      requires KernelIn(m) && Agree(m, other, kernelPages)
      ensures KernelIn(other)
    {
      forall i | 0 <= i < Slots(c, 1) && KernelSlot(c, i) && Present(m[kpt][i]) && !Huge(m[kpt][i])
        ensures Closed(c, other, kernelPages, Base(m[kpt][i]), 2)
      {
        ClosedFrame(c, m, other, kernelPages, Base(m[kpt][i]), 2);
      }
    }

    /** One round of the loop of ptwalk: the table below slot index of cur, allocated if it is missing. */
    method PtStep(cur: nat, level: nat, va: nat) returns (ok: bool, next: nat)
      requires GoodConfig(c) && 1 <= level < c.levels && ValidTable(c, mem, cur, level) && FreePages(mem, free)
      requires Own(c, level, Index(c, va, level))
      modifies this`mem, this`free
      ensures ok ==> WalkAlloc(c, mem, free, next, level + 1, va) == WalkAlloc(c, old(mem), old(free), cur, level, va)
      ensures ok ==> ValidTable(c, mem, next, level + 1) && FreePages(mem, free)
      ensures !ok ==>
                next == cur && WalkResult(false, mem, free, cur) == WalkAlloc(c, old(mem), old(free), cur, level, va)
    {
      var index := Index(c, va, level);
      if !Present(mem[cur][index]) {
        if free == [] {
          return false, cur;
        }
        GrownByOne(c, mem, free, cur, level, index);
        next := free[0];
        free := free[1..];
        mem := mem[next := Zeros(Slots(c, level + 1))];
        var entries: seq<nat> := mem[cur][index := Entry(next, PTE_P + PTE_W + PTE_U)];
        mem := mem[cur := entries];
      } else {
        assert ValidSlot(c, mem, cur, level, index);
        next := Base(mem[cur][index]);
      }
      ok := true;
    }

    /** ptwalk(as, va, PTE_W | PTE_U): the last-level table for va, with the missing tables allocated. */
    method PtWalk(va: nat) returns (ok: bool, table: nat)
      requires Valid() && UserAddress(va)
      modifies this`mem, this`free
      ensures WalkResult(ok, mem, free, table) == WalkAlloc(c, old(mem), old(free), Root(), 1, va)
    {
      var cur, i := Root(), 1;
      ok := true;
      while i < c.levels && ok
        invariant 1 <= i <= c.levels
        invariant ok ==> WalkAlloc(c, mem, free, cur, i, va) == WalkAlloc(c, old(mem), old(free), Root(), 1, va)
        invariant ok ==> ValidTable(c, mem, cur, i) && FreePages(mem, free)
        invariant Own(c, i, Index(c, va, i))
        invariant !ok ==> WalkResult(false, mem, free, cur) == WalkAlloc(c, old(mem), old(free), Root(), 1, va)
        decreases c.levels - i, ok
      {
        ok, cur := PtStep(cur, i, va);
        if ok {
          i := i + 1;
        }
      }
      table := cur;
    }

    /** After the walk for va the address space is valid again and every translation is as before. */
    lemma WalkKeepsValid(m: Memory, f: seq<nat>, root: nat, va: nat)
      requires KernelIn(m) && FreePages(m, f) && ValidTable(c, m, root, 1) && Footprint(c, m, root, 1) !! kernelPages
      requires forall i :: 0 <= i < Slots(c, 1) && KernelSlot(c, i) ==> m[root][i] == m[kpt][i]
      requires UserAddress(va)
      ensures var r := WalkAlloc(c, m, f, root, 1, va);
              && KernelIn(r.mem) && FreePages(r.mem, r.free) && ValidTable(c, r.mem, root, 1)
              && Footprint(c, r.mem, root, 1) !! kernelPages
              && (r.ok <==> Missing(c, m, root, 1, va) <= |f|)
              && r.free == f[if r.ok then Missing(c, m, root, 1, va) else |f|..]
              && Footprint(c, r.mem, root, 1) == Footprint(c, m, root, 1) + Taken(f, r.free)
              && (forall i :: 0 <= i < Slots(c, 1) && KernelSlot(c, i) ==> r.mem[root][i] == r.mem[kpt][i])
              && (r.ok ==> Leads(c, r.mem, root, 1, va, r.table))
              && forall probe {:trigger Walk(c, r.mem, root, 1, probe)} ::
                   Walk(c, r.mem, root, 1, probe) == Walk(c, m, root, 1, probe)
    {
      var r := WalkAlloc(c, m, f, root, 1, va);
      assert Own(c, 1, Index(c, va, 1));
      WalkAllocGrown(c, m, f, root, 1, va);
      WalkAllocTakes(c, m, f, root, 1, va);
      KernelInFrame(m, r.mem);
      WalkKeepsKernelSlots(c, m, f, root, va);
      forall probe ensures Walk(c, r.mem, root, 1, probe) == Walk(c, m, root, 1, probe) {
        if KernelSlot(c, Index(c, probe, 1)) {
          KernelWalk(m, r.mem, root, probe);
        } else {
          WalkAllocKeeps(c, m, f, root, 1, va, probe);
        }
      }
    }

    /** Writing the last-level entry of va keeps the address space valid and changes one page's translation. */
    lemma SetKeepsValid(m: Memory, root: nat, va: nat, table: nat, e: nat)
      requires KernelIn(m) && ValidTable(c, m, root, 1) && Footprint(c, m, root, 1) !! kernelPages
      requires forall i :: 0 <= i < Slots(c, 1) && KernelSlot(c, i) ==> m[root][i] == m[kpt][i]
      requires UserAddress(va) && Leads(c, m, root, 1, va, table) && HasTable(c, m, table, c.levels)
      ensures var other := SetEntry(m, table, Index(c, va, c.levels), e);
              && KernelIn(other) && ValidTable(c, other, root, 1)
              && Footprint(c, other, root, 1) == Footprint(c, m, root, 1)
              && (forall i :: 0 <= i < Slots(c, 1) && KernelSlot(c, i) ==> other[root][i] == other[kpt][i])
              && Leads(c, other, root, 1, va, table)
              && forall probe {:trigger Walk(c, other, root, 1, probe)} ::
                   Walk(c, other, root, 1, probe)
                   == if SameSlots(c, 1, va, probe) then Leaf(c, e) else Walk(c, m, root, 1, probe)
    {
      var other := SetEntry(m, table, Index(c, va, c.levels), e);
      assert Own(c, 1, Index(c, va, 1));
      LeadsIntoFootprint(c, m, root, 1, va, table);
      SetEntryValid(c, m, root, 1, va, table, e);
      KernelInFrame(m, other);
      LastLevelNotRoot(c, m, root, va, table);
      forall probe
        ensures Walk(c, other, root, 1, probe)
                == if SameSlots(c, 1, va, probe) then Leaf(c, e) else Walk(c, m, root, 1, probe)
      {
        if KernelSlot(c, Index(c, probe, 1)) {
          KernelWalk(m, other, root, probe);
        } else {
          SetEntryWalk(c, m, root, 1, va, table, e, probe);
        }
      }
    }

    predicate PageAligned(a: nat) { a == Base(a) }

    /** The entry that map writes. */
    function MappedEntry(pa: nat, prot: nat): nat {
      pa + PTE_P + PTE_U + if prot / 2 % 2 == 1 then PTE_W else 0
    }

    lemma MappedEntryMeans(pa: nat, prot: nat)
      requires PageAligned(pa) && c.levels >= 1
      ensures Leaf(c, MappedEntry(pa, prot)) == Maps(pa, prot / 2 % 2 == 1, true, c.levels)
    {
      var k, flags := pa / PAGE, if prot / 2 % 2 == 1 then 7 else 5;
      Digits(k, flags, PAGE);
      Digits(2048 * k + flags / 2, 1, 2);
      Digits(1024 * k + 1, flags % 4, 4);
      Digits(1024 * k + 1, flags / 2 % 2, 2);
      Digits(512 * k, 1, 2);
    }

    /** How many tables are missing on the path to va: at most one a level below the root. */
    function MissingTables(va: nat): (n: nat)
      reads this
      requires GoodConfig(c)
      ensures n < c.levels
    {
      Missing(c, mem, Root(), 1, va)
    }

    /** What map comes to, by the address space before it. */
    ghost function MapOutcome(va: nat, pa: nat, prot: nat): Outcome
      reads this
      requires GoodConfig(c)
    {
      if !UserAddress(va) then BadRange
      else if !PageAligned(va) || !PageAligned(pa) then Unaligned
      else if |free| < MissingTables(va) then NoPages
      else if prot == 0 then (if Translate(va) == Fault then NotMapped else Done)
      else if Translate(va) == Fault then Done else AlreadyMapped
    }

    /** What one map call makes of memory and free pages: the walk's tables, and the entry if it is written. */
    ghost function Mapped(mem: Memory, free: seq<nat>, root: nat, q: Request): Mapping
      requires GoodConfig(c)
    {
      if !UserAddress(q.va) then Mapping(mem, free, BadRange)
      else if !PageAligned(q.va) || !PageAligned(q.pa) then Mapping(mem, free, Unaligned)
      else
        var w := WalkAlloc(c, mem, free, root, 1, q.va);
        if !w.ok || !HasTable(c, w.mem, w.table, c.levels) then Mapping(w.mem, w.free, NoPages)
        else if Walk(c, mem, root, 1, q.va) == Fault <==> q.prot == 0 then
          Mapping(w.mem, w.free, if q.prot == 0 then NotMapped else AlreadyMapped)
        else Mapping(Written(w.mem, w.table, q), w.free, Done)
    }

    /** Memory with the entry of a request written in its last-level table. */
    ghost function Written(mem: Memory, table: nat, q: Request): Memory
      requires GoodConfig(c) && HasTable(c, mem, table, c.levels)
    {
      SetEntry(mem, table, Index(c, q.va, c.levels), if q.prot == 0 then 0 else MappedEntry(q.pa, q.prot))
    }

    /**
     * map(as, va, pa, prot): maps va to pa with the rights of prot, or unmaps va when prot is MMAP_NONE.
     * Every outcome but Done is a panic of the source, and changes no translation. It takes a free page for each
     * table that is missing, at most one a level.
     */
    method Map(va: nat, pa: nat, prot: nat) returns (r: Outcome)
      requires Valid()
      modifies this`mem, this`free
      ensures Valid() && Root() == old(Root())
      ensures r == old(MapOutcome(va, pa, prot))
      ensures Mapping(mem, free, r) == old(Mapped(mem, free, Root(), Request(va, pa, prot)))
      ensures free == if r == BadRange || r == Unaligned then old(free)
                      else if r == NoPages then [] else old(free)[old(MissingTables(va))..]
      ensures |free| <= |old(free)| && free == old(free)[|old(free)| - |free|..]
      ensures Tables() == old(Tables()) + Taken(old(free), free)
      ensures r == Done ==> forall probe {:trigger Translate(probe)} ::
                Translate(probe) == if !SameSlots(c, 1, va, probe) then old(Translate(probe))
                                    else if prot == 0 then Fault else Maps(pa, prot / 2 % 2 == 1, true, c.levels)
      ensures r != Done ==> forall probe {:trigger Translate(probe)} :: Translate(probe) == old(Translate(probe))
    {
      if !(c.userStart <= va && va < c.userEnd) {
        return BadRange;
      }
      if va != Base(va) || pa != Base(pa) {
        return Unaligned;
      }
      var ok, table := WalkTo(va);
      if !ok {
        return NoPages;
      }
      r := SetMapping(va, pa, prot, table);
      if r == Done {
        WalkAgain(va, table);
      }
    }

    /** The first ptwalk of map: the missing tables are added, and no translation changes. */
    method WalkTo(va: nat) returns (ok: bool, table: nat)
      requires Valid() && UserAddress(va)
      modifies this`mem, this`free
      ensures Valid() && Root() == old(Root()) && (ok ==> Leads(c, mem, Root(), 1, va, table))
      ensures WalkResult(ok, mem, free, table) == WalkAlloc(c, old(mem), old(free), Root(), 1, va)
      ensures ok <==> old(MissingTables(va)) <= |old(free)|
      ensures free == old(free)[if ok then old(MissingTables(va)) else |old(free)|..]
      ensures Tables() == old(Tables()) + Taken(old(free), free)
      ensures forall probe {:trigger Translate(probe)} :: Translate(probe) == old(Translate(probe))
    {
      WalkKeepsValid(mem, free, Root(), va);
      ok, table := PtWalk(va);
    }

    /** The second ptwalk of map finds the table again and changes nothing. */
    method WalkAgain(va: nat, ghost table: nat)
      requires Valid() && UserAddress(va) && Leads(c, mem, Root(), 1, va, table)
      modifies this`mem, this`free
      ensures mem == old(mem) && free == old(free)
    {
      WalkPresent(c, mem, free, Root(), 1, va, table);
      var ok, again := PtWalk(va);
    }

    /** The part of map behind ptwalk: checks and writes the entry of va in its last-level table. */
    method SetMapping(va: nat, pa: nat, prot: nat, table: nat) returns (r: Outcome)
      requires Valid() && UserAddress(va) && PageAligned(pa) && Leads(c, mem, Root(), 1, va, table)
      modifies this`mem
      ensures Valid() && Tables() == old(Tables()) && Leads(c, mem, Root(), 1, va, table)
      ensures r == if prot == 0 then (if old(Translate(va)) == Fault then NotMapped else Done)
                   else (if old(Translate(va)) == Fault then Done else AlreadyMapped)
      ensures HasTable(c, old(mem), table, c.levels)
      ensures r == Done ==> mem == Written(old(mem), table, Request(va, pa, prot))
      ensures r == Done ==> forall probe {:trigger Translate(probe)} ::
                Translate(probe) == if !SameSlots(c, 1, va, probe) then old(Translate(probe))
                                    else if prot == 0 then Fault else Maps(pa, prot / 2 % 2 == 1, true, c.levels)
      ensures r != Done ==> mem == old(mem)
    {
      ghost var root := Root();
      LeafOfPath(c, mem, root, 1, va, table);
      var index := Index(c, va, c.levels);
      var e := mem[table][index];
      LeadsIntoFootprint(c, mem, root, 1, va, table);
      assert forall p :: p in free ==> p != table;
      if prot == 0 {
        if !Present(e) {
          return NotMapped;
        }
        SetKeepsValid(mem, root, va, table, 0);
        mem := SetEntry(mem, table, index, 0);
      } else {
        if Present(e) {
          return AlreadyMapped;
        }
        var pte := MappedEntry(pa, prot);
        MappedEntryMeans(pa, prot);
        SetKeepsValid(mem, root, va, table, pte);
        mem := SetEntry(mem, table, index, pte);
      }
      r := Done;
    }

    /**
     * teardown(level, pt): frees the tables of the tree at pt, each once, children before parents.
     * A freed page is gone from memory, so no freed table is read.
     */
    method Teardown(level: nat, page: nat)
      requires GoodConfig(c) && level >= 1
      requires level <= c.levels ==> ValidTable(c, mem, page, level)
      requires level == 1 ==> forall i :: 0 <= i < Slots(c, 1) && KernelSlot(c, i) ==> !User(mem[page][i])
      modifies this`mem, this`freed
      ensures level <= c.levels ==>
                freed == old(freed) + PostOrder(c, old(mem), page, level)
                && mem == old(mem) - Footprint(c, old(mem), page, level)
      ensures level > c.levels ==> freed == old(freed) && mem == old(mem)
      decreases c.levels + 1 - level
    {
      if level > c.levels {
        return;
      }
      ghost var m := mem;
      var index := 0;
      while index < Slots(c, level)
        invariant index <= Slots(c, level)
        invariant level == c.levels ==> mem == m && freed == old(freed)
        invariant level < c.levels ==>
                    freed == old(freed) + PostUpTo(c, m, page, level, index)
                    && mem == m - TablesBelow(c, m, page, level, index)
      {
        TeardownSlot(level, page, index, m, old(freed));
        index := index + 1;
      }
      // pgfree
      freed := freed + [page];
      mem := mem - {page};
    }

    /** One round of the loop of teardown. */
    method TeardownSlot(level: nat, page: nat, index: nat, ghost m: Memory, ghost before: seq<nat>)
      requires GoodConfig(c) && 1 <= level <= c.levels && ValidTable(c, m, page, level) && index < Slots(c, level)
      requires level == 1 ==> forall i :: 0 <= i < Slots(c, 1) && KernelSlot(c, i) ==> !User(m[page][i])
      requires level == c.levels ==> mem == m && freed == before
      requires level < c.levels ==>
                 freed == before + PostUpTo(c, m, page, level, index)
                 && mem == m - TablesBelow(c, m, page, level, index)
      modifies this`mem, this`freed
      ensures level == c.levels ==> mem == m && freed == before
      ensures level < c.levels ==>
                freed == before + PostUpTo(c, m, page, level, index + 1)
                && mem == m - TablesBelow(c, m, page, level, index + 1)
      decreases c.levels + 1 - level, 0
    {
      if level < c.levels {
        PageNotBelow(c, m, page, level, index);
      }
      assert mem[page] == m[page];
      var e := mem[page][index];
      if level < c.levels {
        assert ValidSlot(c, m, page, level, index);
        ChildNotBelow(c, m, page, level, index);
        if HasChild(c, m, page, level, index) {
          FullEntry(Child(c, m, page, level, index));
          FootprintFrame(c, m, mem, Base(e), level + 1);
          PostOrderFrame(c, m, mem, Base(e), level + 1);
        }
      }
      if Present(e) && User(e) {
        Teardown(level + 1, Base(e));
      }
    }

    /** The kernel's entries in its slots of the root, and zeros in the others. */
    ghost function RootEntries(mem: Memory): (entries: seq<nat>)
      requires GoodConfig(c) && HasTable(c, mem, kpt, 1)
    {
      seq(Slots(c, 1), i requires 0 <= i < Slots(c, 1) => if KernelSlot(c, i) then mem[kpt][i] else 0)
    }

    /** protect(as): a new root that shares the kernel's level-1 slots and maps nothing for the user. */
    method Protect() returns (r: Outcome)
      requires Ready()
      modifies this`mem, this`free, this`ptr
      ensures r == (if old(free) == [] then NoPages else Done) && free == if r == Done then old(free)[1..] else []
      ensures mem == if r == Done then old(mem)[old(free)[0] := RootEntries(old(mem))] else old(mem)
      ensures r == Done ==> Valid() && Root() == old(free)[0] && Tables() == {Root()} && Root() !in old(mem)
      ensures r == Done ==> forall va {:trigger Translate(va)} ::
                Translate(va) == if KernelSlot(c, Index(c, va, 1)) then Walk(c, old(mem), kpt, 1, va) else Fault
    {
      if free == [] {
        return NoPages;
      }
      ghost var before, pages := mem, free;
      var upt: nat := free[0];
      free := free[1..];
      mem := mem[upt := Zeros(Slots(c, 1))];
      var k := 0;
      while k < |c.kernel|
        invariant 0 <= k <= |c.kernel|
        invariant CopiedUpTo(mem, before, upt, k, if k < |c.kernel| then c.kernel[k].first else 0)
        modifies this`mem
      {
        CopyRange(k, upt, before);
        k := k + 1;
      }
      ptr := upt + PTE_P + PTE_U;
      RootFlags(upt);
      CopiedAll(mem, before, upt);
      ProtectedIsValid(mem, before, upt);
      forall j | 0 <= j < |free| ensures free[j] % PAGE == 0 && free[j] !in mem {
        assert free[j] == pages[j + 1] && free[j] != upt && free[j] !in before;
        assert (mem - {upt}).Keys == before.Keys;
      }
      r := Done;
    }

    /** Copies one range of the kernel's level-1 entries. */
    method CopyRange(k: nat, upt: nat, ghost before: Memory)
      requires k < |c.kernel| && CopiedUpTo(mem, before, upt, k, c.kernel[k].first)
      modifies this`mem
      ensures CopiedUpTo(mem, before, upt, k + 1, if k + 1 < |c.kernel| then c.kernel[k + 1].first else 0)
    {
      var index := c.kernel[k].first;
      while index < c.kernel[k].last
        invariant c.kernel[k].first <= index <= c.kernel[k].last
        invariant CopiedUpTo(mem, before, upt, k, index)
      {
        assert (mem - {upt})[kpt] == before[kpt];
        var entries: seq<nat> := mem[upt][index := mem[kpt][index]];
        mem := mem[upt := entries];
        index := index + 1;
      }
    }

    /** upt holds the kernel's entries in the first k ranges and in range k below index, and zeros elsewhere. */
    ghost predicate CopiedUpTo(m: Memory, before: Memory, upt: nat, k: nat, index: nat) {
      && KernelIn(before) && upt !in before && HasTable(c, m, upt, 1) && m - {upt} == before
      && forall i :: 0 <= i < Slots(c, 1) ==> m[upt][i] == if CopiedSlot(k, index, i) then before[kpt][i] else 0
    }

    ghost predicate CopiedSlot(k: nat, index: nat, i: nat) {
      || (exists j :: 0 <= j < k && j < |c.kernel| && c.kernel[j].first <= i < c.kernel[j].last)
      || (k < |c.kernel| && c.kernel[k].first <= i < index)
    }

    lemma CopiedAll(m: Memory, before: Memory, upt: nat)
      requires CopiedUpTo(m, before, upt, |c.kernel|, 0)
      ensures m == before[upt := RootEntries(before)]
    {
      forall i | 0 <= i < Slots(c, 1) ensures m[upt][i] == RootEntries(before)[i] {
        assert CopiedSlot(|c.kernel|, 0, i) <==> KernelSlot(c, i);
      }
      assert m[upt] == RootEntries(before);
      forall p ensures p in m <==> p in before[upt := RootEntries(before)] {
        if p != upt { assert p in m <==> p in m - {upt}; }
      }
      forall p | p in m && p != upt ensures m[p] == before[p] { assert p in m - {upt}; }
    }

    lemma ProtectedIsValid(m: Memory, before: Memory, upt: nat)
      requires CopiedUpTo(m, before, upt, |c.kernel|, 0) && upt % PAGE == 0
      ensures KernelIn(m) && ValidTable(c, m, upt, 1) && Footprint(c, m, upt, 1) == {upt}
      ensures upt !in kernelPages
      ensures forall i :: 0 <= i < Slots(c, 1) && KernelSlot(c, i) ==> m[upt][i] == m[kpt][i]
      ensures forall va {:trigger Walk(c, m, upt, 1, va)} ::
                Walk(c, m, upt, 1, va) == if KernelSlot(c, Index(c, va, 1)) then Walk(c, before, kpt, 1, va) else Fault
    {
      forall i | 0 <= i < Slots(c, 1) ensures m[upt][i] == if KernelSlot(c, i) then before[kpt][i] else 0 {
        assert CopiedSlot(|c.kernel|, 0, i) <==> KernelSlot(c, i);
      }
      assert forall p :: p in before ==> p in m && m[p] == before[p];
      KernelInFrame(before, m);
      NoChildren(c, m, upt, 1);
      forall va
        ensures Walk(c, m, upt, 1, va) == if KernelSlot(c, Index(c, va, 1)) then Walk(c, before, kpt, 1, va) else Fault
      {
        if KernelSlot(c, Index(c, va, 1)) {
          KernelWalk(m, m, upt, va);
          KernelWalk(before, m, kpt, va);
        }
      }
    }

    /** unprotect(as): frees every table of the address space. */
    method Unprotect()
      requires Valid()
      modifies this`mem, this`freed
      ensures var order := PostOrder(c, old(mem), Root(), 1);
              && freed == old(freed) + order && Distinct(order)
              && (forall p :: p in order <==> p in old(Tables()))
              && ChildrenBeforeParents(c, old(mem), Root(), order)
      ensures mem == old(mem) - old(Tables()) && KernelIn(mem)
    {
      ghost var m := mem;
      PostOrderDistinct(c, m, Root(), 1);
      PostOrderIsFootprint(c, m, Root(), 1);
      PostOrderChildrenFirst(c, m, Root());
      RootFlags(Root());
      // teardown(0, &as->ptr): the one slot of level 0 is as->ptr itself
      if Present(ptr) && User(ptr) {
        Teardown(1, Base(ptr));
      }
      KernelInFrame(m, mem);
    }

    /** The tables of the address space are the pages that pgalloc handed out of pool. */
    ghost predicate Accounted(pool: seq<nat>)
      reads this
    {
      Valid() && |free| <= |pool| && free == pool[|pool| - |free|..] && Tables() == Taken(pool, free)
    }

    /** One map call, by what it makes of memory and free pages. */
    method MapRequest(q: Request) returns (r: Outcome)
      requires Valid()
      modifies this`mem, this`free
      ensures Valid() && Root() == old(Root())
      ensures Mapping(mem, free, r) == Mapped(old(mem), old(free), Root(), q)
      ensures |free| <= |old(free)| && free == old(free)[|old(free)| - |free|..]
      ensures Tables() == old(Tables()) + Taken(old(free), free)
    {
      r := Map(q.va, q.pa, q.prot);
    }

    method MapAccounted(q: Request, ghost pool: seq<nat>) returns (r: Outcome)
      requires Accounted(pool)
      modifies this`mem, this`free
      ensures Accounted(pool) && Root() == old(Root())
      ensures Mapping(mem, free, r) == Mapped(old(mem), old(free), Root(), q)
    {
      ghost var before, tables := free, Tables();
      r := MapRequest(q);
      TakenMore(pool, before, free, tables, Tables());
    }

    /** What map calls, until one panics, make of memory and free pages. */
    ghost function MappedAll(m: Mapping, root: nat, requests: seq<Request>): Mapping
      requires GoodConfig(c)
      decreases |requests|
    {
      if requests == [] || m.outcome != Done then m
      else MappedAll(Mapped(m.mem, m.free, root, requests[0]), root, requests[1..])
    }

    /** Map calls until one panics. */
    method MapAll(requests: seq<Request>, ghost pool: seq<nat>) returns (r: Outcome)
      requires Accounted(pool)
      modifies this`mem, this`free
      ensures Accounted(pool) && Root() == old(Root())
      ensures Mapping(mem, free, r) == MappedAll(Mapping(old(mem), old(free), Done), Root(), requests)
      decreases |requests|
    {
      r := Done;
      if requests != [] {
        r := MapAccounted(requests[0], pool);
        if r == Done {
          r := MapAll(requests[1..], pool);
        }
      }
    }

    /** Memory, free pages and outcome of protect and the map calls behind it. */
    ghost function Opened(mem: Memory, free: seq<nat>, requests: seq<Request>): Mapping
      requires KernelIn(mem)
    {
      if free == [] then Mapping(mem, free, NoPages)
      else MappedAll(Mapping(mem[free[0] := RootEntries(mem)], free[1..], Done), free[0], requests)
    }

    /** protect, and map calls until one panics. */
    method Open(requests: seq<Request>) returns (r: Outcome)
      requires Ready()
      modifies this`mem, this`free, this`ptr
      ensures Mapping(mem, free, r) == Opened(old(mem), old(free), requests)
      ensures |free| <= |old(free)| && free == old(free)[|old(free)| - |free|..]
      ensures r == Done ==> old(free) != [] && Accounted(old(free)) && Root() == old(free)[0]
    {
      ghost var pool := free;
      r := Protect();
      if r == Done {
        assert Tables() == Taken(pool, free);
        r := MapAll(requests, pool);
      }
    }

    /**
     * protect, map calls until one panics, unprotect: every page that pgalloc handed out is given to pgfree exactly
     * once, and no other page is; of the tables that memory held before unprotect each goes before the one that points
     * to it.
     */
    method Session(requests: seq<Request>) returns (r: Outcome)
      requires Ready()
      modifies this
      ensures var m := Opened(old(mem), old(free), requests);
              r == m.outcome && free == m.free && (r != Done ==> mem == m.mem && freed == old(freed))
      ensures |free| <= |old(free)| && free == old(free)[|old(free)| - |free|..]
      ensures r == Done ==>
                var tables, pages := Opened(old(mem), old(free), requests).mem, Taken(old(free), free);
                && old(free) != [] && ValidTable(c, tables, old(free)[0], 1)
                && Footprint(c, tables, old(free)[0], 1) == pages && mem == tables - pages
                && Frees(tables, old(free)[0], pages, old(freed), freed)
    {
      ghost var pool := free;
      r := Open(requests);
      if r == Done {
        Close(pool);
      }
    }

    /** What was freed behind log: the pages, each once, children before parents in the tree of root. */
    ghost predicate Frees(tables: Memory, root: nat, pages: set<nat>, log: seq<nat>, freed: seq<nat>)
      requires GoodConfig(c)
    {
      && |log| <= |freed| && freed[..|log|] == log
      && var order := freed[|log|..];
         Distinct(order) && (forall p :: p in order <==> p in pages) && ChildrenBeforeParents(c, tables, root, order)
    }

    /** unprotect, with the account of the pages. */
    method Close(ghost pool: seq<nat>)
      requires Accounted(pool)
      modifies this`mem, this`freed
      ensures ValidTable(c, old(mem), Root(), 1) && Footprint(c, old(mem), Root(), 1) == Taken(pool, free)
      ensures mem == old(mem) - Taken(pool, free)
      ensures Frees(old(mem), Root(), Taken(pool, free), old(freed), freed)
    {
      ghost var log, order := freed, PostOrder(c, mem, Root(), 1);
      Unprotect();
      assert freed[|log|..] == order;
    }
  }

  lemma RootFlags(root: nat)
    requires root == Base(root)
    ensures Present(Entry(root, PTE_P + PTE_U)) && User(Entry(root, PTE_P + PTE_U))
    ensures Base(Entry(root, PTE_P + PTE_U)) == root
  {
    var k := root / PAGE;
    Digits(k, 5, PAGE);
    Digits(2048 * k + 2, 1, 2);
    Digits(1024 * k + 1, 1, 4);
    Digits(512 * k, 1, 2);
  }

  /** With two levels or more the root is not a last-level table. */
  lemma LastLevelNotRoot(c: Config, m: Memory, root: nat, va: nat, table: nat)
    requires GoodConfig(c) && c.levels >= 2 && ValidTable(c, m, root, 1) && Leads(c, m, root, 1, va, table)
    ensures table != root
  {
    var i := Index(c, va, 1);
    assert ValidSlot(c, m, root, 1, i);
    LeadsIntoFootprint(c, m, Child(c, m, root, 1, i), 2, va, table);
  }

  /** ptwalk for a user address writes no kernel slot of the root. */
  lemma WalkKeepsKernelSlots(c: Config, m: Memory, f: seq<nat>, root: nat, va: nat)
    requires GoodConfig(c) && c.levels >= 2 && FreePages(m, f) && ValidTable(c, m, root, 1)
    requires Own(c, 1, Index(c, va, 1))
    ensures var r := WalkAlloc(c, m, f, root, 1, va);
            && HasTable(c, r.mem, root, 1)
            && forall i :: 0 <= i < Slots(c, 1) && i != Index(c, va, 1) ==> r.mem[root][i] == m[root][i]
  {
    var i := Index(c, va, 1);
    if Present(m[root][i]) {
      var child := Child(c, m, root, 1, i);
      assert ValidSlot(c, m, root, 1, i);
      WalkAllocGrown(c, m, f, child, 2, va);
    } else if f != [] {
      var one := Allocate(c, m, root, 1, i, f[0]);
      GrownByOne(c, m, f, root, 1, i);
      assert ValidSlot(c, one, root, 1, i);
      WalkAllocGrown(c, one, f[1..], f[0], 2, va);
    }
  }
}
