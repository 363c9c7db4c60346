/** The two configurations of vme.c in addresses: areas, table slots, and what protect and map do there. */
module VmeAreas {
  import opened Arithmetic
  import opened PageTables
  import opened Vme

  // ----- the bits of an address that select a slot

  lemma Slots64(va: nat)
    ensures Index(X86_64(), va, 1) == va / 0x80_0000_0000 % 512 && Index(X86_64(), va, 2) == va / 0x4000_0000 % 512
    ensures Index(X86_64(), va, 3) == va / 0x20_0000 % 512 && Index(X86_64(), va, 4) == va / 0x1000 % 512
  {
    Pow2Values();
  }

  lemma Slots32(va: nat)
    ensures Index(X86_32(), va, 1) == va / 0x40_0000 % 1024 && Index(X86_32(), va, 2) == va / 0x1000 % 1024
  {
    Pow2Values();
  }

  // ----- the areas

  /** Of the 48-bit addresses those below 512 GiB use kernel slots. */
  lemma KernelArea64(va: nat)
    requires va < 0x1_0000_0000_0000
    ensures KernelSlot(X86_64(), Index(X86_64(), va, 1)) <==> va < 0x80_0000_0000
  {
    Slots64(va);
    TopSlot(va, 0x80_0000_0000, 512);
    var i := va / 0x80_0000_0000;
    assert X86_64().kernel[0] == SlotRange(0, 1);
  }

  /** Of the 32-bit addresses the first GiB and those from 0xfd000000 on use kernel slots. */
  lemma KernelArea32(va: nat)
    requires va < 0x1_0000_0000
    ensures KernelSlot(X86_32(), Index(X86_32(), va, 1)) <==> va < 0x4000_0000 || va >= 0xfd00_0000
  {
    Slots32(va);
    TopSlot(va, 0x40_0000, 1024);
    assert X86_32().kernel[0] == SlotRange(0, 256) && X86_32().kernel[1] == SlotRange(1012, 1024);
  }

  lemma TopSlot(va: nat, size: nat, slots: nat)
    requires size > 0 && slots > 0 && va < size * slots
    ensures va / size % slots == va / size
  {
    var q := va / size;
    if q >= slots {
      MulSum(size, slots, q - slots);
      assert false;
    }
    Digits(0, q, slots);
  }

  /** Below the top of the address space, equal slots are equal pages. */
  lemma Pages64(a: nat, b: nat)
    requires a < 0x1_0000_0000_0000 && b < 0x1_0000_0000_0000
    ensures GoodConfig(X86_64()) && (SameSlots(X86_64(), 1, a, b) <==> a / 4096 == b / 4096)
  {
    X86_64Good();
    Pow2Values();
    SlotsDeterminePage(X86_64(), a, b);
  }

  lemma Pages32(a: nat, b: nat)
    requires a < 0x1_0000_0000 && b < 0x1_0000_0000
    ensures GoodConfig(X86_32()) && (SameSlots(X86_32(), 1, a, b) <==> a / 4096 == b / 4096)
  {
    X86_32Good();
    Pow2Values();
    SlotsDeterminePage(X86_32(), a, b);
  }

  // ----- the hardware walk in numbers

  /**
   * One level of the walk: bit 0 of the entry is presence, bit 1 the right to write and bit 2 that of the user, bit 7
   * ends the walk early, and the bits from 12 on are the address of the next table or the frame.
   */
  lemma WalkLevel(c: Config, mem: Memory, page: nat, level: nat, va: nat, e: nat)
    requires GoodConfig(c) && 1 <= level <= c.levels && HasTable(c, mem, page, level)
    requires e == mem[page][Index(c, va, level)]
    ensures var write, user := e / 2 % 2 == 1, e / 4 % 2 == 1;
            Walk(c, mem, page, level, va) ==
            if e % 2 == 0 then Fault
            else if level == c.levels || e / 128 % 2 == 1 then Maps(e - e % 4096, write, user, level)
            else match Walk(c, mem, e - e % 4096, level + 1, va)
                 case Fault => Fault
                 case Maps(frame, w, u, l) => Maps(frame, w && write, u && user, l)
  {
  }

  // ----- protect and map by address

  /** protect on x86_64: the low 512 GiB translate as the kernel's table has them, and nothing else does. */
  method Protect64(space: AddressSpace) returns (r: Outcome)
    requires space.Ready() && space.c == X86_64()
    modifies space`mem, space`free, space`ptr
    ensures r == if old(space.free) == [] then NoPages else Done
    ensures r == Done ==> space.Valid() && space.Root() == old(space.free)[0]
    ensures r == Done ==> forall va {:trigger space.Translate(va)} :: 0 <= va < 0x1_0000_0000_0000 ==>
              space.Translate(va) ==
              if va < 0x80_0000_0000 then Walk(X86_64(), old(space.mem), space.kpt, 1, va) else Fault
  {
    r := space.Protect();
    forall va: nat | va < 0x1_0000_0000_0000
      ensures KernelSlot(X86_64(), Index(X86_64(), va, 1)) <==> va < 0x80_0000_0000
    {
      KernelArea64(va);
    }
  }

  /** protect on i386: the first GiB and what lies above 0xfd000000 translate as the kernel's table has them. */
  method Protect32(space: AddressSpace) returns (r: Outcome)
    requires space.Ready() && space.c == X86_32()
    modifies space`mem, space`free, space`ptr
    ensures r == if old(space.free) == [] then NoPages else Done
    ensures r == Done ==> space.Valid() && space.Root() == old(space.free)[0]
    ensures r == Done ==> forall va {:trigger space.Translate(va)} :: 0 <= va < 0x1_0000_0000 ==>
              space.Translate(va) ==
              if va < 0x4000_0000 || va >= 0xfd00_0000 then Walk(X86_32(), old(space.mem), space.kpt, 1, va) else Fault
  {
    r := space.Protect();
    forall va: nat | va < 0x1_0000_0000
      ensures KernelSlot(X86_32(), Index(X86_32(), va, 1)) <==> va < 0x4000_0000 || va >= 0xfd00_0000
    {
      KernelArea32(va);
    }
  }

  ghost predicate PagesApart(c: Config, top: nat)
    requires GoodConfig(c)
  {
    forall a: nat, b: nat {:trigger SameSlots(c, 1, a, b)} ::
      a < top && b < top ==> (SameSlots(c, 1, a, b) <==> a / 4096 == b / 4096)
  }

  lemma Apart64()
    ensures GoodConfig(X86_64()) && PagesApart(X86_64(), 0x1_0000_0000_0000)
  {
    X86_64Good();
    forall a: nat, b: nat | a < 0x1_0000_0000_0000 && b < 0x1_0000_0000_0000
      ensures SameSlots(X86_64(), 1, a, b) <==> a / 4096 == b / 4096
    {
      Pages64(a, b);
    }
  }

  lemma Apart32()
    ensures GoodConfig(X86_32()) && PagesApart(X86_32(), 0x1_0000_0000)
  {
    X86_32Good();
    forall a: nat, b: nat | a < 0x1_0000_0000 && b < 0x1_0000_0000
      ensures SameSlots(X86_32(), 1, a, b) <==> a / 4096 == b / 4096
    {
      Pages32(a, b);
    }
  }

  /** map by pages, below the top of the tree. */
  method MapPage(space: AddressSpace, ghost top: nat, ghost first: nat, ghost last: nat, ghost levels: nat,
                 va: nat, pa: nat, prot: nat) returns (r: Outcome)
    requires space.Valid() && PagesApart(space.c, top) && last <= top
    requires space.c.userStart == first && space.c.userEnd == last && space.c.levels == levels
    modifies space`mem, space`free
    ensures space.Valid()
    ensures r == if !(first <= va < last) then BadRange
                 else if va % 4096 != 0 || pa % 4096 != 0 then Unaligned
                 else if old(|space.free| < space.MissingTables(va)) then NoPages
                 else if prot == 0 then (if old(space.Translate(va)) == Fault then NotMapped else Done)
                 else if old(space.Translate(va)) == Fault then Done else AlreadyMapped
    ensures forall probe {:trigger space.Translate(probe)} :: 0 <= probe < top ==>
              space.Translate(probe) ==
              if r != Done || probe / 4096 != va / 4096 then old(space.Translate(probe))
              else if prot == 0 then Fault else Maps(pa, prot / 2 % 2 == 1, true, levels)
  {
    r := space.Map(va, pa, prot);
  }

  /** map on x86_64: one page of [0x100000000000, 0x108000000000) changes, and only if the outcome is Done. */
  method Map64(space: AddressSpace, va: nat, pa: nat, prot: nat) returns (r: Outcome)
    requires space.Valid() && space.c == X86_64()
    modifies space`mem, space`free
    ensures space.Valid()
    ensures r == if !(0x1000_0000_0000 <= va < 0x1080_0000_0000) then BadRange
                 else if va % 4096 != 0 || pa % 4096 != 0 then Unaligned
                 else if old(|space.free| < space.MissingTables(va)) then NoPages
                 else if prot == 0 then (if old(space.Translate(va)) == Fault then NotMapped else Done)
                 else if old(space.Translate(va)) == Fault then Done else AlreadyMapped
    ensures forall probe {:trigger space.Translate(probe)} :: 0 <= probe < 0x1_0000_0000_0000 ==>
              space.Translate(probe) ==
              if r != Done || probe / 4096 != va / 4096 then old(space.Translate(probe))
              else if prot == 0 then Fault else Maps(pa, prot / 2 % 2 == 1, true, 4)
  {
    Apart64();
    r := MapPage(space, 0x1_0000_0000_0000, 0x1000_0000_0000, 0x1080_0000_0000, 4, va, pa, prot);
  }

  /** map on i386: one page of [0x40000000, 0x80000000) changes, and only if the outcome is Done. */
  method Map32(space: AddressSpace, va: nat, pa: nat, prot: nat) returns (r: Outcome)
    requires space.Valid() && space.c == X86_32()
    modifies space`mem, space`free
    ensures space.Valid()
    ensures r == if !(0x4000_0000 <= va < 0x8000_0000) then BadRange
                 else if va % 4096 != 0 || pa % 4096 != 0 then Unaligned
                 else if old(|space.free| < space.MissingTables(va)) then NoPages
                 else if prot == 0 then (if old(space.Translate(va)) == Fault then NotMapped else Done)
                 else if old(space.Translate(va)) == Fault then Done else AlreadyMapped
    ensures forall probe {:trigger space.Translate(probe)} :: 0 <= probe < 0x1_0000_0000 ==>
              space.Translate(probe) ==
              if r != Done || probe / 4096 != va / 4096 then old(space.Translate(probe))
              else if prot == 0 then Fault else Maps(pa, prot / 2 % 2 == 1, true, 2)
  {
    Apart32();
    r := MapPage(space, 0x1_0000_0000, 0x4000_0000, 0x8000_0000, 2, va, pa, prot);
  }
}
