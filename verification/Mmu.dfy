/** The paged memory a kernel sees, and the table edits of stage3/mem/vaddr.cpp on it. */
module Mmus {
  import opened Bits
  import opened PhysMem
  import opened Paging

  /** Memory after the word behind WindowAddr(Pdi(va), Pti(va)) becomes e. */
  function Rewritten(m: Memory, cr3: FrameNo, va: Word, e: Word): Memory {
    Set(m, TableFrame(m, cr3, Pdi(va)), Pti(va), e)
  }

  /** What get_paddr reads off the window. */
  function Physical(m: Memory, cr3: FrameNo, va: Word): Word {
    var pte := WindowWord(m, cr3, va);
    if Present(m[cr3][Pdi(va)]) && Present(pte) then FrameOf(pte) * 4096 + va % 4096
    else PT_INVALID_PAGE
  }

  /** The entry vmark stores: the old frame, or-ed with all 32 bits of the new flags. */
  function Remarked(pte: Word, flags: Word): (e: Word)
    ensures FrameOf(e) as nat == Or(FrameOf(pte), FrameOf(flags)) && (Present(e) <==> Present(flags))
    ensures flags < 4096 ==> FrameOf(e) == FrameOf(pte) && e % 4096 == flags
  {
    RemarkedFields(pte / 4096 * 4096, flags);
    Or(PageMask(pte), flags)
  }

  lemma RemarkedFields(page: Word, flags: Word)
    requires page % 4096 == 0
    ensures Or(page, flags) < TWO_32 && Or(page, flags) % 2 == flags % 2
    ensures Or(page, flags) / 4096 == Or(page / 4096, flags / 4096)
    ensures flags < 4096 ==> Or(page, flags) / 4096 == page / 4096 && Or(page, flags) % 4096 == flags
  {
    Pow2Values();
    OrBound(page, flags, 32);
    OrPages(page, flags);
    OrStep(page, flags);
    assert page % 2 == 0;
    if flags < 4096 { OrLow(page, flags, 12); }
    hide Or, Pow2;
  }

  /** `pte & ~PRESENT`. */
  function Cleared(w: Word): (r: Word)
    ensures r == w - w % 2
  {
    Pow2Values(); AndHighMask(w, 32, 1);
    And(w, Not(PRESENT))
  }

  /** Rewriting the entry of one page and invalidating that page leaves no stale
      translation, whatever else is cached. */
  lemma OnePageStaysCoherent(m: Memory, cr3: FrameNo, va: Word, e: Word, tlb: map<VPage, FrameNo>)
    requires WellFormed(m, cr3) && HasTable(m, cr3, Pdi(va)) && Pdi(va) != 1023
    requires Coherent(m, cr3, tlb) && PageOf(va) !in tlb
    ensures var m' := Rewritten(m, cr3, va, e);
            && WellFormed(m', cr3) && Coherent(m', cr3, tlb)
            && Walk(m', cr3, PageOf(va)) == (if Present(e) then Some(FrameOf(e)) else None)
  {
    EntryChangesOnePage(m, cr3, va, e);
  }

  // ---------- properties of the edits ----------

  // What the hardware answers, with get_paddr's value for an unmapped page
  function Translated(m: Memory, cr3: FrameNo, va: Word): Word {
    match Walk(m, cr3, PageOf(va))
    case Some(f) => f * 4096 + va % 4096
    case None => PT_INVALID_PAGE
  }

  /** get_paddr is the page walk, except behind a 4 MiB entry: it takes the first frame of
      the 4 MiB for a page table, and is right exactly when the word it finds there happens
      to be a present entry for the frame of the address, or when it finds none and the
      address is the last byte of physical memory, whose number is the failure value. */
  lemma PhysicalIsWalk(m: Memory, cr3: FrameNo, va: Word)
    requires WellFormed(m, cr3)
    ensures var pde, word := m[cr3][Pdi(va)], WindowWord(m, cr3, va);
            var f := pde / 0x40_0000 * 1024 + Pti(va);
            Physical(m, cr3, va) == Translated(m, cr3, va)
            <==> (!Present(pde) || !Large(pde)
                  || (if Present(word) then FrameOf(word) == f else f * 4096 + va % 4096 == PT_INVALID_PAGE))
  {
    assert PageOf(va) / 1024 == Pdi(va) && PageOf(va) % 1024 == Pti(va);
  }

  /** Mapping a page and asking for its address gives the mapped frame back; unmapping
      it gives the frame back once more and leaves every other page as it was. */
  lemma MapThenUnmap(m: Memory, cr3: FrameNo, va: Word, paddr: Word, flags: Word)
    requires WellFormed(m, cr3) && HasTable(m, cr3, Pdi(va)) && Pdi(va) != 1023
    ensures var m1 := Rewritten(m, cr3, va, Entry(paddr, flags));
            var pte := WindowWord(m1, cr3, va);
            var m2 := Rewritten(m1, cr3, va, Cleared(pte));
            && Physical(m1, cr3, va) == FrameOf(paddr) * 4096 + va % 4096
            && FrameOf(pte) == FrameOf(paddr)
            && Walk(m2, cr3, PageOf(va)) == None
            && forall p: VPage :: p != PageOf(va) ==>
                 Walk(m1, cr3, p) == Walk(m, cr3, p) && Walk(m2, cr3, p) == Walk(m, cr3, p)
  {
    var m1 := Rewritten(m, cr3, va, Entry(paddr, flags));
    EntryChangesOnePage(m, cr3, va, Entry(paddr, flags));
    var pte := WindowWord(m1, cr3, va);
    EntryChangesOnePage(m1, cr3, va, Cleared(pte));
  }

  /** vmark keeps the frame of a page exactly when the new flags say so: the page stays
      mapped where it was if and only if they contain the present bit and, above the low 12
      bits, which it does not mask off, nothing but bits of the frame number. */
  lemma RemarkKeepsMapping(m: Memory, cr3: FrameNo, va: Word, flags: Word)
    requires WellFormed(m, cr3) && HasTable(m, cr3, Pdi(va)) && Pdi(va) != 1023
    requires Walk(m, cr3, PageOf(va)).Some?
    ensures var pte := WindowWord(m, cr3, va);
            var m' := Rewritten(m, cr3, va, Remarked(pte, flags));
            Walk(m', cr3, PageOf(va)) == Walk(m, cr3, PageOf(va))
            <==> Present(flags) && Or(FrameOf(pte), FrameOf(flags)) == FrameOf(pte)
  {
    EntryChangesOnePage(m, cr3, va, Remarked(WindowWord(m, cr3, va), flags));
    assert PageOf(va) / 1024 == Pdi(va);
  }

  lemma WindowSlot(m: Memory, cr3: FrameNo, i: Index, e: Word)
    requires WellFormed(m, cr3)
    ensures Pdi(WindowAddr(i, 0)) == 1023 && Pti(WindowAddr(i, 0)) == i
    ensures Rewritten(m, cr3, WindowAddr(i, 0), e) == Set(m, cr3, i, e)
    ensures Present(m[cr3][1023]) && WindowWord(m, cr3, WindowAddr(i, 0)) == m[cr3][i]
  {}

  /** Mapping the window page of slot pdi edits the word that pd_map edits, and returns the
      word that pd_map returns.  The invalidations differ; see WindowMapStaysCoherent. */
  lemma WindowMapIsDirectoryMap(m: Memory, cr3: FrameNo, va: Word, paddr: Word, flags: Word)
    requires WellFormed(m, cr3)
    ensures var w := WindowAddr(Pdi(va), 0);
            && Rewritten(m, cr3, w, Entry(paddr, flags)) == Set(m, cr3, Pdi(va), Entry(paddr, flags))
            && WindowWord(m, cr3, w) == m[cr3][Pdi(va)]
            && PageOf(w) == WindowPage(Pdi(va))
  {
    WindowSlot(m, cr3, Pdi(va), Entry(paddr, flags));
  }

  /** Every TLB that agreed with the tables still agrees after directory entry i
      becomes e and only `page` is invalidated. */
  ghost predicate StaysCoherent(m: Memory, cr3: FrameNo, i: Index, e: Word, page: VPage) {
    forall tlb: map<VPage, FrameNo> :: Coherent(m, cr3, tlb) ==>
      Coherent(Set(m, cr3, i, e), cr3, tlb - {page})
  }

  /** pd_map invalidates the directory's own page (vaddr.cpp:44), not the pages whose
      translation it changed.  So it leaves no stale translation, whatever is cached,
      if and only if the slot was empty or keeps its table. */
  lemma PdMapStaysCoherent(m: Memory, cr3: FrameNo, i: Index, e: Word)
    requires WellFormed(m, cr3) && i != 1023
    requires !(Present(m[cr3][i]) && Large(m[cr3][i])) && Present(e) && !Large(e)
    ensures StaysCoherent(m, cr3, i, e, WindowPage(1023))
      <==> (!Present(m[cr3][i]) || FrameOf(e) == FrameOf(m[cr3][i]))
  {
    var m' := Set(m, cr3, i, e);
    if !Present(m[cr3][i]) || FrameOf(e) == FrameOf(m[cr3][i]) {
      forall p: VPage | Walk(m, cr3, p).Some?
        ensures Walk(m', cr3, p) == Walk(m, cr3, p)
      {
        WalkAfterDirectoryEdit(m, cr3, i, e, p);
      }
    } else {
      var window: VPage := 1023 * 1024 + i;
      var tlb: map<VPage, FrameNo> := map[window := FrameOf(m[cr3][i])];
      assert Coherent(m, cr3, tlb);
      assert window in tlb - {WindowPage(1023)};
      assert Walk(m', cr3, window) == Some(FrameOf(e));
    }
  }

  lemma WalkAfterDirectoryEdit(m: Memory, cr3: FrameNo, i: Index, e: Word, p: VPage)
    requires WellFormed(m, cr3) && i != 1023
    requires !(Present(m[cr3][i]) && Large(m[cr3][i])) && Present(e) && !Large(e)
    requires !Present(m[cr3][i]) || FrameOf(e) == FrameOf(m[cr3][i])
    requires Walk(m, cr3, p).Some?
    ensures Walk(Set(m, cr3, i, e), cr3, p) == Walk(m, cr3, p)
  {
    assert HasTable(m, cr3, 1023);
    if HasTable(m, cr3, p / 1024) && p / 1024 != 1023 {
      assert TableFrame(m, cr3, p / 1024) != cr3;
    }
  }

  /** What one table maps, another maps to the same frames. */
  predicate MapsAtLeast(table: Page, former: Page) {
    forall k: Index :: Present(former[k]) ==> Present(table[k]) && FrameOf(table[k]) == FrameOf(former[k])
  }

  /** pt_map on the window address of slot i invalidates the window page of that slot, not
      the pages behind the slot.  So it leaves no stale translation, whatever is cached, if
      and only if the slot was empty or every page its table mapped is mapped to the same
      frame by the table put in. */
  lemma WindowMapStaysCoherent(m: Memory, cr3: FrameNo, i: Index, e: Word)
    requires WellFormed(m, cr3) && i != 1023
    requires !(Present(m[cr3][i]) && Large(m[cr3][i])) && Present(e) && !Large(e)
    ensures StaysCoherent(m, cr3, i, e, WindowPage(i))
      <==> (!Present(m[cr3][i]) || MapsAtLeast(Set(m, cr3, i, e)[FrameOf(e)], m[TableFrame(m, cr3, i)]))
  {
    var m' := Set(m, cr3, i, e);
    var former, table := m[TableFrame(m, cr3, i)], m'[FrameOf(e)];
    if !Present(m[cr3][i]) || MapsAtLeast(table, former) {
      forall p: VPage | Walk(m, cr3, p).Some? && p != WindowPage(i)
        ensures Walk(m', cr3, p) == Walk(m, cr3, p)
      {
        WalkBesideWindow(m, cr3, i, e, p);
      }
    } else {
      var k: Index :| Present(former[k]) && !(Present(table[k]) && FrameOf(table[k]) == FrameOf(former[k]));
      var p: VPage := i * 1024 + k;
      assert p / 1024 == i && p % 1024 == k;
      var tlb: map<VPage, FrameNo> := map[p := FrameOf(former[k])];
      assert Coherent(m, cr3, tlb);
      assert p in tlb - {WindowPage(i)};
      assert Walk(m', cr3, p) != Some(FrameOf(former[k]));
    }
  }

  lemma WalkBesideWindow(m: Memory, cr3: FrameNo, i: Index, e: Word, p: VPage)
    requires WellFormed(m, cr3) && i != 1023 && Walk(m, cr3, p).Some? && p != WindowPage(i)
    requires !(Present(m[cr3][i]) && Large(m[cr3][i])) && Present(e) && !Large(e)
    requires !Present(m[cr3][i]) || MapsAtLeast(Set(m, cr3, i, e)[FrameOf(e)], m[TableFrame(m, cr3, i)])
    ensures Walk(Set(m, cr3, i, e), cr3, p) == Walk(m, cr3, p)
  {
    assert HasTable(m, cr3, 1023);
    if HasTable(m, cr3, p / 1024) && p / 1024 != 1023 {
      assert TableFrame(m, cr3, p / 1024) != cr3;
    }
  }

  /** Entry e gives slot i a page table that no other slot has, and that maps whatever the
      former table of the slot mapped. */
  ghost predicate FitsSlot(m: Memory, cr3: FrameNo, i: Index, e: Word) {
    && i != 1023 && Present(e) && !Large(e) && !(Present(m[cr3][i]) && Large(m[cr3][i]))
    && (forall j: Index :: j != i && HasTable(m, cr3, j) ==> TableFrame(m, cr3, j) != FrameOf(e))
    && (Present(m[cr3][i]) ==> MapsAtLeast(Set(m, cr3, i, e)[FrameOf(e)], m[TableFrame(m, cr3, i)]))
  }

  /** Entry e gives the empty slot i a frame that is no table yet. */
  ghost predicate MakesTable(m: Memory, cr3: FrameNo, i: Index, e: Word) {
    i != 1023 && !Present(m[cr3][i]) && Present(e) && !Large(e) && !IsTable(m, cr3, FrameOf(e))
  }

  lemma MakingFits(m: Memory, cr3: FrameNo, i: Index, e: Word)
    requires MakesTable(m, cr3, i, e)
    ensures FitsSlot(m, cr3, i, e)
  {}

  /** A table that fits the slot, put in through the window, leaves the tables well formed
      and nothing stale, although only the window page is invalidated. */
  lemma FittingStaysCoherent(m: Memory, cr3: FrameNo, i: Index, e: Word, tlb: map<VPage, FrameNo>)
    requires WellFormed(m, cr3) && FitsSlot(m, cr3, i, e) && Coherent(m, cr3, tlb) && WindowPage(i) !in tlb
    ensures WellFormed(Set(m, cr3, i, e), cr3) && Coherent(Set(m, cr3, i, e), cr3, tlb)
    ensures HasTable(Set(m, cr3, i, e), cr3, i) && TableFrame(Set(m, cr3, i, e), cr3, i) == FrameOf(e)
  {
    var m' := Set(m, cr3, i, e);
    assert HasTable(m, cr3, 1023);
    assert forall j: Index :: j != i ==>
      HasTable(m', cr3, j) == HasTable(m, cr3, j) && TableFrame(m', cr3, j) == TableFrame(m, cr3, j);
    WindowMapStaysCoherent(m, cr3, i, e);
    assert StaysCoherent(m, cr3, i, e, WindowPage(i));
    assert tlb - {WindowPage(i)} == tlb;
  }

  lemma FewerStayCoherent(m: Memory, cr3: FrameNo, tlb: map<VPage, FrameNo>, fewer: map<VPage, FrameNo>)
    requires Coherent(m, cr3, tlb)
    requires forall p: VPage :: p in fewer ==> p in tlb && fewer[p] == tlb[p]
    ensures Coherent(m, cr3, fewer)
  {}

  /** What pt_map leaves cached after the entry for va became e. */
  lemma AfterPtMap(m: Memory, cr3: FrameNo, va: Word, e: Word, tlb: map<VPage, FrameNo>)
    requires WellFormed(m, cr3) && Coherent(m, cr3, tlb) && PageOf(va) !in tlb && Present(m[cr3][Pdi(va)])
    ensures HasTable(m, cr3, Pdi(va)) && Pdi(va) != 1023 ==>
      WellFormed(Rewritten(m, cr3, va, e), cr3) && Coherent(Rewritten(m, cr3, va, e), cr3, tlb)
    ensures Pdi(va) == 1023 && FitsSlot(m, cr3, Pti(va), e) ==>
      var m' := Rewritten(m, cr3, va, e);
      && WellFormed(m', cr3) && Coherent(m', cr3, tlb)
      && HasTable(m', cr3, Pti(va)) && TableFrame(m', cr3, Pti(va)) == FrameOf(e)
  {
    if HasTable(m, cr3, Pdi(va)) && Pdi(va) != 1023 {
      OnePageStaysCoherent(m, cr3, va, e, tlb);
    }
    if Pdi(va) == 1023 && FitsSlot(m, cr3, Pti(va), e) {
      assert PageOf(va) == WindowPage(Pti(va));
      FittingStaysCoherent(m, cr3, Pti(va), e, tlb);
    }
  }

  /** The table of slot i maps nothing. */
  ghost predicate EmptySlot(m: Memory, cr3: FrameNo, i: Index) {
    && i != 1023 && HasTable(m, cr3, i)
    && forall k: Index :: !Present(m[TableFrame(m, cr3, i)][k])
  }

  /** Taking an empty table out of its slot through the window leaves nothing stale. */
  lemma EmptySlotCleared(m: Memory, cr3: FrameNo, i: Index, tlb: map<VPage, FrameNo>)
    requires WellFormed(m, cr3) && EmptySlot(m, cr3, i) && Coherent(m, cr3, tlb) && WindowPage(i) !in tlb
    ensures var m' := Set(m, cr3, i, Cleared(m[cr3][i]));
            && WellFormed(m', cr3) && Coherent(m', cr3, tlb)
            && forall f: FrameNo :: IsTable(m', cr3, f) <==> IsTable(m, cr3, f) && f != TableFrame(m, cr3, i)
  {
    var m' := Set(m, cr3, i, Cleared(m[cr3][i]));
    assert HasTable(m, cr3, 1023);
    assert !Present(m'[cr3][i]);
    assert forall j: Index :: j != i ==>
      HasTable(m', cr3, j) == HasTable(m, cr3, j) && TableFrame(m', cr3, j) == TableFrame(m, cr3, j);
    forall p: VPage | p in tlb
      ensures Walk(m', cr3, p) == Walk(m, cr3, p)
    {
      assert Walk(m, cr3, p).Some?;
      if HasTable(m, cr3, p / 1024) && p / 1024 != 1023 {
        assert TableFrame(m, cr3, p / 1024) != cr3;
      }
    }
    forall f: FrameNo
      ensures IsTable(m', cr3, f) <==> IsTable(m, cr3, f) && f != TableFrame(m, cr3, i)
    {
      if IsTable(m, cr3, f) && f != TableFrame(m, cr3, i) {
        var j: Index :| HasTable(m, cr3, j) && TableFrame(m, cr3, j) == f;
        assert HasTable(m', cr3, j);
      }
    }
  }

  /** What pt_unmap leaves cached after the entry for va was cleared. */
  lemma AfterPtUnmap(m: Memory, cr3: FrameNo, va: Word, tlb: map<VPage, FrameNo>)
    requires WellFormed(m, cr3) && Coherent(m, cr3, tlb) && PageOf(va) !in tlb && Present(m[cr3][Pdi(va)])
    ensures var m' := Rewritten(m, cr3, va, Cleared(WindowWord(m, cr3, va)));
            (HasTable(m, cr3, Pdi(va)) && Pdi(va) != 1023) || (Pdi(va) == 1023 && EmptySlot(m, cr3, Pti(va))) ==>
              WellFormed(m', cr3) && Coherent(m', cr3, tlb)
  {
    if HasTable(m, cr3, Pdi(va)) && Pdi(va) != 1023 {
      OnePageStaysCoherent(m, cr3, va, Cleared(WindowWord(m, cr3, va)), tlb);
    }
    if Pdi(va) == 1023 && EmptySlot(m, cr3, Pti(va)) {
      assert PageOf(va) == WindowPage(Pti(va));
      EmptySlotCleared(m, cr3, Pti(va), tlb);
    }
  }

  class Mmu {
    var mem: Memory
    var cr3: FrameNo
    // Cached translations; a cached one is used without looking at the tables
    var tlb: map<VPage, FrameNo>

    constructor (m: Memory, directory: FrameNo)
      ensures mem == m && cr3 == directory && tlb == map[]
    {
      mem, cr3, tlb := m, directory, map[];
    }

    ghost predicate Valid()
      reads this
    {
      WellFormed(mem, cr3) && Coherent(mem, cr3, tlb)
    }

    // ---------- the processor ----------

    method Translate(va: Word) returns (f: FrameNo)
      requires Valid() && Walk(mem, cr3, PageOf(va)).Some?
      modifies this`tlb
      ensures Some(f) == Walk(mem, cr3, PageOf(va))
      ensures Valid() && tlb.Keys == old(tlb).Keys + {PageOf(va)}
    {
      if PageOf(va) in tlb {
        f := tlb[PageOf(va)];
      } else {
        f := Walk(mem, cr3, PageOf(va)).value;
        tlb := tlb[PageOf(va) := f];
      }
    }

    method Load(va: Word) returns (w: Word)
      requires Valid() && Walk(mem, cr3, PageOf(va)).Some?
      modifies this`tlb
      ensures w == mem[Walk(mem, cr3, PageOf(va)).value][va % 4096 / 4]
      ensures Valid() && tlb.Keys == old(tlb).Keys + {PageOf(va)}
    {
      var f := Translate(va);
      w := mem[f][va % 4096 / 4];
    }

    // The translations cached afterwards agree with the tables before the store
    method Store(va: Word, w: Word)
      requires Valid() && Walk(mem, cr3, PageOf(va)).Some?
      modifies this`mem, this`tlb
      ensures mem == Set(old(mem), Walk(old(mem), cr3, PageOf(va)).value, va % 4096 / 4, w)
      ensures Coherent(old(mem), cr3, tlb)
      ensures tlb.Keys == old(tlb).Keys + {PageOf(va)}
    {
      var f := Translate(va);
      mem := Set(mem, f, va % 4096 / 4, w);
    }

    method Invlpg(va: Word)
      modifies this`tlb
      ensures PageOf(va) !in tlb && tlb.Keys == old(tlb).Keys - {PageOf(va)}
      ensures forall p: VPage :: p in tlb ==> p in old(tlb) && tlb[p] == old(tlb)[p]
    {
      tlb := tlb - {PageOf(va)};
    }

    // ---------- the words behind the window ----------

    // pagetable[pti], where pagetable is the window of slot pdi
    method TableLoad(pdi: Index, pti: Index) returns (w: Word)
      requires Valid() && Present(mem[cr3][pdi])
      modifies this`tlb
      ensures w == mem[TableFrame(mem, cr3, pdi)][pti] && Valid()
      ensures tlb.Keys == old(tlb).Keys + {WindowPage(pdi)}
    {
      WindowReachesTable(mem, cr3, pdi, pti);
      w := Load(WindowAddr(pdi, pti));
    }

    method TableStore(pdi: Index, pti: Index, w: Word)
      requires Valid() && Present(mem[cr3][pdi])
      modifies this`mem, this`tlb
      ensures mem == Set(old(mem), TableFrame(old(mem), cr3, pdi), pti, w)
      ensures Coherent(old(mem), cr3, tlb)
      ensures tlb.Keys == old(tlb).Keys + {WindowPage(pdi)}
    {
      WindowReachesTable(mem, cr3, pdi, pti);
      Store(WindowAddr(pdi, pti), w);
    }

    // pd[pdi], where pd is the last page of the window
    method DirectoryLoad(pdi: Index) returns (pde: Word)
      requires Valid()
      modifies this`tlb
      ensures pde == mem[cr3][pdi] && Valid()
      ensures tlb.Keys == old(tlb).Keys + {WindowPage(1023)}
    {
      WindowReachesTable(mem, cr3, pdi, 0);
      pde := Load(PD_WINDOW + 4 * pdi);
    }

    method DirectoryStore(pdi: Index, pde: Word)
      requires Valid()
      modifies this`mem, this`tlb
      ensures mem == Set(old(mem), cr3, pdi, pde)
      ensures Coherent(old(mem), cr3, tlb)
      ensures tlb.Keys == old(tlb).Keys + {WindowPage(1023)}
    {
      WindowReachesTable(mem, cr3, pdi, 0);
      Store(PD_WINDOW + 4 * pdi, pde);
    }

    // ---------- stage3/mem/vaddr.cpp ----------

    method GetPaddr(va: Word) returns (r: Word)
      requires Valid()
      modifies this`tlb
      ensures Valid()
      ensures r == Physical(mem, cr3, va)
    {
      var pdi, pti := Pdi(va), PtiOf(va);
      var pde := DirectoryLoad(pdi);
      if LowBit(pde) == 0 { return PT_INVALID_PAGE; }
      var pte := TableLoad(pdi, pti);
      if LowBit(pte) == 0 { return PT_INVALID_PAGE; }
      pte := TableLoad(pdi, pti);
      r := PageMask(pte) + FlagMask(va);
    }

    method GetFlags(va: Word) returns (r: Word)
      requires Valid()
      modifies this`tlb
      ensures Valid()
      ensures r == if Present(mem[cr3][Pdi(va)]) then WindowWord(mem, cr3, va) % 4096 / 512 * 512
                   else PT_INVALID_PAGE
    {
      var pdi, pti := Pdi(va), PtiOf(va);
      var pde := DirectoryLoad(pdi);
      if LowBit(pde) == 0 { return PT_INVALID_PAGE; }
      var pte := TableLoad(pdi, pti);
      r := FlagBits(pte);
    }

    method PtMap(paddr: Word, va: Word, flags: Word) returns (tmp: Word)
      requires Valid()
      modifies this`mem, this`tlb
      ensures !Present(old(mem)[cr3][Pdi(va)]) ==>
        tmp == PT_INVALID_PAGE && mem == old(mem) && Valid()
      ensures Present(old(mem)[cr3][Pdi(va)]) ==>
        && tmp == WindowWord(old(mem), cr3, va)
        && mem == Rewritten(old(mem), cr3, va, Entry(paddr, flags))
        && Coherent(old(mem), cr3, tlb) && PageOf(va) !in tlb
      ensures HasTable(old(mem), cr3, Pdi(va)) && Pdi(va) != 1023 ==> Valid()
      ensures Pdi(va) == 1023 && FitsSlot(old(mem), cr3, Pti(va), Entry(paddr, flags)) ==>
        Valid() && HasTable(mem, cr3, Pti(va)) && TableFrame(mem, cr3, Pti(va)) == FrameOf(paddr)
      ensures tlb.Keys <= old(tlb).Keys + {WindowPage(1023), WindowPage(Pdi(va))}
    {
      assert HasTable(mem, cr3, 1023);
      hide WellFormed, Coherent, FitsSlot, Entry;
      var pdi, pti := Pdi(va), PtiOf(va);
      var pde := DirectoryLoad(pdi);
      if LowBit(pde) == 0 { return PT_INVALID_PAGE; }
      tmp := TableLoad(pdi, pti);
      TableStore(pdi, pti, Entry(paddr, flags));
      assert PageOf(PageMask(va)) == PageOf(va);
      ghost var before := tlb;
      Invlpg(PageMask(va));
      FewerStayCoherent(old(mem), cr3, before, tlb);
      AfterPtMap(old(mem), cr3, va, Entry(paddr, flags), tlb);
    }

    // pt_map on the window address of an empty slot
    method MapTable(paddr: Word, i: Index, flags: Word)
      requires Valid() && MakesTable(mem, cr3, i, Entry(paddr, flags))
      modifies this`mem, this`tlb
      ensures Valid() && mem == Set(old(mem), cr3, i, Entry(paddr, flags))
    {
      WindowSlot(mem, cr3, i, Entry(paddr, flags));
      assert HasTable(mem, cr3, 1023);
      hide Entry, WindowAddr, Rewritten, WellFormed, Coherent;
      MakingFits(mem, cr3, i, Entry(paddr, flags));
      var _ := PtMap(paddr, WindowAddr(i, 0), flags);
    }

    method PdMap(paddr: Word, va: Word, flags: Word) returns (prev: Word)
      requires Valid()
      modifies this`mem, this`tlb
      ensures prev == old(mem)[cr3][Pdi(va)]
      ensures mem == Set(old(mem), cr3, Pdi(va), Entry(paddr, flags))
      ensures Coherent(old(mem), cr3, tlb) && tlb.Keys == old(tlb).Keys - {WindowPage(1023)}
    {
      prev := DirectoryLoad(Pdi(va));
      DirectoryStore(Pdi(va), Entry(paddr, flags));
      assert PageOf(PD_WINDOW + 4 * Pdi(va)) == WindowPage(1023);
      Invlpg(PD_WINDOW + 4 * Pdi(va));
    }

    method PtUnmap(va: Word) returns (paddr: Word)
      requires Valid()
      modifies this`mem, this`tlb
      ensures !Present(old(mem)[cr3][Pdi(va)]) ==> paddr == 0 && mem == old(mem) && Valid()
      ensures Present(old(mem)[cr3][Pdi(va)]) ==>
        var pte := WindowWord(old(mem), cr3, va);
        && paddr == FrameOf(pte) * 4096
        && mem == Rewritten(old(mem), cr3, va, Cleared(pte))
        && Coherent(old(mem), cr3, tlb) && PageOf(va) !in tlb
      ensures HasTable(old(mem), cr3, Pdi(va)) && Pdi(va) != 1023 ==> Valid()
      ensures Pdi(va) == 1023 && EmptySlot(old(mem), cr3, Pti(va)) ==> Valid()
    {
      assert HasTable(mem, cr3, 1023);
      hide WellFormed, Coherent, EmptySlot, Cleared;
      var pdi, pti := Pdi(va), PtiOf(va);
      paddr := 0;
      var pde := DirectoryLoad(pdi);
      if LowBit(pde) != 0 {
        var pte := TableLoad(pdi, pti);
        paddr := PageMask(pte);
        pte := TableLoad(pdi, pti);
        TableStore(pdi, pti, Cleared(pte));
        assert mem == Rewritten(old(mem), cr3, va, Cleared(pte));
        ghost var before := tlb;
        Invlpg(va);
        FewerStayCoherent(old(mem), cr3, before, tlb);
        AfterPtUnmap(old(mem), cr3, va, tlb);
      }
    }

    method Vmark(va: Word, flags: Word) returns (prev: Word)
      requires Valid()
      modifies this`mem, this`tlb
      ensures !Present(old(mem)[cr3][Pdi(va)]) ==>
        prev == PT_INVALID_PAGE && mem == old(mem) && Valid()
      ensures Present(old(mem)[cr3][Pdi(va)]) ==>
        && prev == WindowWord(old(mem), cr3, va)
        && mem == Rewritten(old(mem), cr3, va, Remarked(prev, flags))
        && Coherent(old(mem), cr3, tlb) && PageOf(va) !in tlb
      ensures HasTable(old(mem), cr3, Pdi(va)) && Pdi(va) != 1023 ==> Valid()
    {
      var pdi, pti := Pdi(va), PtiOf(va);
      var pde := DirectoryLoad(pdi);
      if LowBit(pde) == 0 { return PT_INVALID_PAGE; }
      prev := TableLoad(pdi, pti);
      TableStore(pdi, pti, Remarked(prev, flags));
      Invlpg(va);
      if HasTable(old(mem), cr3, pdi) && pdi != 1023 {
        OnePageStaysCoherent(old(mem), cr3, va, Remarked(prev, flags), tlb);
      }
    }
  }

  /** The word of a page mapped with these flags: the 12 low flags, and the present bit. */
  function MappedWord(paddr: Word, flags: Word): int {
    paddr + flags % 4096 + (if flags % 2 == 1 then 0 else 1)
  }

  lemma FlagsKept(paddr: Word, flags: Word, w: Word)
    requires paddr % 4096 == 0 && w == MappedWord(paddr, flags)
    ensures w % 4096 / 512 * 512 == flags % 4096 / 512 * 512 && w / 4096 == paddr / 4096 && Present(w)
  {
    var f := flags % 4096;
    Parity(flags);
    var low := f + (if f % 2 == 1 then 0 else 1);
    DivModUnique(w, 4096, paddr / 4096, low);
    DivModUnique(low, 512, f / 512, low - f / 512 * 512) by { EvenBelow(f); }
    Parity(w);
  }

  lemma Parity(w: nat)
    ensures w % 4096 % 2 == w % 2
  {
    assert w == 2 * (2048 * (w / 4096)) + w % 4096;
  }

  // An even number is not the last one of a block of 512
  lemma EvenBelow(f: nat)
    ensures f % 2 == 0 ==> f - f / 512 * 512 < 511
  {}

  /** pt_map, get_flags, get_paddr and pt_map again, on one page: get_flags gives the three bits
      of the flags that it asks for, get_paddr the mapped address, and the second pt_map the
      word that the first one stored. */
  method MapAndAsk(mmu: Mmu, paddr: Word, va: Word, flags: Word, paddr2: Word, flags2: Word)
    returns (bits: Word, at: Word, former: Word)
    requires mmu.Valid() && HasTable(mmu.mem, mmu.cr3, Pdi(va)) && Pdi(va) != 1023 && paddr % 4096 == 0
    modifies mmu`mem, mmu`tlb
    ensures mmu.Valid() && WindowWord(mmu.mem, mmu.cr3, va) == Entry(paddr2, flags2)
    ensures bits == flags % 4096 / 512 * 512 && at == paddr + va % 4096 && former == MappedWord(paddr, flags)
  {
    ghost var m, cr3 := mmu.mem, mmu.cr3;
    EntryChangesOnePage(m, cr3, va, Entry(paddr, flags));
    EntryChangesOnePage(Rewritten(m, cr3, va, Entry(paddr, flags)), cr3, va, Entry(paddr2, flags2));
    FlagsKept(paddr, flags, Entry(paddr, flags));
    hide Entry, WellFormed, Coherent, MappedWord, FitsSlot, Walk;
    var _ := mmu.PtMap(paddr, va, flags);
    bits := mmu.GetFlags(va);
    at := mmu.GetPaddr(va);
    former := mmu.PtMap(paddr2, va, flags2);
  }

  /** Mapping a page elsewhere and mapping it back by the word that pt_map returned restores
      memory exactly when the page was mapped before: pt_map always sets the present bit. */
  lemma RemapRestores(m: Memory, cr3: FrameNo, va: Word, paddr: Word, flags: Word)
    requires WellFormed(m, cr3) && HasTable(m, cr3, Pdi(va)) && Pdi(va) != 1023
    ensures var former := WindowWord(m, cr3, va);
            var m1 := Rewritten(m, cr3, va, Entry(paddr, flags));
            var m2 := Rewritten(m1, cr3, va, Entry(PageMask(former), FlagMask(former)));
            m2 == m <==> Present(former)
  {
    var former, f, i := WindowWord(m, cr3, va), TableFrame(m, cr3, Pdi(va)), Pti(va);
    var e := Entry(PageMask(former), FlagMask(former));
    EntryChangesOnePage(m, cr3, va, Entry(paddr, flags));
    var m1 := Rewritten(m, cr3, va, Entry(paddr, flags));
    var m2 := Rewritten(m1, cr3, va, e);
    SplitWord(former);
    hide Entry, WellFormed, Walk;
    assert m2[f][i] == e;
    if Present(former) {
      assert m2[f] == m[f];
      assert m2 == m;
    }
  }

  lemma SplitWord(w: Word)
    ensures PageMask(w) % 4096 == 0 && PageMask(w) + FlagMask(w) == w
    ensures FlagMask(w) % 4096 == FlagMask(w) && FlagMask(w) % 2 == w % 2
  {
    hide PageMask, FlagMask;
    Small(w % 4096, 4096);
    Parity(w);
  }
}
