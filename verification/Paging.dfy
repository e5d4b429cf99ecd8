/** 32-bit two-level paging with a recursive directory slot (stage3/mem/vaddr.cpp).
    Every table edit goes through virtual addresses at 0xFFC00000, which are
    translated by the tables being edited. */
module Paging {
  import opened Bits
  import opened PhysMem

  datatype Option<+T> = None | Some(value: T)

  const PRESENT: Word := 1
  const RW: Word := 2
  const PT_PAGE_MASK: Word := 0xFFFF_F000
  const PT_FLAGS_MASK: Word := 0xFFF
  const PT_INVALID_PAGE: Word := 0xFFFF_FFFF
  const PT_WINDOW: Word := 0xFFC0_0000
  const PD_WINDOW: Word := 0xFFFF_F000

  // A virtual page number: the top 20 bits of a virtual address
  type VPage = p: int | 0 <= p < 0x10_0000

  predicate Present(e: Word) { e % 2 == 1 }

  // Page-size bit of a directory entry (CR4.PSE is set by stage 2)
  predicate Large(e: Word) { e / 128 % 2 == 1 }

  function FrameOf(e: Word): FrameNo { e / 4096 }

  function PageOf(va: Word): VPage { va / 4096 }

  function Pdi(va: Word): Index { va / 0x40_0000 }

  function Pti(va: Word): Index { va / 4096 % 1024 }

  // ---------- what the hardware does ----------

  /** The page walk of 32-bit paging: the frame that a virtual page maps to. */
  function Walk(m: Memory, cr3: FrameNo, p: VPage): Option<FrameNo> {
    var pde := m[cr3][p / 1024];
    if !Present(pde) then None
    else if Large(pde) then Some(pde / 0x40_0000 * 1024 + p % 1024)
    else
      var pte := m[FrameOf(pde)][p % 1024];
      if Present(pte) then Some(FrameOf(pte)) else None
  }

  // Directory slot i refers to a page table
  predicate HasTable(m: Memory, cr3: FrameNo, i: Index) {
    Present(m[cr3][i]) && !Large(m[cr3][i])
  }

  function TableFrame(m: Memory, cr3: FrameNo, i: Index): FrameNo {
    FrameOf(m[cr3][i])
  }

  /** The directory refers to itself in slot 1023, and no two slots share a table. */
  ghost predicate WellFormed(m: Memory, cr3: FrameNo) {
    && HasTable(m, cr3, 1023) && TableFrame(m, cr3, 1023) == cr3
    && forall i: Index, j: Index :: i != j && HasTable(m, cr3, i) && HasTable(m, cr3, j)
         ==> TableFrame(m, cr3, i) != TableFrame(m, cr3, j)
  }

  ghost predicate IsTable(m: Memory, cr3: FrameNo, f: FrameNo) {
    exists i: Index :: HasTable(m, cr3, i) && TableFrame(m, cr3, i) == f
  }

  /** None of these pages holds a page table; the directory may be among them. */
  ghost predicate OnlyDirectory(m: Memory, cr3: FrameNo, pages: seq<nat>) {
    forall i :: 0 <= i < |pages| && pages[i] < TWO_32 && IsTable(m, cr3, pages[i] / 4096) ==>
      pages[i] == Address(cr3)
  }

  /** No cached translation disagrees with the tables. */
  ghost predicate Coherent(m: Memory, cr3: FrameNo, tlb: map<VPage, FrameNo>) {
    forall p: VPage :: p in tlb ==> Walk(m, cr3, p) == Some(tlb[p])
  }

  // ---------- what the masks mean ----------

  function PageMask(w: Word): (r: Word)
    ensures r == w / 4096 * 4096
  {
    Pow2Values(); AndHighMask(w, 32, 12);
    And(w, PT_PAGE_MASK)
  }

  function FlagMask(w: Word): (r: Word)
    ensures r == w % 4096
  {
    Pow2Values(); AndLowMask(w, 12);
    And(w, PT_FLAGS_MASK)
  }

  function PtiOf(va: Word): (r: Index)
    ensures r == Pti(va)
  {
    Pow2Values(); AndLowMask(va / 4096, 10);
    And(va / 4096, 0x3FF)
  }

  // The three bits left to the operating system
  function FlagBits(w: Word): (r: Word)
    ensures r == w % 4096 / 512 * 512
  {
    Pow2Values();
    AndBelow(w, 0xE00, 12);
    AndHighMask(w % 4096, 12, 9);
    And(w, 0xE00)
  }

  function LowBit(w: Word): (r: Word)
    ensures r == w % 2
  {
    Pow2Values(); AndLowMask(w, 1);
    And(w, PRESENT)
  }

  /** The entry pt_map and pd_map store: it is present, whatever the flags, and
      refers to the frame of paddr, whatever the low bits of paddr.  For the address of a page
      it is the address with the 12 low flags and the present bit behind it. */
  function Entry(paddr: Word, flags: Word): (e: Word)
    ensures Present(e) && FrameOf(e) == FrameOf(paddr)
    ensures paddr % 4096 == 0 ==> e == paddr + flags % 4096 + (if flags % 2 == 1 then 0 else 1)
    ensures e % 4096 == Or(Or(paddr % 4096, flags % 4096), 1)
  {
    EntryFields(paddr, flags % 4096);
    AlignedEntry(paddr, flags % 4096);
    Or(Or(paddr, FlagMask(flags)), PRESENT)
  }

  lemma EntryFields(paddr: Word, f: nat)
    requires f < 4096
    ensures Or(paddr, f) < TWO_32
    ensures var e := Or(Or(paddr, f), 1);
            && e < TWO_32 && e % 2 == 1 && e / 4096 == paddr / 4096
            && e % 4096 == Or(Or(paddr % 4096, f), 1)
  {
    Pow2Values();
    hide Or, Pow2;
    OrBound(paddr, f, 32);
    OrLow(paddr, f, 12);
    var w := Or(paddr, f);
    OrBound(w, 1, 32);
    OrLow(w, 1, 12);
    OrOne(w);
  }

  lemma AlignedEntry(paddr: Word, f: nat)
    requires f < 4096
    ensures paddr % 4096 == 0 ==> Or(Or(paddr, f), 1) == paddr + f + (if f % 2 == 1 then 0 else 1)
  {
    Pow2Values();
    assert Or(0, f) == f;
    hide Or, Pow2;
    OrLow(paddr, f, 12);
    if paddr % 4096 == 0 { Joined(Or(paddr, f), paddr, f); }
    OrOne(Or(paddr, f));
  }

  lemma Joined(w: nat, paddr: Word, f: nat)
    requires w / 4096 == paddr / 4096 && paddr % 4096 == 0 && w % 4096 == f
    ensures w == paddr + f && w % 2 == f % 2
  {}

  lemma OrOne(w: nat)
    ensures Or(w, 1) == w + (if w % 2 == 1 then 0 else 1)
  {
    OrStep(w, 1);
    assert Or(w / 2, 0) == w / 2;
    hide Or;
  }

  // ---------- the recursive window ----------

  /** The address the code uses for word pti of the table in slot pdi. */
  function WindowAddr(pdi: Index, pti: Index): Word {
    PT_WINDOW + 0x1000 * pdi + 4 * pti
  }

  // The virtual page of the window that shows slot pdi
  function WindowPage(pdi: Index): VPage { 1023 * 1024 + pdi }

  /** The word of physical memory that WindowAddr(pdi, pti) stands for. */
  function WindowWord(m: Memory, cr3: FrameNo, va: Word): Word {
    m[TableFrame(m, cr3, Pdi(va))][Pti(va)]
  }

  /** Through the self reference, 0xFFC00000 + 0x1000*pdi + 4*pti is translated to
      word pti of the frame named by directory entry pdi, exactly when that entry is
      present; the last page of the window is the directory itself. */
  lemma WindowReachesTable(m: Memory, cr3: FrameNo, pdi: Index, pti: Index)
    requires WellFormed(m, cr3)
    ensures var va := WindowAddr(pdi, pti);
            && va % 4096 / 4 == pti && PageOf(va) == WindowPage(pdi)
            && Walk(m, cr3, WindowPage(pdi)) ==
               (if Present(m[cr3][pdi]) then Some(TableFrame(m, cr3, pdi)) else None)
    ensures WindowAddr(1023, pdi) == PD_WINDOW + 4 * pdi
            && PageOf(PD_WINDOW + 4 * pdi) == WindowPage(1023)
    ensures Walk(m, cr3, WindowPage(1023)) == Some(cr3)
  {
    WindowAddrSplit(pdi, pti);
    WindowAddrSplit(1023, pdi);
    hide WindowAddr, PageOf;
  }

  lemma WindowAddrSplit(pdi: Index, pti: Index)
    ensures var va := WindowAddr(pdi, pti);
            va % 4096 == 4 * pti && va % 4096 / 4 == pti && PageOf(va) == WindowPage(pdi)
    ensures WindowPage(pdi) / 1024 == 1023 && WindowPage(pdi) % 1024 == pdi
    ensures pdi == 1023 ==> WindowAddr(pdi, pti) == PD_WINDOW + 4 * pti
  {
    DivModUnique(WindowAddr(pdi, pti), 4096, WindowPage(pdi), 4 * pti);
    DivModUnique(WindowPage(pdi), 1024, 1023, pdi);
  }

  // ---------- what an edit of one entry does ----------

  /** Overwriting the entry of page `PageOf(va)` changes that translation to the new
      entry's and no other, and keeps the tree well formed. */
  lemma EntryChangesOnePage(m: Memory, cr3: FrameNo, va: Word, e: Word)
    requires WellFormed(m, cr3) && HasTable(m, cr3, Pdi(va)) && Pdi(va) != 1023
    ensures var m' := Set(m, TableFrame(m, cr3, Pdi(va)), Pti(va), e);
            && WellFormed(m', cr3) && m'[cr3] == m[cr3]
            && Walk(m', cr3, PageOf(va)) == (if Present(e) then Some(FrameOf(e)) else None)
            && forall p: VPage :: p != PageOf(va) ==> Walk(m', cr3, p) == Walk(m, cr3, p)
  {
    var f := TableFrame(m, cr3, Pdi(va));
    var m' := Set(m, f, Pti(va), e);
    assert f != cr3;
    assert m'[cr3] == m[cr3];
    assert forall i: Index :: HasTable(m', cr3, i) == HasTable(m, cr3, i)
                           && TableFrame(m', cr3, i) == TableFrame(m, cr3, i);
    assert PageOf(va) / 1024 == Pdi(va);
    forall p: VPage | p != PageOf(va)
      ensures Walk(m', cr3, p) == Walk(m, cr3, p)
    {
      if HasTable(m, cr3, p / 1024) && TableFrame(m, cr3, p / 1024) == f {
        assert p / 1024 == Pdi(va);
        assert p % 1024 != Pti(va);
      }
    }
  }

  /** A write to a frame that holds no table changes no translation. */
  lemma DataWriteKeepsTables(m: Memory, cr3: FrameNo, f: FrameNo, i: Index, v: Word)
    requires WellFormed(m, cr3) && !IsTable(m, cr3, f)
    ensures var m' := Set(m, f, i, v);
            && WellFormed(m', cr3) && m'[cr3] == m[cr3]
            && (forall g: FrameNo :: IsTable(m', cr3, g) == IsTable(m, cr3, g))
            && forall p: VPage :: Walk(m', cr3, p) == Walk(m, cr3, p)
  {
    var m' := Set(m, f, i, v);
    assert HasTable(m, cr3, 1023);
    assert m'[cr3] == m[cr3];
    SameDirectory(m, m', cr3);
    forall p: VPage
      ensures Walk(m', cr3, p) == Walk(m, cr3, p)
    {
      if HasTable(m, cr3, p / 1024) {
        assert TableFrame(m, cr3, p / 1024) != f;
      }
    }
  }

  lemma SameDirectory(m: Memory, m': Memory, cr3: FrameNo)
    requires m'[cr3] == m[cr3]
    ensures WellFormed(m, cr3) == WellFormed(m', cr3)
    ensures forall g: FrameNo :: IsTable(m', cr3, g) == IsTable(m, cr3, g)
  {
    assert forall i: Index :: HasTable(m', cr3, i) == HasTable(m, cr3, i)
                           && TableFrame(m', cr3, i) == TableFrame(m, cr3, i);
  }

  /** Putting a fresh frame into an empty directory slot: nothing that was mapped moves,
      and only the pages of the slot and its window page can become mapped. */
  lemma NewTable(m: Memory, cr3: FrameNo, pdi: Index, e: Word)
    requires WellFormed(m, cr3) && pdi != 1023 && !Present(m[cr3][pdi])
    requires Present(e) && !Large(e) && !IsTable(m, cr3, FrameOf(e))
    ensures var m' := Set(m, cr3, pdi, e);
            && WellFormed(m', cr3) && HasTable(m', cr3, pdi) && TableFrame(m', cr3, pdi) == FrameOf(e)
            && (forall g: FrameNo :: IsTable(m', cr3, g) <==> IsTable(m, cr3, g) || g == FrameOf(e))
            && (forall p: VPage :: p / 1024 != pdi && p != WindowPage(pdi) ==>
                  Walk(m', cr3, p) == Walk(m, cr3, p))
    ensures Walk(m, cr3, WindowPage(pdi)) == None
    ensures forall p: VPage :: p / 1024 == pdi ==> Walk(m, cr3, p) == None
  {
    var m' := Set(m, cr3, pdi, e);
    assert HasTable(m, cr3, 1023);
    assert forall i: Index :: i != pdi ==>
      HasTable(m', cr3, i) == HasTable(m, cr3, i) && TableFrame(m', cr3, i) == TableFrame(m, cr3, i);
    forall g: FrameNo
      ensures IsTable(m', cr3, g) <==> IsTable(m, cr3, g) || g == FrameOf(e)
    {
      if g == FrameOf(e) { assert HasTable(m', cr3, pdi); }
      if IsTable(m, cr3, g) {
        var i: Index :| HasTable(m, cr3, i) && TableFrame(m, cr3, i) == g;
        assert HasTable(m', cr3, i);
      }
    }
    forall p: VPage | p / 1024 != pdi && p != WindowPage(pdi)
      ensures Walk(m', cr3, p) == Walk(m, cr3, p)
    {
      if HasTable(m, cr3, p / 1024) && p / 1024 != 1023 {
        assert TableFrame(m, cr3, p / 1024) != cr3;
      }
    }
  }

  // ---------- when a write to any frame keeps every translation ----------

  /** Page j of the 4 MiB behind a directory entry. */
  function Behind(m: Memory, pde: Word, j: Index): Option<FrameNo> {
    if !Present(pde) then None
    else if Large(pde) then Some(pde / 0x40_0000 * 1024 + j)
    else if Present(m[FrameOf(pde)][j]) then Some(FrameOf(m[FrameOf(pde)][j]))
    else None
  }

  /** The two table entries map alike. */
  predicate SameEntry(e: Word, v: Word) {
    Present(e) == Present(v) && (Present(e) ==> FrameOf(e) == FrameOf(v))
  }

  ghost predicate SameWalks(m: Memory, m': Memory, cr3: FrameNo) {
    forall p: VPage :: Walk(m', cr3, p) == Walk(m, cr3, p)
  }

  /** Writing v as word k of frame f is harmless: f is no table; or it is a page table, and
      the new entry maps like the old one; or it is the directory, and the 4 MiB behind slot
      k, and the page that shows its table, map like before. */
  ghost predicate Harmless(m: Memory, cr3: FrameNo, f: FrameNo, k: Index, v: Word) {
    if f == cr3 then
      && (k != 1023 ==> SameEntry(m[cr3][k], v))
      && forall j: Index :: Behind(Set(m, cr3, k, v), v, j) == Behind(m, m[cr3][k], j)
    else
      IsTable(m, cr3, f) ==> SameEntry(m[f][k], v)
  }

  /** A write keeps every translation exactly when it is harmless. */
  lemma WriteKeepsWalks(m: Memory, cr3: FrameNo, f: FrameNo, k: Index, v: Word)
    requires WellFormed(m, cr3)
    ensures SameWalks(m, Set(m, f, k, v), cr3) <==> Harmless(m, cr3, f, k, v)
  {
    if f == cr3 {
      DirectoryWrite(m, cr3, k, v);
    } else if !IsTable(m, cr3, f) {
      DataWriteKeepsTables(m, cr3, f, k, v);
    } else {
      var i: Index :| HasTable(m, cr3, i) && TableFrame(m, cr3, i) == f;
      TableWrite(m, cr3, i, k, v);
    }
  }

  /** The address of the first byte behind word k of slot i. */
  lemma PageBehind(i: Index, k: Index) returns (va: Word)
    ensures Pdi(va) == i && Pti(va) == k && PageOf(va) / 1024 == i && PageOf(va) % 1024 == k
  {
    va := i * 0x40_0000 + k * 0x1000;
    DivModUnique(va, 0x40_0000, i, k * 0x1000);
    DivModUnique(va, 4096, i * 1024 + k, 0);
    DivModUnique(i * 1024 + k, 1024, i, k);
  }

  lemma TableWrite(m: Memory, cr3: FrameNo, i: Index, k: Index, v: Word)
    requires WellFormed(m, cr3) && HasTable(m, cr3, i) && TableFrame(m, cr3, i) != cr3
    ensures SameWalks(m, Set(m, TableFrame(m, cr3, i), k, v), cr3) <==>
            SameEntry(m[TableFrame(m, cr3, i)][k], v)
  {
    var va := PageBehind(i, k);
    EntryChangesOnePage(m, cr3, va, v);
  }

  lemma DirectoryWrite(m: Memory, cr3: FrameNo, k: Index, v: Word)
    requires WellFormed(m, cr3)
    ensures SameWalks(m, Set(m, cr3, k, v), cr3) <==> Harmless(m, cr3, cr3, k, v)
  {
    var m' := Set(m, cr3, k, v);
    assert HasTable(m, cr3, 1023);
    forall p: VPage
      ensures Walk(m, cr3, p) == Behind(m, m[cr3][p / 1024], p % 1024)
      ensures Walk(m', cr3, p) == Behind(m', m'[cr3][p / 1024], p % 1024)
    {}
    if Harmless(m, cr3, cr3, k, v) {
      forall p: VPage
        ensures Walk(m', cr3, p) == Walk(m, cr3, p)
      {
        if p / 1024 != k && p / 1024 != 1023 && HasTable(m, cr3, p / 1024) {
          assert TableFrame(m, cr3, p / 1024) != cr3;
        }
      }
    }
    if SameWalks(m, m', cr3) {
      forall j: Index
        ensures Behind(m', v, j) == Behind(m, m[cr3][k], j)
      {
        var p: VPage := k * 1024 + j;
        assert p / 1024 == k && p % 1024 == j;
      }
      if k != 1023 {
        assert WindowPage(k) / 1024 == 1023 && WindowPage(k) % 1024 == k;
        assert Walk(m', cr3, WindowPage(k)) == Walk(m, cr3, WindowPage(k));
      }
    }
  }
}
