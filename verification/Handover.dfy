/** From the boot stage to the kernel: pmm_init accepts the map that stage 2 leaves, and of
    the frames that stage 2 handed out the kernel manages its window page alone.  On an
    ordinary machine the frame of the page directory stays in the map and goes on the list. */
module Handover {
  import opened Bits
  import opened Seqs
  import opened PhysMem
  import opened Paging
  import opened MemoryMap
  import Stage2
  import Pmms

  /** w0 is a frame that stage 2 handed out and that holds no table. */
  lemma FramesStayOut(loader: Stage2.Loader, w0: FrameNo)
    requires loader.Valid() && Address(w0) in loader.handed
    ensures |Pages(loader.e820)| + |loader.handed| == |loader.initial|
    ensures forall w :: w in loader.handed ==> w !in Pages(loader.e820)
    ensures Distinct(loader.handed)
    ensures Enumerable(loader.e820) && |loader.e820| <= 0xFFFF
    ensures Pmms.Listable(Pages(loader.e820), w0)
    ensures OnlyDirectory(loader.mmu.mem, loader.mmu.cr3, Pages(loader.e820))
  {
    Stage2.ShrunkIsEnumerable(loader.e820, loader.entriesIndex);
    hide Pages, WellFormed, Coherent, Stage2.Recorded, Enumerable, OnlyDirectory;
    var pages, handed, all := Pages(loader.e820), loader.handed, loader.initial;
    assert forall i :: 0 <= i < |pages| ==> all[i] == pages[i];
    assert forall i :: 0 <= i < |handed| ==> all[|pages| + i] == handed[i];
    forall w | w in handed
      ensures w !in pages
    {
      var k :| 0 <= k < |handed| && handed[k] == w;
      assert all[|pages| + k] == w;
    }
    forall i | 0 <= i < |pages|
      ensures pages[i] < TWO_32 && pages[i] % 4096 == 0 && pages[i] != Address(w0)
    {
      assert pages[i] in pages;
      Stage2.PagesBelow(loader.e820, loader.entriesIndex, pages[i]);
    }
  }

  /** The directory is none of the pages that become tables of the list, every 1024th. */
  ghost predicate NotAtSwitch(pages: seq<nat>, cr3: FrameNo) {
    forall i :: 0 <= i < |pages| && i % 1024 == 1023 ==> pages[i] != Address(cr3)
  }

  /** What pmm_init needs of the pages, where only the directory holds a table. */
  lemma SwitchesApartMeans(m: Memory, cr3: FrameNo, pages: seq<nat>)
    requires WellFormed(m, cr3) && OnlyDirectory(m, cr3, pages)
    ensures Pmms.SwitchesApart(m, cr3, pages) <==> NotAtSwitch(pages, cr3)
  {
    assert HasTable(m, cr3, 1023);
    assert IsTable(m, cr3, cr3);
    hide IsTable, WellFormed;
  }

  /** pmm_init on what stage 2 leaves: whenever the page of curr_pages is one that stage 2
      mapped, the allocator starts in order, manages every page that is left and the frame
      of curr_pages, and no other frame that stage 2 handed out; and everything stage 2
      mapped stays mapped. */
  method StartAllocator(loader: Stage2.Loader, pmm: Pmms.Pmm)
    requires loader.Valid() && pmm.mmu == loader.mmu
    requires pmm.currPages % 4096 == 0 && PageOf(pmm.currPages) in loader.mapped
    requires NotAtSwitch(Pages(loader.e820), loader.mmu.cr3)
    modifies pmm, pmm.mmu`mem, pmm.mmu`tlb
    ensures pmm.Valid() && pmm.pfree == |Pages(loader.e820)| + 1
    ensures forall w :: w in pmm.all && w in loader.handed <==> w == Address(loader.mapped[PageOf(pmm.currPages)])
    ensures forall w :: w in Pages(loader.e820) ==> w in pmm.all
    ensures forall j :: 0 <= j < |Pages(loader.e820)| && j % 1024 != 1023 ==> pmm.Free()[j] == Pages(loader.e820)[j]
    ensures Address(pmm.mmu.cr3) in pmm.Free() <==> Address(pmm.mmu.cr3) in Pages(loader.e820)
    ensures forall p: VPage :: p in loader.mapped && p != PageOf(pmm.currPages) ==>
      Walk(pmm.mmu.mem, pmm.mmu.cr3, p) == Some(loader.mapped[p])
    ensures Pmms.SameMappings(old(pmm.mmu.mem), pmm.mmu.mem, pmm.mmu.cr3, PageOf(pmm.currPages))
  {
    ghost var w0 := loader.mapped[PageOf(pmm.currPages)];
    assert PageOf(pmm.currPages) / 1024 == Pdi(pmm.currPages);
    FramesStayOut(loader, w0);
    SwitchesApartMeans(loader.mmu.mem, loader.mmu.cr3, Pages(loader.e820));
    hide Stage2.Shrunk, Pages, WellFormed, Coherent, Enumerable, Pmms.Listable, OnlyDirectory, Pmms.Managed,
      Pmms.SwitchesApart, Pmms.Stack;
    pmm.Init(loader.e820);
  }

  // ---------- an ordinary machine ----------

  /** Conventional memory first, as the kernel's own listing has it, and the directory in one
      of the frames that stage 2 is linked into. */
  predicate Ordinary(map0: seq<Region>, cr3: FrameNo) {
    |map0| > 0 && map0[0] == Region(0, 0x9_FC00, 1) && 1 <= cr3 <= 5
  }

  lemma FirstPages(map0: seq<Region>, cr3: FrameNo)
    requires Ordinary(map0, cr3)
    ensures |Pages(map0)| >= 160 && forall i :: 0 <= i < 160 ==> Pages(map0)[i] == 4096 * i
  {
    var first := RegionPages(map0[0]);
    assert Pages(map0) == first + Pages(map0[1..]);
    assert forall i :: 0 <= i < 160 ==> first[i] == 4096 * i;
  }

  /** On an ordinary machine page number cr3 of the map is the frame of the directory.  As
      frames are taken from the top, it stays in the map while more than cr3 pages are left,
      and is not among the next n frames exactly when more than cr3 are left after them, or
      it is gone. */
  lemma DirectoryIsListed(loader: Stage2.Loader, map0: seq<Region>, cr3: FrameNo, n: nat)
    requires loader.SourceValid() && Ordinary(map0, cr3) && loader.initial == Pages(map0)
    requires n <= |Pages(loader.e820)|
    ensures var pages := Pages(loader.e820);
            && (Address(cr3) in pages <==> |pages| > cr3) && (|pages| > cr3 ==> pages[cr3] == Address(cr3))
            && NotAtSwitch(pages, cr3)
            && (Address(cr3) !in pages[|pages| - n..] <==> |pages| - n > cr3 || |pages| <= cr3)
  {
    FirstPages(map0, cr3);
    PrefixHolds(Pages(map0), Pages(loader.e820), loader.handed, cr3, n);
  }

  lemma PrefixHolds(all: seq<nat>, pages: seq<nat>, handed: seq<nat>, cr3: FrameNo, n: nat)
    requires pages + handed == all && Distinct(all) && n <= |pages|
    requires cr3 < |all| && cr3 % 1024 != 1023 && all[cr3] == Address(cr3)
    ensures Address(cr3) in pages <==> |pages| > cr3
    ensures |pages| > cr3 ==> pages[cr3] == Address(cr3)
    ensures NotAtSwitch(pages, cr3)
    ensures Address(cr3) !in pages[|pages| - n..] <==> |pages| - n > cr3 || |pages| <= cr3
  {
    forall i | 0 <= i < |pages|
      ensures pages[i] == Address(cr3) <==> i == cr3
    {
      assert all[i] == pages[i];
    }
    var tail := pages[|pages| - n..];
    if |pages| - n <= cr3 < |pages| {
      assert tail[cr3 - (|pages| - n)] == Address(cr3);
    }
  }

  /** Stage 2 between two calls of pt_map: i pages were asked for, the first 4 MiB are the
      only ones mapped by one entry, and to themselves. */
  ghost predicate Booting(loader: Stage2.Loader, map0: seq<Region>, cr3: FrameNo, i: nat)
    reads loader, loader.mmu
  {
    && loader.Valid() && loader.initial == Pages(map0) && loader.mmu.cr3 == cr3
    && |loader.handed| <= 2 * i
    && (forall j: Index :: j > 0 && Present(loader.mmu.mem[cr3][j]) ==> !Large(loader.mmu.mem[cr3][j]))
    && (forall p: VPage :: p < 1024 ==> Walk(loader.mmu.mem, cr3, p) == Some(p))
  }

  method MapNext(loader: Stage2.Loader, map0: seq<Region>, cr3: FrameNo, i: nat, va: Word)
    requires Booting(loader, map0, cr3, i) && Ordinary(map0, cr3) && |Pages(map0)| > 2 * i + 2 + cr3
    requires 0 < Pdi(va) < 1023
    modifies loader, loader.mmu`mem, loader.mmu`tlb
    ensures Booting(loader, map0, cr3, i + 1)
    ensures loader.mapped.Keys == old(loader.mapped).Keys + {PageOf(va)}
  {
    hide Stage2.Shrunk, Pages, WellFormed, Coherent, Walk, OnlyDirectory, Stage2.Recorded, NotAtSwitch;
    assert |Pages(loader.e820)| + |loader.handed| == |Pages(map0)|;
    DirectoryIsListed(loader, map0, cr3, loader.Needed(va));
    assert PageOf(va) >= 1024;
    loader.PtMap(va);
    assert |Pages(loader.e820)| + |loader.handed| == |Pages(map0)|;
  }

  method MapAll(loader: Stage2.Loader, map0: seq<Region>, cr3: FrameNo, vas: seq<Word>)
    requires Booting(loader, map0, cr3, 0) && Ordinary(map0, cr3) && |Pages(map0)| > 2 * |vas| + cr3
    requires forall va :: va in vas ==> 0 < Pdi(va) < 1023
    modifies loader, loader.mmu`mem, loader.mmu`tlb
    ensures Booting(loader, map0, cr3, |vas|)
    ensures forall va :: va in vas ==> PageOf(va) in loader.mapped
  {
    hide Booting, Pages, Ordinary;
    var i := 0;
    while i < |vas|
      invariant 0 <= i <= |vas| && Booting(loader, map0, cr3, i)
      invariant forall k :: 0 <= k < i ==> PageOf(vas[k]) in loader.mapped
    {
      MapNext(loader, map0, cr3, i, vas[i]);
      i := i + 1;
    }
  }

  lemma BootingStarts(loader: Stage2.Loader, map0: seq<Region>, cr3: FrameNo)
    requires loader.Valid() && loader.initial == Pages(map0) && loader.handed == []
    requires loader.mmu.cr3 == cr3 && Stage2.Fresh(loader.mmu.mem, cr3)
    ensures Booting(loader, map0, cr3, 0)
  {
    Stage2.FreshDirectory(loader.mmu.mem, cr3);
    assert !Present(2) && !Large(loader.mmu.mem[cr3][1023]);
    hide Pages, WellFormed, Coherent, Walk;
  }

  lemma BootingMeans(loader: Stage2.Loader, map0: seq<Region>, cr3: FrameNo, i: nat)
    requires Booting(loader, map0, cr3, i) && Ordinary(map0, cr3) && |Pages(map0)| > 2 * i + cr3
    ensures var pages := Pages(loader.e820);
            |pages| > cr3 && pages[cr3] == Address(cr3) && NotAtSwitch(pages, cr3)
    ensures loader.Valid() && loader.mmu.cr3 == cr3
    ensures forall p: VPage, q: VPage :: p in loader.mapped && q in loader.mapped && p != q ==>
      loader.mapped[p] != loader.mapped[q]
    ensures forall p: VPage :: p < 1024 ==> Walk(loader.mmu.mem, cr3, p) == Some(p)
  {
    assert |Pages(loader.e820)| + |loader.handed| == |Pages(map0)|;
    DirectoryIsListed(loader, map0, cr3, 0);
    hide Pages, WellFormed, Coherent, NotAtSwitch;
  }

  // Stage 2
  method Load(m: Memory, cr3: FrameNo, map0: seq<Region>, vas: seq<Word>) returns (loader: Stage2.Loader)
    requires Ordinary(map0, cr3) && |map0| <= 0xFFFF && |Pages(map0)| > 2 * |vas| + cr3
    requires exists k :: 0 <= k < |map0| && map0[k].kind != USABLE
    requires Enumerable(map0) && forall i :: 0 <= i < Lead(map0) ==> map0[i].length > 0
    requires Stage2.Disjoint(map0)
    requires forall va :: va in vas ==> 0 < Pdi(va) < 1023
    ensures fresh(loader) && fresh(loader.mmu) && Booting(loader, map0, cr3, |vas|)
    ensures forall va :: va in vas ==> PageOf(va) in loader.mapped
  {
    assert map0[0].kind == USABLE;
    hide Stage2.Shrunk, Stage2.Disjoint, Pages, Enumerable, WellFormed, Coherent, Walk, OnlyDirectory, Ordinary,
      Stage2.Recorded, Distinct;
    loader := new Stage2.Loader(m, cr3, map0);
    BootingStarts(loader, map0, cr3);
    hide Booting;
    MapAll(loader, map0, cr3, vas);
  }

  /** Stage 2 and pmm_init in a row on an ordinary machine with enough memory, for any pages
      above the first 4 MiB and below the window, curr_pages among them: all of them get
      frames of their own, the first 4 MiB stay mapped to themselves, and the allocator starts
      in order with the directory as number cr3 of its free pages. */
  method Boot(m: Memory, cr3: FrameNo, map0: seq<Region>, vas: seq<Word>, currPages: Word)
    returns (loader: Stage2.Loader, pmm: Pmms.Pmm)
    requires Ordinary(map0, cr3) && |map0| <= 0xFFFF && |Pages(map0)| > 2 * |vas| + cr3
    requires exists k :: 0 <= k < |map0| && map0[k].kind != USABLE
    requires Enumerable(map0) && forall i :: 0 <= i < Lead(map0) ==> map0[i].length > 0
    requires Stage2.Disjoint(map0)
    requires forall va :: va in vas ==> 0 < Pdi(va) < 1023
    requires currPages % 4096 == 0 && currPages in vas
    ensures pmm.Valid() && pmm.mmu.cr3 == cr3
    ensures pmm.pfree > cr3 + 1 && pmm.Free()[cr3] == Address(cr3)
    ensures forall va :: va in vas ==> PageOf(va) in loader.mapped
    ensures forall va :: va in vas && PageOf(va) != PageOf(currPages) ==>
      Walk(pmm.mmu.mem, cr3, PageOf(va)) == Some(loader.mapped[PageOf(va)])
    ensures forall p: VPage, q: VPage :: p in loader.mapped && q in loader.mapped && p != q ==>
      loader.mapped[p] != loader.mapped[q]
    ensures forall p: VPage :: p < 1024 ==> Walk(pmm.mmu.mem, cr3, p) == Some(p)
  {
    assert cr3 <= 5;
    hide Stage2.Shrunk, Stage2.Disjoint, Pages, Enumerable, WellFormed, Coherent, Walk, OnlyDirectory, NotAtSwitch,
      Ordinary, Booting, Pmms.Managed, Pmms.Stack, Pmms.Pmm.Ready, Stage2.Recorded, Distinct;
    loader := Load(m, cr3, map0, vas);
    BootingMeans(loader, map0, cr3, |vas|);
    pmm := new Pmms.Pmm(loader.mmu, currPages);
    assert PageOf(currPages) >= 1024;
    StartAllocator(loader, pmm);
  }
}
