/** The boot stage's frame source and page mapper (stage2/pt.c).  Frames are taken from
    the top of the memory map, which shrinks as they are handed out; page tables are
    created on demand and cleared through the recursive window. */
module Stage2 {
  import opened Bits
  import opened Seqs
  import opened PhysMem
  import opened Paging
  import opened Mmus
  import opened MemoryMap

  // ---------- the memory map shrinks from the top ----------

  /** The regions up to `top` are usable, page aligned and not empty; the usable regions
      above it are used up. */
  ghost predicate Shrunk(e820: seq<Region>, top: nat) {
    && top < |e820| <= 0xFFFF
    && (forall i :: 0 <= i <= top ==>
         e820[i].kind == USABLE && e820[i].base % 4096 == 0 && e820[i].length > 0 && End(e820[i]) < TWO_32)
    && Pages(e820[top + 1..]) == []
  }

  function Shrink(r: Region): Region {
    r.(length := if r.length >= 0x1000 then r.length - 0x1000 else 0)
  }

  lemma {:induction false} PagesSplit(e820: seq<Region>, k: nat)
    requires k <= |e820| && forall i :: 0 <= i < k ==> e820[i].kind == USABLE
    ensures Pages(e820) == Pages(e820[..k]) + Pages(e820[k..])
  {
    if k == 0 {
      assert e820[..0] == [] && e820[0..] == e820;
    } else {
      hide RegionPages;
      var t, h := e820[1..], e820[..k];
      assert t[..k - 1] == h[1..];
      assert t[k - 1..] == e820[k..];
      PagesSplit(t, k - 1);
      Associative(RegionPages(e820[0]), Pages(h[1..]), Pages(e820[k..]));
    }
  }

  lemma TopPages(e820: seq<Region>, top: nat)
    requires top < |e820| && forall i :: 0 <= i <= top ==> e820[i].kind == USABLE
    requires Pages(e820[top + 1..]) == []
    ensures Pages(e820) == Pages(e820[..top]) + RegionPages(e820[top])
  {
    PagesSplit(e820, top);
    assert e820[top..][1..] == e820[top + 1..];
  }

  /** Taking 4 KiB off the length of the topmost region takes exactly the last page off
      the map, also when the region ends inside that page. */
  lemma ShrinkDropsLast(e820: seq<Region>, top: nat)
    requires Shrunk(e820, top)
    ensures var r := e820[top]; var map' := e820[top := Shrink(r)];
            && Pages(e820) == Pages(map') + [End(r) - 0x1000]
            && End(Shrink(r)) == End(r) - 0x1000
            && (PageCount(Shrink(r).length) > 0 ==> Shrunk(map', top))
            && (PageCount(Shrink(r).length) == 0 && top > 0 ==> Shrunk(map', top - 1))
  {
    var r := e820[top];
    var map' := e820[top := Shrink(r)];
    assert PageCount(r.length) == PageCount(Shrink(r).length) + 1;
    assert RegionPages(r) == RegionPages(Shrink(r)) + [End(r) - 0x1000];
    assert map'[top + 1..] == e820[top + 1..] && map'[..top] == e820[..top];
    TopPages(e820, top);
    TopPages(map', top);
    if PageCount(Shrink(r).length) == 0 && top > 0 {
      assert map'[top..][1..] == e820[top + 1..];
      assert RegionPages(Shrink(r)) == [];
    }
  }

  lemma TopPagesNonEmpty(e820: seq<Region>, top: nat)
    requires Shrunk(e820, top)
    ensures |Pages(e820)| >= 1
    ensures top > 0 ==> |Pages(e820)| >= 2
  {
    ShrinkDropsLast(e820, top);
    if top > 0 {
      var e' := e820[..top];
      PagesSplit(e820, top);
      assert e'[top - 1..][1..] == [];
      PagesSplit(e', top - 1);
      TopPages(e820, top);
      assert Pages(e'[top - 1..]) == RegionPages(e820[top - 1]) + Pages([]);
    }
  }

  /** The rounded extents of the leading usable regions do not overlap. */
  ghost predicate Disjoint(e820: seq<Region>) {
    forall i, k :: 0 <= i < k < Lead(e820) ==>
      End(e820[i]) <= e820[k].base || End(e820[k]) <= e820[i].base
  }

  lemma {:induction false} PageWithin(e820: seq<Region>, w: nat)
    requires w in Pages(e820)
    ensures exists i :: 0 <= i < Lead(e820) && e820[i].base <= w < End(e820[i])
  {
    if w in RegionPages(e820[0]) {
      assert e820[0].base <= w < End(e820[0]);
    } else {
      PageWithin(e820[1..], w);
      var i :| 0 <= i < Lead(e820[1..]) && e820[1..][i].base <= w < End(e820[1..][i]);
      assert e820[i + 1] == e820[1..][i];
    }
  }

  lemma {:induction false} DisjointPages(e820: seq<Region>)
    requires Disjoint(e820)
    ensures forall i, k :: 0 <= i < k < |Pages(e820)| ==> Pages(e820)[i] != Pages(e820)[k]
  {
    if e820 != [] && e820[0].kind == USABLE {
      assert Disjoint(e820[1..]) by {
        assert forall i :: 0 <= i < |e820[1..]| ==> e820[1..][i] == e820[i + 1];
      }
      DisjointPages(e820[1..]);
      var a, b := RegionPages(e820[0]), Pages(e820[1..]);
      forall i, k | 0 <= i < |a| && 0 <= k < |b|
        ensures a[i] != b[k]
      {
        PageWithin(e820[1..], b[k]);
        var j :| 0 <= j < Lead(e820[1..]) && e820[1..][j].base <= b[k] < End(e820[1..][j]);
        assert e820[j + 1] == e820[1..][j];
      }
      assert Pages(e820) == a + b;
    }
  }

  /** `(base + length + 0x0FFF) & 0xFFFFF000`. */
  function RegionEnd(r: Region): (a: Word)
    requires OnPages(r)
    ensures a == End(r)
  {
    RoundUp(r.base, r.length);
    PageMask(r.base + r.length + 0xFFF)
  }

  lemma RoundUp(base: nat, length: Word)
    requires base % 4096 == 0
    ensures (base + length + 0xFFF) / 4096 * 4096 == base + 0x1000 * PageCount(length)
  {
    DivModUnique(base + length + 0xFFF, 4096, base / 4096 + (length + 0xFFF) / 4096, (length + 0xFFF) % 4096);
  }

  // ---------- a new table ----------

  /** `addr | 3`: the entry stage 2 stores for a page-aligned frame address. */
  function Writable(addr: Word): (e: Word)
    ensures Present(e) && FrameOf(e) == FrameOf(addr)
    ensures addr % 4096 == 0 ==> e == addr + 3 && !Large(e)
  {
    Pow2Values();
    OrBound(addr, 3, 32);
    OrLow(addr, 3, 12);
    OrStep(addr, 3);
    Or(addr, 3)
  }

  /** Overwriting the table of slot pdi, whatever the new contents, moves no page of
      another slot. */
  lemma OwnTableOnly(m: Memory, m': Memory, cr3: FrameNo, pdi: Index)
    requires WellFormed(m, cr3) && HasTable(m, cr3, pdi) && pdi != 1023
    requires forall f: FrameNo :: f != TableFrame(m, cr3, pdi) ==> m'[f] == m[f]
    ensures m'[cr3] == m[cr3] && WellFormed(m', cr3)
    ensures forall g: FrameNo :: IsTable(m', cr3, g) == IsTable(m, cr3, g)
    ensures forall p: VPage :: p / 1024 != pdi ==> Walk(m', cr3, p) == Walk(m, cr3, p)
  {
    assert HasTable(m, cr3, 1023);
    assert m'[cr3] == m[cr3];
    SameDirectory(m, m', cr3);
    forall p: VPage | p / 1024 != pdi
      ensures Walk(m', cr3, p) == Walk(m, cr3, p)
    {
      if HasTable(m, cr3, p / 1024) {
        assert TableFrame(m, cr3, p / 1024) != TableFrame(m, cr3, pdi);
      }
    }
  }

  // ---------- the loader ----------

  ghost predicate AlignedPages(s: seq<nat>) {
    forall i :: 0 <= i < |s| ==> s[i] % 4096 == 0
  }

  /** The mappings made so far are what the walk sees; they use frames that were handed
      out, no frame twice, and none that holds a table. */
  ghost predicate Recorded(m: Memory, cr3: FrameNo, mapped: map<VPage, FrameNo>, handed: seq<nat>) {
    && (forall p: VPage :: p in mapped ==>
         && HasTable(m, cr3, p / 1024) && p / 1024 != 1023
         && Walk(m, cr3, p) == Some(mapped[p]) && !IsTable(m, cr3, mapped[p]) && Address(mapped[p]) in handed)
    && (forall p: VPage, q: VPage :: p in mapped && q in mapped && p != q ==> mapped[p] != mapped[q])
  }

  /** The directory pt_init builds: 4 MiB of identity mapping and the self reference. */
  ghost predicate Fresh(m: Memory, cr3: FrameNo) {
    && m[cr3][0] == 0x8B && m[cr3][1023] == Writable(Address(cr3))
    && forall i: Index :: 0 < i < 1023 ==> m[cr3][i] == 2
  }

  lemma FreshDirectory(m: Memory, cr3: FrameNo)
    requires Fresh(m, cr3)
    ensures WellFormed(m, cr3)
    ensures forall f: FrameNo :: IsTable(m, cr3, f) <==> f == cr3
    ensures forall p: VPage :: p < 1024 ==> Walk(m, cr3, p) == Some(p)
    ensures forall p: VPage :: 1024 <= p < WindowPage(0) ==> Walk(m, cr3, p) == None
  {
    assert Large(0x8B) && !Present(2);
    assert HasTable(m, cr3, 1023);
    forall i: Index | HasTable(m, cr3, i)
      ensures i == 1023
    {
    }
    forall p: VPage | p < 1024
      ensures Walk(m, cr3, p) == Some(p)
    {
      assert p / 1024 == 0;
    }
    forall p: VPage | 1024 <= p < WindowPage(0)
      ensures Walk(m, cr3, p) == None
    {
      assert 0 < p / 1024 < 1023;
    }
  }

  lemma FreshWords(m: Memory, cr3: FrameNo)
    requires Fresh(m, cr3)
    ensures m[cr3][0] == 0x8B && m[cr3][1023] == 4096 * (cr3 as int) + 3
    ensures forall i: Index :: 0 < i < 1023 ==> m[cr3][i] == 2
  {}

  method InitDirectory(m: Memory, directory: FrameNo) returns (m': Memory)
    ensures Fresh(m', directory)
    ensures forall f: FrameNo :: f != directory ==> m'[f] == m[f]
  {
    m' := m;
    var i := 0;
    while i < 1024
      invariant 0 <= i <= 1024
      invariant forall k: Index :: k < i ==> m'[directory][k] == 2
      invariant forall f: FrameNo :: f != directory ==> m'[f] == m[f]
    {
      m' := Set(m', directory, i, 2);
      i := i + 1;
    }
    m' := Set(m', directory, 0, 0x8B);
    OrCommutes(Address(directory), 3);
    var self: Word := Writable(Address(directory));
    assert self == Or(3, Address(directory));
    m' := Set(m', directory, 1023, self);
  }

  lemma OrCommutes(x: nat, y: nat)
    ensures Or(x, y) == Or(y, x)
  {}

  /** The last of the leading usable regions; the scan needs a region of another type
      behind them to stop at. */
  method InitTop(e820: seq<Region>) returns (top: nat)
    requires |e820| > 0 && e820[0].kind == USABLE
    requires exists k :: 0 <= k < |e820| && e820[k].kind != USABLE
    ensures top + 1 < |e820| && e820[top + 1].kind != USABLE
    ensures forall i :: 0 <= i <= top ==> e820[i].kind == USABLE
  {
    top := 0;
    while e820[top + 1].kind == USABLE
      invariant top + 1 < |e820|
      invariant forall i :: 0 <= i <= top ==> e820[i].kind == USABLE
      decreases |e820| - top
    {
      top := top + 1;
    }
  }

  /** A valid memory map, which may list the frame of the directory, is a state to start from. */
  lemma StartState(m: Memory, cr3: FrameNo, map0: seq<Region>, top: nat)
    requires |map0| <= 0xFFFF && top + 1 < |map0| && map0[top + 1].kind != USABLE
    requires forall i :: 0 <= i <= top ==> map0[i].kind == USABLE
    requires Enumerable(map0) && forall i :: 0 <= i < Lead(map0) ==> map0[i].length > 0
    requires Disjoint(map0) && Fresh(m, cr3)
    ensures Shrunk(map0, top) && Distinct(Pages(map0)) && AlignedPages(Pages(map0))
    ensures WellFormed(m, cr3) && OnlyDirectory(m, cr3, Pages(map0))
    ensures Pages(map0) + [] == Pages(map0)
  {
    FreshDirectory(m, cr3);
    DisjointPages(map0);
    LeadIs(map0, top + 1);
    var pages := Pages(map0);
    forall i | 0 <= i < |pages|
      ensures pages[i] % 4096 == 0
    {
      assert pages[i] in pages;
      AlignedPage(map0, pages[i]);
    }
  }

  /** What mapping va to frame f does to the translations: a page of an existing table is
      the only one that changes; in a new table no other page is mapped, and besides them
      only the table's window page appears. */
  ghost predicate Mapped(m: Memory, m': Memory, cr3: FrameNo, va: Word, f: FrameNo) {
    && Walk(m', cr3, PageOf(va)) == Some(f)
    && (forall p: VPage :: p != PageOf(va) && p != WindowPage(Pdi(va)) ==> Walk(m', cr3, p) == Walk(m, cr3, p))
    && (Present(m[cr3][Pdi(va)]) ==> Walk(m', cr3, WindowPage(Pdi(va))) == Walk(m, cr3, WindowPage(Pdi(va))))
    && (!Present(m[cr3][Pdi(va)]) ==>
         forall p: VPage :: p / 1024 == Pdi(va) && p != PageOf(va) ==> Walk(m', cr3, p) == None)
  }

  /** A new, empty table in slot pdi: only its window page becomes mapped. */
  ghost predicate Installed(m: Memory, m': Memory, cr3: FrameNo, pdi: Index, f: FrameNo) {
    && HasTable(m', cr3, pdi) && m'[cr3][pdi] == Address(f) + 3
    && (forall i: Index :: i != pdi ==> m'[cr3][i] == m[cr3][i])
    && (forall g: FrameNo :: IsTable(m', cr3, g) <==> IsTable(m, cr3, g) || g == f)
    && (forall k: Index :: m'[f][k] == 2)
    && (forall p: VPage :: p != WindowPage(pdi) ==> Walk(m', cr3, p) == Walk(m, cr3, p))
  }

  /** The new table, after every word of it was cleared. */
  lemma TableInstalled(m: Memory, m': Memory, cr3: FrameNo, pdi: Index, e: Word)
    requires WellFormed(m, cr3) && pdi != 1023 && !Present(m[cr3][pdi])
    requires Present(e) && !Large(e) && !IsTable(m, cr3, FrameOf(e))
    requires var m1 := Set(m, cr3, pdi, e);
             && m'[cr3] == m1[cr3]
             && (forall g: FrameNo :: IsTable(m', cr3, g) == IsTable(m1, cr3, g))
             && (forall p: VPage :: p / 1024 != pdi ==> Walk(m', cr3, p) == Walk(m1, cr3, p))
    requires forall k: Index :: m'[FrameOf(e)][k] == 2
    requires e == Address(FrameOf(e)) + 3
    ensures Installed(m, m', cr3, pdi, FrameOf(e))
  {
    NewTable(m, cr3, pdi, e);
    hide WellFormed, IsTable;
    assert HasTable(m', cr3, pdi) && TableFrame(m', cr3, pdi) == FrameOf(e);
    forall p: VPage | p / 1024 == pdi
      ensures Walk(m', cr3, p) == None
    {
      assert m'[FrameOf(e)][p % 1024] == 2;
    }
  }

  /** Nothing of an empty slot is cached once the page of its window is dropped. */
  lemma EmptySlotNotCached(m: Memory, cr3: FrameNo, pdi: Index, e: Word, cached: map<VPage, FrameNo>,
                           tlb: map<VPage, FrameNo>)
    requires WellFormed(m, cr3) && pdi != 1023 && !Present(m[cr3][pdi]) && Coherent(m, cr3, cached)
    requires Present(e) && !Large(e) && !IsTable(m, cr3, FrameOf(e))
    requires forall p: VPage :: p in tlb ==> p in cached && tlb[p] == cached[p]
    ensures Coherent(Set(m, cr3, pdi, e), cr3, tlb) && forall p: VPage :: p in tlb ==> p / 1024 != pdi
  {
    NewTable(m, cr3, pdi, e);
    hide IsTable, Walk, WellFormed;
  }

  lemma PageNotTable(m: Memory, cr3: FrameNo, pages: seq<nat>, p: Word)
    requires OnlyDirectory(m, cr3, pages + [p]) && p != Address(cr3)
    ensures OnlyDirectory(m, cr3, pages) && !IsTable(m, cr3, FrameOf(p))
  {
    assert (pages + [p])[|pages|] == p;
    assert forall i :: 0 <= i < |pages| ==> (pages + [p])[i] == pages[i];
  }

  /** Whatever is not among the last n pages is neither the last nor among the n-1 before it. */
  lemma LastPages(pages: seq<nat>, p: nat, n: nat, w: nat)
    requires 1 <= n <= |pages| + 1 && w !in (pages + [p])[|pages| + 1 - n..]
    ensures p != w && w !in pages[|pages| - (n - 1)..]
  {
    assert (pages + [p])[|pages| + 1 - n..] == pages[|pages| - (n - 1)..] + [p];
  }

  lemma WindowUnmapped(m: Memory, cr3: FrameNo, pdi: Index)
    requires WellFormed(m, cr3) && !Present(m[cr3][pdi])
    ensures Walk(m, cr3, WindowPage(pdi)) == None
    ensures forall p: VPage :: p / 1024 == pdi ==> Walk(m, cr3, p) == None
  {}

  lemma InstalledKeepsRecord(m: Memory, m': Memory, cr3: FrameNo, pdi: Index, temp: Word, pages: seq<nat>,
                             mapped: map<VPage, FrameNo>, handed: seq<nat>)
    requires Installed(m, m', cr3, pdi, FrameOf(temp)) && Walk(m, cr3, WindowPage(pdi)) == None
    requires Recorded(m, cr3, mapped, handed) && OnlyDirectory(m, cr3, pages)
    requires temp % 4096 == 0 && temp !in handed && temp !in pages
    requires AlignedPages(pages)
    ensures Recorded(m', cr3, mapped, [temp] + handed) && OnlyDirectory(m', cr3, pages)
  {
    forall p: VPage | p in mapped
      ensures HasTable(m', cr3, p / 1024) && p / 1024 != 1023
      ensures Walk(m', cr3, p) == Some(mapped[p]) && !IsTable(m', cr3, mapped[p])
      ensures Address(mapped[p]) in [temp] + handed
    {
      assert Walk(m, cr3, p).Some?;
      assert Address(mapped[p]) != temp;
    }
    forall i | 0 <= i < |pages| && pages[i] < TWO_32
      ensures pages[i] / 4096 != FrameOf(temp)
    {
      assert pages[i] in pages;
    }
  }

  /** h' is h with n frames in front. */
  ghost predicate Ahead(h': seq<nat>, h: seq<nat>, n: nat) {
    |h'| == |h| + n && h'[n..] == h
  }

  lemma AheadTwice(h2: seq<nat>, h1: seq<nat>, h: seq<nat>)
    requires Ahead(h2, h1, 1) && Ahead(h1, h, 1) && h2[0] !in h1
    ensures Ahead(h2, h, 2) && h2[0] !in h && h2[1] == h1[0]
  {
    assert h2[2..] == h2[1..][1..];
    assert forall w :: w in h ==> w in h1;
  }

  /** The directory stays, and the page of va alone is mapped anew. */
  ghost predicate OnePage(m: Memory, m': Memory, cr3: FrameNo, va: Word, f: FrameNo) {
    && m'[cr3] == m[cr3] && Walk(m', cr3, PageOf(va)) == Some(f)
    && forall p: VPage :: p != PageOf(va) ==> Walk(m', cr3, p) == Walk(m, cr3, p)
  }

  /** Of the table of va the word of va alone is new. */
  ghost predicate OneWord(m: Memory, m': Memory, cr3: FrameNo, va: Word, w: int) {
    var f := TableFrame(m, cr3, Pdi(va));
    m'[f][Pti(va)] == w && forall k: Index :: k != Pti(va) ==> m'[f][k] == m[f][k]
  }

  /** Every directory slot but one keeps its entry. */
  ghost predicate OthersSame(m: Memory, m': Memory, cr3: FrameNo, pdi: Index) {
    forall i: Index :: i != pdi ==> m'[cr3][i] == m[cr3][i]
  }

  /** The empty slot pdi got an empty table. */
  ghost predicate NewlyInstalled(m: Memory, m': Memory, cr3: FrameNo, pdi: Index) {
    && !Present(m[cr3][pdi]) && HasTable(m', cr3, pdi) && OthersSame(m, m', cr3, pdi)
    && (forall p: VPage :: p / 1024 == pdi ==> Walk(m, cr3, p) == None)
    && (forall p: VPage :: p != WindowPage(pdi) ==> Walk(m', cr3, p) == Walk(m, cr3, p))
  }

  /** One page mapped, behind a table that was there or is new. */
  lemma PageMapped(m: Memory, m1: Memory, m': Memory, cr3: FrameNo, va: Word, f: FrameNo)
    requires Pdi(va) != 1023 && OnePage(m1, m', cr3, va, f)
    requires if Present(m[cr3][Pdi(va)]) then m1 == m && HasTable(m, cr3, Pdi(va))
             else NewlyInstalled(m, m1, cr3, Pdi(va))
    ensures Mapped(m, m', cr3, va, f) && HasTable(m', cr3, Pdi(va)) && OthersSame(m, m', cr3, Pdi(va))
    ensures m'[cr3] == m1[cr3]
  {
    hide Walk;
    assert PageOf(va) / 1024 == Pdi(va) && WindowPage(Pdi(va)) / 1024 == 1023;
  }

  lemma MappedKeepsRecord(m: Memory, m': Memory, cr3: FrameNo, va: Word, page: Word, pages: seq<nat>,
                          mapped: map<VPage, FrameNo>, handed: seq<nat>)
    requires WellFormed(m, cr3) && HasTable(m, cr3, Pdi(va)) && Pdi(va) != 1023
    requires m' == Rewritten(m, cr3, va, Writable(page))
    requires Recorded(m, cr3, mapped, handed) && OnlyDirectory(m, cr3, pages)
    requires page % 4096 == 0 && page !in handed && !IsTable(m, cr3, FrameOf(page))
    ensures Recorded(m', cr3, mapped[PageOf(va) := FrameOf(page)], [page] + handed)
    ensures OnlyDirectory(m', cr3, pages)
    ensures OnePage(m, m', cr3, va, FrameOf(page)) && OneWord(m, m', cr3, va, page + 3)
  {
    EntryChangesOnePage(m, cr3, va, Writable(page));
    SameDirectory(m, m', cr3);
    var f := FrameOf(page);
    assert Address(f) == page;
    var mapped' := mapped[PageOf(va) := f];
    forall p: VPage | p in mapped && p != PageOf(va)
      ensures mapped[p] != f && Address(mapped[p]) in [page] + handed
    {
      assert Address(mapped[p]) in handed;
    }
    assert Recorded(m', cr3, mapped', [page] + handed);
  }

  lemma Regroup(pages: seq<nat>, p: nat, handed: seq<nat>)
    ensures pages + [p] + handed == pages + ([p] + handed)
    ensures Distinct(pages + [p] + handed) ==> p !in pages && p !in handed
    ensures AlignedPages(pages + [p] + handed) ==> AlignedPages(pages) && p % 4096 == 0
  {
    var s := pages + [p] + handed;
    assert s[|pages|] == p;
    assert AlignedPages(s) ==> AlignedPages(pages) by {
      if AlignedPages(s) { assert forall i :: 0 <= i < |pages| ==> s[i] == pages[i]; }
    }
    assert forall i :: 0 <= i < |pages| ==> s[i] == pages[i];
    assert forall i :: 0 <= i < |handed| ==> s[|pages| + 1 + i] == handed[i];
  }

  lemma {:induction false} AlignedPage(e820: seq<Region>, w: nat)
    requires w in Pages(e820) && Enumerable(e820)
    ensures w % 4096 == 0
  {
    EnumerableTail(e820);
    if w !in RegionPages(e820[0]) { AlignedPage(e820[1..], w); }
  }

  /** Taking a page steps below region 0, so that the index underflows, exactly when the
      page is the last one of the map. */
  lemma UnderflowsAtLastPage(e820: seq<Region>, top: nat)
    requires Shrunk(e820, top)
    ensures top == 0 && End(Shrink(e820[0])) <= e820[0].base <==> |Pages(e820)| == 1
  {
    TopPagesNonEmpty(e820, top);
    if top == 0 {
      TopPages(e820, 0);
      assert Pages(e820[..0]) == [];
      hide Pages, RegionPages;
    }
  }

  lemma {:induction false} NoPagesNoLength(e820: seq<Region>, i: nat)
    requires Pages(e820) == [] && i < Lead(e820)
    ensures e820[i].length == 0
  {
    assert |RegionPages(e820[0])| == 0;
    if i > 0 { NoPagesNoLength(e820[1..], i - 1); }
  }

  /** The map that is left can be enumerated by the kernel. */
  lemma ShrunkIsEnumerable(e820: seq<Region>, top: nat)
    requires Shrunk(e820, top)
    ensures Enumerable(e820)
  {
    forall i | 0 <= i < Lead(e820) && e820[i].length > 0
      ensures OnPages(e820[i])
    {
      if i > top { NoLengthAbove(e820, top, i); }
    }
  }

  lemma NoLengthAbove(e820: seq<Region>, top: nat, i: nat)
    requires top < i < Lead(e820) && Pages(e820[top + 1..]) == []
    ensures e820[i].length == 0
  {
    var rest, n := e820[top + 1..], Lead(e820) - (top + 1);
    hide Pages;
    assert forall k :: 0 <= k < |rest| ==> rest[k] == e820[top + 1 + k];
    LeadIs(rest, n);
    hide Lead;
    NoPagesNoLength(rest, i - (top + 1));
  }

  lemma PagesBelow(e820: seq<Region>, top: nat, w: nat)
    requires Shrunk(e820, top) && w in Pages(e820)
    ensures w < TWO_32
  {
    PagesSplit(e820, top + 1);
    PageWithin(e820[..top + 1], w);
  }

  /** What taking the last page of the map does to the map and to the frames handed out. */
  lemma TakeLast(e820: seq<Region>, top: nat, handed: seq<nat>, initial: seq<nat>)
    requires Shrunk(e820, top) && Pages(e820) + handed == initial && Distinct(initial) && AlignedPages(initial)
    ensures 0x1000 <= End(e820[top]) < TWO_32 && e820[top].length > 0
    ensures var r, p := e820[top], End(e820[top]) - 0x1000;
            var map' := e820[top := Shrink(r)];
            && Pages(e820) == Pages(map') + [p] && Pages(map') + ([p] + handed) == initial
            && p !in Pages(map') && p !in handed && p % 4096 == 0 && AlignedPages(Pages(map'))
            && End(Shrink(r)) == p
            && (p <= r.base && top == 0 <==> Pages(map') == [])
            && (p > r.base ==> Shrunk(map', top))
            && (p <= r.base && top > 0 ==> Shrunk(map', top - 1) && OnPages(map'[top - 1]))
  {
    ShrinkDropsLast(e820, top);
    UnderflowsAtLastPage(e820, top);
    hide Pages, Distinct, AlignedPages;
    Regroup(Pages(e820[top := Shrink(e820[top])]), End(e820[top]) - 0x1000, handed);
  }

  class Loader {
    const mmu: Mmu
    var e820: seq<Region>
    var entriesIndex: nat
    var entryAddr: nat
    ghost const initial: seq<nat>            // the pages of the map before any was taken
    ghost var handed: seq<nat>               // frames handed out, the latest first
    ghost var mapped: map<VPage, FrameNo>    // pages mapped by PtMap

    ghost predicate SourceValid()
      reads this
    {
      && Shrunk(e820, entriesIndex) && entryAddr == End(e820[entriesIndex])
      && Pages(e820) + handed == initial && Distinct(initial) && AlignedPages(initial)
    }

    ghost predicate Valid()
      reads this, mmu
    {
      SourceValid() && MapValid()
    }

    /** The tables are in order, and what was mapped is what the walk sees. */
    ghost predicate MapValid()
      reads this, mmu
    {
      && mmu.Valid()
      && OnlyDirectory(mmu.mem, mmu.cr3, Pages(e820))
      && Recorded(mmu.mem, mmu.cr3, mapped, handed)
    }

    /** pt_init: builds the directory, finds the top of usable memory, enables paging. */
    constructor (m: Memory, directory: FrameNo, map0: seq<Region>)
      requires 0 < |map0| <= 0xFFFF && map0[0].kind == USABLE
      requires exists k :: 0 <= k < |map0| && map0[k].kind != USABLE
      requires Enumerable(map0) && forall i :: 0 <= i < Lead(map0) ==> map0[i].length > 0
      requires Disjoint(map0)
      ensures Valid() && fresh(mmu) && mmu.cr3 == directory && Fresh(mmu.mem, directory)
      ensures mmu.mem[directory][0] == 0x8B && mmu.mem[directory][1023] == 4096 * (directory as int) + 3
      ensures forall i: Index :: 0 < i < 1023 ==> mmu.mem[directory][i] == 2
      ensures e820 == map0 && initial == Pages(map0) && handed == [] && mapped == map[]
    {
      hide Shrunk, Disjoint, Fresh, OnlyDirectory, AlignedPages, Distinct, WellFormed, Walk, Pages, IsTable, End,
        RegionEnd;
      var m' := InitDirectory(m, directory);
      var top := InitTop(map0);
      mmu := new Mmu(m', directory);
      e820, entriesIndex := map0, top;
      initial, handed, mapped := Pages(map0), [], map[];
      entryAddr := RegionEnd(map0[top]);
      StartState(m', directory, map0, top);
      FreshWords(m', directory);
    }

    /** Takes the topmost page off the memory map.  Taking the last one leaves the region
        index at 0xFFFF and the address at whatever is found outside the map. */
    method Palloc() returns (paddr: Word)
      requires SourceValid()
      modifies this`e820, this`entriesIndex, this`entryAddr, this`handed
      ensures old(Pages(e820)) == Pages(e820) + [paddr] && handed == [paddr] + old(handed)
      ensures paddr !in Pages(e820) && paddr !in old(handed) && paddr % 4096 == 0
      ensures AlignedPages(Pages(e820)) && Pages(e820) + handed == initial
      ensures Pages(e820) != [] ==> SourceValid()
      ensures Pages(e820) == [] ==> entriesIndex == 0xFFFF
    {
      TakeLast(e820, entriesIndex, handed, initial);
      var r := e820[entriesIndex];
      ghost var shrunk := e820[entriesIndex := Shrink(r)];
      hide Pages, Distinct, AlignedPages, Shrunk, End, RegionPages;
      paddr := entryAddr - 0x1000;
      entryAddr := entryAddr - 0x1000;
      if r.length >= 0x1000 {
        e820 := e820[entriesIndex := r.(length := r.length - 0x1000)];
      } else {
        e820 := e820[entriesIndex := r.(length := 0)];
      }
      assert e820 == shrunk;
      handed := [paddr] + handed;
      if entryAddr <= e820[entriesIndex].base {
        if entriesIndex == 0 {
          entriesIndex, entryAddr := 0xFFFF, *;
        } else {
          entriesIndex := entriesIndex - 1;
          entryAddr := RegionEnd(e820[entriesIndex]);
        }
      }
    }

    /** A directory entry for a fresh frame, and the clearing loop behind it. */
    method InstallTable(pdi: Index, temp: Word)
      requires mmu.Valid() && pdi != 1023 && !Present(mmu.mem[mmu.cr3][pdi])
      requires temp % 4096 == 0 && !IsTable(mmu.mem, mmu.cr3, FrameOf(temp))
      modifies mmu`mem, mmu`tlb
      ensures mmu.Valid() && HasTable(mmu.mem, mmu.cr3, pdi)
      ensures Installed(old(mmu.mem), mmu.mem, mmu.cr3, pdi, FrameOf(temp))
    {
      hide WellFormed, Coherent, IsTable, Walk, Installed, Writable;
      ghost var m0 := mmu.mem;
      var e := Writable(temp);
      NewTable(m0, mmu.cr3, pdi, e);
      mmu.DirectoryStore(pdi, e);
      ghost var m1, cached := mmu.mem, mmu.tlb;
      mmu.Invlpg(WindowAddr(pdi, 0));
      EmptySlotNotCached(m0, mmu.cr3, pdi, e, cached, mmu.tlb);
      ClearTable(pdi);
      OwnTableOnly(m1, mmu.mem, mmu.cr3, pdi);
      TableInstalled(m0, mmu.mem, mmu.cr3, pdi, e);
    }

    // The loop over the table's words
    method ClearTable(pdi: Index)
      requires mmu.Valid() && pdi != 1023 && HasTable(mmu.mem, mmu.cr3, pdi)
      requires forall p: VPage :: p in mmu.tlb ==> p / 1024 != pdi
      modifies mmu`mem, mmu`tlb
      ensures mmu.Valid() && HasTable(mmu.mem, mmu.cr3, pdi)
      ensures forall f: FrameNo :: f != TableFrame(old(mmu.mem), mmu.cr3, pdi) ==> mmu.mem[f] == old(mmu.mem)[f]
      ensures forall k: Index :: mmu.mem[TableFrame(old(mmu.mem), mmu.cr3, pdi)][k] == 2
    {
      hide WellFormed, Coherent, HasTable, TableFrame;
      ghost var m1, t := mmu.mem, TableFrame(mmu.mem, mmu.cr3, pdi);
      var i := 0;
      while i < 1024
        invariant 0 <= i <= 1024
        invariant mmu.Valid() && HasTable(mmu.mem, mmu.cr3, pdi) && TableFrame(mmu.mem, mmu.cr3, pdi) == t
        invariant forall f: FrameNo :: f != t ==> mmu.mem[f] == m1[f]
        invariant forall k: Index :: k < i ==> mmu.mem[t][k] == 2
        invariant forall p: VPage :: p in mmu.tlb ==> p / 1024 != pdi
      {
        ClearWord(pdi, i);
        i := i + 1;
      }
    }

    // pagetable[i] = 0x00000002
    method ClearWord(pdi: Index, i: Index)
      requires mmu.Valid() && pdi != 1023 && HasTable(mmu.mem, mmu.cr3, pdi)
      requires forall p: VPage :: p in mmu.tlb ==> p / 1024 != pdi
      modifies mmu`mem, mmu`tlb
      ensures mmu.Valid()
      ensures mmu.mem == Set(old(mmu.mem), TableFrame(old(mmu.mem), mmu.cr3, pdi), i, 2)
      ensures HasTable(mmu.mem, mmu.cr3, pdi)
      ensures TableFrame(mmu.mem, mmu.cr3, pdi) == TableFrame(old(mmu.mem), mmu.cr3, pdi)
      ensures forall p: VPage :: p in mmu.tlb ==> p / 1024 != pdi
    {
      ghost var m := mmu.mem;
      ghost var va := PageBehind(pdi, i);
      assert WindowPage(pdi) / 1024 == 1023;
      hide WellFormed, Coherent, Pdi, Pti, PageOf, WindowPage;
      mmu.TableStore(pdi, i, 2);
      EntryChangesOnePage(m, mmu.cr3, va, 2);
      assert mmu.mem == Rewritten(m, mmu.cr3, va, 2);
      OnePageStaysCoherent(m, mmu.cr3, va, 2, mmu.tlb);
    }

    /** How many frames pt_map takes for a page: one, and one more for a new table. */
    ghost function Needed(va: Word): nat
      reads mmu
    {
      if Present(mmu.mem[mmu.cr3][Pdi(va)]) then 1 else 2
    }

    /** Maps the page of va to a frame nobody has, through a table that is created when
        the slot is empty.  The frames it takes must not come down to the directory. */
    method PtMap(va: Word)
      requires Valid() && Pdi(va) != 1023
      requires Present(mmu.mem[mmu.cr3][Pdi(va)]) ==> !Large(mmu.mem[mmu.cr3][Pdi(va)])
      requires |Pages(e820)| >= Needed(va) && Address(mmu.cr3) !in Pages(e820)[|Pages(e820)| - Needed(va)..]
      modifies this`e820, this`entriesIndex, this`entryAddr, this`handed, this`mapped, mmu`mem, mmu`tlb
      ensures MapValid() && (Pages(e820) != [] ==> SourceValid()) && Pages(e820) + handed == initial
      ensures Ahead(handed, old(handed), old(Needed(va)))
      ensures WindowWord(mmu.mem, mmu.cr3, va) == handed[0] + 3
      ensures !Present(old(mmu.mem)[mmu.cr3][Pdi(va)]) ==>
        && mmu.mem[mmu.cr3][Pdi(va)] == handed[1] + 3
        && forall k: Index :: k != Pti(va) ==> mmu.mem[TableFrame(mmu.mem, mmu.cr3, Pdi(va))][k] == 2
      ensures |handed| > 0 && handed[0] < TWO_32 && handed[0] !in old(handed)
      ensures mapped == old(mapped)[PageOf(va) := FrameOf(handed[0])]
      ensures Mapped(old(mmu.mem), mmu.mem, mmu.cr3, va, FrameOf(handed[0]))
      ensures HasTable(mmu.mem, mmu.cr3, Pdi(va)) && OthersSame(old(mmu.mem), mmu.mem, mmu.cr3, Pdi(va))
    {
      hide Recorded, OnlyDirectory, WellFormed, Coherent, Shrunk, Distinct, AlignedPages, IsTable, Walk, Pages,
        NewlyInstalled, OnePage, Mapped, OthersSame, Ahead;
      var pdi, pti := Pdi(va), PtiOf(va);
      ghost var m, h := mmu.mem, handed;
      var pde := mmu.DirectoryLoad(pdi);
      if LowBit(pde) == 0 {
        AddTable(pdi);
      }
      ghost var m1, h1 := mmu.mem, handed;
      MapPage(va, pdi, pti);
      if pde % 2 == 0 { AheadTwice(handed, h1, h); }
      PageMapped(m, m1, mmu.mem, mmu.cr3, va, FrameOf(handed[0]));
    }

    // The frame for a new table, and the table
    method AddTable(pdi: Index)
      requires Valid() && pdi != 1023 && !Present(mmu.mem[mmu.cr3][pdi])
      requires |Pages(e820)| >= 2 && Address(mmu.cr3) !in Pages(e820)[|Pages(e820)| - 2..]
      modifies this`e820, this`entriesIndex, this`entryAddr, this`handed, mmu`mem, mmu`tlb
      ensures Valid() && Ahead(handed, old(handed), 1)
      ensures |Pages(e820)| >= 1 && Address(mmu.cr3) !in Pages(e820)[|Pages(e820)| - 1..]
      ensures HasTable(mmu.mem, mmu.cr3, pdi)
      ensures NewlyInstalled(old(mmu.mem), mmu.mem, mmu.cr3, pdi)
      ensures mmu.mem[mmu.cr3][pdi] == handed[0] + 3
      ensures forall k: Index :: mmu.mem[TableFrame(mmu.mem, mmu.cr3, pdi)][k] == 2
    {
      hide Recorded, OnlyDirectory, WellFormed, Coherent, Shrunk, Distinct, AlignedPages, IsTable, Walk;
      ghost var m, h := mmu.mem, handed;
      var temp := Palloc();
      LastPages(Pages(e820), temp, 2, Address(mmu.cr3));
      PageNotTable(m, mmu.cr3, Pages(e820), temp);
      WindowUnmapped(m, mmu.cr3, pdi);
      InstallTable(pdi, temp);
      InstalledKeepsRecord(m, mmu.mem, mmu.cr3, pdi, temp, Pages(e820), mapped, h);
    }

    // The frame for the page, and its entry
    method MapPage(va: Word, pdi: Index, pti: Index)
      requires Valid() && pdi == Pdi(va) != 1023 && pti == Pti(va) && HasTable(mmu.mem, mmu.cr3, pdi)
      requires |Pages(e820)| >= 1 && Address(mmu.cr3) !in Pages(e820)[|Pages(e820)| - 1..]
      modifies this`e820, this`entriesIndex, this`entryAddr, this`handed, this`mapped, mmu`mem, mmu`tlb
      ensures MapValid() && (Pages(e820) != [] ==> SourceValid()) && Pages(e820) + handed == initial
      ensures Ahead(handed, old(handed), 1)
      ensures |handed| > 0 && handed[0] < TWO_32 && handed[0] !in old(handed)
      ensures mapped == old(mapped)[PageOf(va) := FrameOf(handed[0])]
      ensures OnePage(old(mmu.mem), mmu.mem, mmu.cr3, va, FrameOf(handed[0]))
      ensures OneWord(old(mmu.mem), mmu.mem, mmu.cr3, va, handed[0] + 3)
    {
      hide Recorded, OnlyDirectory, WellFormed, Coherent, Shrunk, Distinct, AlignedPages, IsTable, Walk;
      ghost var m, h, old1 := mmu.mem, handed, mapped;
      var page := Palloc();
      LastPages(Pages(e820), page, 1, Address(mmu.cr3));
      PageNotTable(m, mmu.cr3, Pages(e820), page);
      mapped := mapped[PageOf(va) := FrameOf(page)];
      MapEntry(va, pdi, pti, page);
      MappedKeepsRecord(m, mmu.mem, mmu.cr3, va, page, Pages(e820), old1, h);
    }

    // pagetable[pti] = page | 3, and the page's cached translation is dropped
    method MapEntry(va: Word, pdi: Index, pti: Index, page: Word)
      requires mmu.Valid() && pdi == Pdi(va) != 1023 && pti == Pti(va)
      requires HasTable(mmu.mem, mmu.cr3, pdi)
      modifies mmu`mem, mmu`tlb
      ensures mmu.Valid() && mmu.mem == Rewritten(old(mmu.mem), mmu.cr3, va, Writable(page))
    {
      ghost var m := mmu.mem;
      mmu.TableStore(pdi, pti, Writable(page));
      assert PageOf(PageMask(va)) == PageOf(va);
      mmu.Invlpg(PageMask(va));
      OnePageStaysCoherent(m, mmu.cr3, va, Writable(page), mmu.tlb);
    }
  }
}
