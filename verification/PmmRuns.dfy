/** Whole runs of the page allocator: it refines a plain stack of pages, whatever its clients
    write into the pages they hold and wherever the kernel maps them in between. */
module PmmRuns {
  import opened Bits
  import opened PhysMem
  import opened Paging
  import opened Mmus
  import opened MemoryMap
  import opened Pmms
  import opened Stacks

  // With one page left the list has no entry for it
  const RESERVE := 1

  /** An operation of the stack, or pt_map or pt_unmap of a page other than the window. */
  datatype KernelOp = Use(op: Op<Word>) | Map(paddr: Word, va: Word, flags: Word) | Unmap(va: Word)

  /** The operations of the stack among them. */
  function Uses(ops: seq<KernelOp>): seq<Op<Word>> {
    if |ops| == 0 then [] else (if ops[0].Use? then [ops[0].op] else []) + Uses(ops[1..])
  }

  lemma UsesSplit(ops: seq<KernelOp>)
    ensures |ops| == 0 ==> Uses(ops) == []
    ensures |ops| > 0 ==>
      if ops[0].Use? then |Uses(ops)| > 0 && Uses(ops)[0] == ops[0].op && Uses(ops)[1..] == Uses(ops[1..])
      else Uses(ops) == Uses(ops[1..])
  {}

  ghost function Abstract(pmm: Pmm): Plain<Word>
    requires pmm.Valid()
    reads pmm, pmm.mmu
  {
    Plain(pmm.Free(), pmm.out)
  }

  /** A write goes to one of the 1024 words of a page that is no page table; a page given back
      is no page table if it becomes a table of the list; a page mapped or unmapped has a
      page table, and is not the window. */
  ghost predicate Fits(m: Memory, cr3: FrameNo, window: VPage, s: Plain<Word>, op: KernelOp) {
    match op
    case Use(Take) => true
    case Use(Give(p)) => |s.out| % 1024 == 0 ==> !IsTable(m, cr3, FrameOf(p))
    case Use(Write(p, i, _)) => i < 1024 && !IsTable(m, cr3, FrameOf(p))
    case Map(_, va, _) => HasTable(m, cr3, Pdi(va)) && Pdi(va) != 1023 && PageOf(va) != window
    case Unmap(va) => HasTable(m, cr3, Pdi(va)) && Pdi(va) != 1023 && PageOf(va) != window
  }

  ghost predicate Permitted(s: Plain<Word>, op: KernelOp) { op.Use? ==> Allowed(s, op.op, RESERVE) }

  function Next(s: Plain<Word>, op: KernelOp): Plain<Word>
    requires Permitted(s, op)
  {
    if op.Use? then Step(s, op.op, RESERVE) else s
  }

  ghost predicate AllFit(m: Memory, cr3: FrameNo, window: VPage, s: Plain<Word>, ops: seq<KernelOp>)
    decreases |ops|
  {
    |ops| > 0 ==>
      && Permitted(s, ops[0]) && Fits(m, cr3, window, s, ops[0])
      && AllFit(m, cr3, window, Next(s, ops[0]), ops[1..])
  }

  lemma {:induction false} FitTogether(m: Memory, m': Memory, cr3: FrameNo, window: VPage, s: Plain<Word>,
                                       ops: seq<KernelOp>)
    requires m'[cr3] == m[cr3] && AllFit(m, cr3, window, s, ops)
    ensures AllFit(m', cr3, window, s, ops)
    decreases |ops|
  {
    if |ops| > 0 {
      SameDirectory(m, m', cr3);
      FitTogether(m, m', cr3, window, Next(s, ops[0]), ops[1..]);
      hide IsTable;
    }
  }

  lemma {:induction false} FitIsAllowed(m: Memory, cr3: FrameNo, window: VPage, s: Plain<Word>, ops: seq<KernelOp>)
    requires AllFit(m, cr3, window, s, ops)
    ensures AllAllowed(s, Uses(ops), RESERVE)
    decreases |ops|
  {
    if |ops| > 0 {
      UsesSplit(ops);
      hide Uses, Fits;
      FitIsAllowed(m, cr3, window, Next(s, ops[0]), ops[1..]);
    }
  }

  // ---------- what stays in the pages ----------

  // Word i of page q after an operation
  function After(w: Word, op: KernelOp, q: Word, i: nat): Word {
    if op.Use? then WordStep(w, op.op, q, i) else w
  }

  /** The pages that stay with their client keep their contents, except for its own write. */
  ghost predicate Kept(m: Memory, m': Memory, cr3: FrameNo, held: set<Word>, op: KernelOp) {
    forall q, i: Index :: q in held && !IsTable(m, cr3, FrameOf(q)) ==>
      m'[FrameOf(q)][i] == After(m[FrameOf(q)][i], op, q, i)
  }

  /** Over a whole run: a page held throughout, and not in use as a page table, holds what its
      client wrote last, and otherwise what it held before. */
  ghost predicate Remembered(m: Memory, m': Memory, cr3: FrameNo, s: Plain<Word>, ops: seq<Op<Word>>)
    requires AllAllowed(s, ops, RESERVE)
  {
    forall q, i: Index :: HeldThroughout(s, ops, RESERVE, q) && !IsTable(m, cr3, FrameOf(q)) ==>
      m'[FrameOf(q)][i] == WordAfter(m[FrameOf(q)][i], ops, q, i)
  }

  lemma RememberedStep(m: Memory, m1: Memory, m2: Memory, cr3: FrameNo, s: Plain<Word>, ops: seq<Op<Word>>)
    requires |ops| > 0 && AllAllowed(s, ops, RESERVE) && m1[cr3] == m[cr3]
    requires Kept(m, m1, cr3, s.out * Step(s, ops[0], RESERVE).out, Use(ops[0]))
    requires Remembered(m1, m2, cr3, Step(s, ops[0], RESERVE), ops[1..])
    ensures Remembered(m, m2, cr3, s, ops)
  {
    SameDirectory(m, m1, cr3);
    var t := Step(s, ops[0], RESERVE);
    hide Step, IsTable, AllAllowed;
    forall q, i: Index | HeldThroughout(s, ops, RESERVE, q) && !IsTable(m, cr3, FrameOf(q))
      ensures m2[FrameOf(q)][i] == WordAfter(m[FrameOf(q)][i], ops, q, i)
    {
      assert HeldThroughout(t, ops[1..], RESERVE, q) && q in t.out;
      assert m1[FrameOf(q)][i] == WordStep(m[FrameOf(q)][i], ops[0], q, i);
    }
  }

  lemma RememberedBeside(m: Memory, m1: Memory, m2: Memory, cr3: FrameNo, s: Plain<Word>, ops: seq<Op<Word>>,
                         op: KernelOp)
    requires AllAllowed(s, ops, RESERVE) && m1[cr3] == m[cr3]
    requires !op.Use? && Kept(m, m1, cr3, s.out * s.out, op) && Remembered(m1, m2, cr3, s, ops)
    ensures Remembered(m, m2, cr3, s, ops)
  {
    SameDirectory(m, m1, cr3);
    hide Step, IsTable, AllAllowed;
    forall q, i: Index | HeldThroughout(s, ops, RESERVE, q) && !IsTable(m, cr3, FrameOf(q))
      ensures m2[FrameOf(q)][i] == WordAfter(m[FrameOf(q)][i], ops, q, i)
    {
      assert q in s.out;
      assert m1[FrameOf(q)][i] == m[FrameOf(q)][i];
    }
  }

  /** A run is its first operation and the rest. */
  lemma RunSplit(m: Memory, m1: Memory, m2: Memory, cr3: FrameNo, window: VPage, s: Plain<Word>, ops: seq<KernelOp>)
    requires |ops| > 0 && AllFit(m, cr3, window, s, ops) && m1[cr3] == m[cr3]
    requires AllAllowed(s, Uses(ops), RESERVE)
    ensures var t := Next(s, ops[0]);
            && AllFit(m1, cr3, window, t, ops[1..]) && AllAllowed(t, Uses(ops[1..]), RESERVE)
            && Granted(s, Uses(ops), RESERVE) ==
               (if ops[0].Use? && ops[0].op.Take? then [s.stack[0]] else []) + Granted(t, Uses(ops[1..]), RESERVE)
            && Steps(s, Uses(ops), RESERVE) == Steps(t, Uses(ops[1..]), RESERVE)
            && (Kept(m, m1, cr3, s.out * t.out, ops[0]) && Remembered(m1, m2, cr3, t, Uses(ops[1..])) ==>
                  Remembered(m, m2, cr3, s, Uses(ops)))
  {
    UsesSplit(ops);
    var t := Next(s, ops[0]);
    hide Uses, Fits, IsTable, Kept, Remembered;
    FitTogether(m, m1, cr3, window, t, ops[1..]);
    if Kept(m, m1, cr3, s.out * t.out, ops[0]) && Remembered(m1, m2, cr3, t, Uses(ops[1..])) {
      if ops[0].Use? {
        RememberedStep(m, m1, m2, cr3, s, Uses(ops));
      } else {
        RememberedBeside(m, m1, m2, cr3, s, Uses(ops), ops[0]);
      }
    }
  }

  lemma NothingDone(m: Memory, cr3: FrameNo, s: Plain<Word>)
    ensures Uses([]) == [] && Remembered(m, m, cr3, s, [])
  {}

  // ---------- one operation ----------

  method ClientWrite(pmm: Pmm, p: Word, i: Index, v: Word)
    requires pmm.Valid() && p in pmm.out && !IsTable(pmm.mmu.mem, pmm.mmu.cr3, FrameOf(p))
    modifies pmm.mmu`mem
    ensures pmm.Valid() && Abstract(pmm) == old(Abstract(pmm))
    ensures pmm.mmu.mem == Set(old(pmm.mmu.mem), FrameOf(p), i, v)
    ensures pmm.mmu.mem[pmm.mmu.cr3] == old(pmm.mmu.mem)[pmm.mmu.cr3]
  {
    hide Managed, Stack, FreeList, WellFormed, IsTable;
    ghost var mmu := pmm.mmu;
    OutstandingIsApart(mmu.mem, mmu.cr3, pmm.chain, pmm.pcount - 1, pmm.pidx, pmm.Window(), pmm.out, pmm.all, p);
    ClientWriteKeepsList(mmu.mem, mmu.cr3, pmm.chain, pmm.pcount - 1, pmm.pidx, pmm.Window(), pmm.out, pmm.all,
                         FrameOf(p), i, v);
    DataWriteKeepsTables(mmu.mem, mmu.cr3, FrameOf(p), i, v);
    pmm.mmu.mem := Set(pmm.mmu.mem, FrameOf(p), i, v);
  }

  lemma OutstandingIsApart(m: Memory, cr3: FrameNo, chain: seq<FrameNo>, n: nat, idx: nat, window: FrameNo,
                           out: set<Word>, all: set<Word>, p: Word)
    requires Managed(m, cr3, chain, n, idx, window, out, all) && p in out && WellFormed(m, cr3)
    ensures idx <= n && |chain| == n / 1024 + 1 && |out| == idx
    ensures Address(FrameOf(p)) == p && p !in Stack(m, chain, n, idx)
    ensures !IsTable(m, cr3, FrameOf(p)) ==> FrameOf(p) != cr3
  {
    assert HasTable(m, cr3, 1023);
    hide FreeList, Stack;
  }

  // pt_map of a page other than the window
  method MapOther(pmm: Pmm, paddr: Word, va: Word, flags: Word)
    requires pmm.Valid() && HasTable(pmm.mmu.mem, pmm.mmu.cr3, Pdi(va)) && Pdi(va) != 1023
    requires PageOf(va) != PageOf(pmm.currPages)
    modifies pmm.mmu`mem, pmm.mmu`tlb
    ensures pmm.Valid() && Abstract(pmm) == old(Abstract(pmm))
    ensures OnlyTablesChanged(old(pmm.mmu.mem), pmm.mmu.mem, pmm.mmu.cr3)
    ensures Walk(pmm.mmu.mem, pmm.mmu.cr3, PageOf(va)) == Some(FrameOf(paddr))
  {
    hide Managed, Stack, WellFormed, Coherent, Walk, IsTable, Entry, Rewritten, OnlyTablesChanged;
    OtherEntry(pmm.mmu.mem, pmm.mmu.cr3, va, Entry(paddr, flags), pmm.currPages, pmm.chain, pmm.pcount - 1,
               pmm.pidx, pmm.Window(), pmm.out, pmm.all);
    var _ := pmm.mmu.PtMap(paddr, va, flags);
  }

  // pt_unmap of a page other than the window
  method UnmapOther(pmm: Pmm, va: Word) returns (paddr: Word)
    requires pmm.Valid() && HasTable(pmm.mmu.mem, pmm.mmu.cr3, Pdi(va)) && Pdi(va) != 1023
    requires PageOf(va) != PageOf(pmm.currPages)
    modifies pmm.mmu`mem, pmm.mmu`tlb
    ensures pmm.Valid() && Abstract(pmm) == old(Abstract(pmm))
    ensures OnlyTablesChanged(old(pmm.mmu.mem), pmm.mmu.mem, pmm.mmu.cr3)
    ensures Walk(pmm.mmu.mem, pmm.mmu.cr3, PageOf(va)) == None
    ensures paddr == FrameOf(WindowWord(old(pmm.mmu.mem), pmm.mmu.cr3, va)) * 4096
  {
    hide Managed, Stack, WellFormed, Coherent, Walk, IsTable, Cleared, Rewritten, OnlyTablesChanged;
    OtherEntry(pmm.mmu.mem, pmm.mmu.cr3, va, Cleared(WindowWord(pmm.mmu.mem, pmm.mmu.cr3, va)), pmm.currPages,
               pmm.chain, pmm.pcount - 1, pmm.pidx, pmm.Window(), pmm.out, pmm.all);
    paddr := pmm.mmu.PtUnmap(va);
  }

  /** Rewriting the entry of a page other than the window changes nothing for the allocator. */
  lemma OtherEntry(m: Memory, cr3: FrameNo, va: Word, e: Word, currPages: Word, chain: seq<FrameNo>, n: nat,
                   idx: nat, window: FrameNo, out: set<Word>, all: set<Word>)
    requires Managed(m, cr3, chain, n, idx, window, out, all) && WellFormed(m, cr3)
    requires HasTable(m, cr3, Pdi(va)) && Pdi(va) != 1023 && PageOf(va) != PageOf(currPages)
    ensures idx <= n && |chain| == n / 1024 + 1
    ensures var m' := Rewritten(m, cr3, va, e);
            && Managed(m', cr3, chain, n, idx, window, out, all)
            && Stack(m', chain, n, idx) == Stack(m, chain, n, idx)
            && m'[cr3] == m[cr3] && OnlyTablesChanged(m, m', cr3)
            && Walk(m', cr3, PageOf(currPages)) == Walk(m, cr3, PageOf(currPages))
            && Walk(m', cr3, PageOf(va)) == if Present(e) then Some(FrameOf(e)) else None
  {
    EntryChangesOnePage(m, cr3, va, e);
    assert IsTable(m, cr3, TableFrame(m, cr3, Pdi(va)));
    ManagedShape(m, cr3, chain, n, idx, window, out, all);
    hide Managed, Stack, WellFormed, Walk;
    ManagedIgnoresTables(m, Rewritten(m, cr3, va, e), cr3, chain, n, idx, window, out, all);
  }

  method Do(pmm: Pmm, op: KernelOp) returns (page: Word)
    requires pmm.Valid() && Permitted(Abstract(pmm), op)
    requires Fits(pmm.mmu.mem, pmm.mmu.cr3, PageOf(pmm.currPages), Abstract(pmm), op)
    modifies pmm, pmm.mmu`mem, pmm.mmu`tlb
    ensures pmm.Valid() && Abstract(pmm) == Next(old(Abstract(pmm)), op)
    ensures op.Use? && op.op.Take? ==> page == old(Abstract(pmm)).stack[0]
    ensures pmm.all == old(pmm.all) && pmm.mmu.mem[pmm.mmu.cr3] == old(pmm.mmu.mem)[pmm.mmu.cr3]
    ensures Kept(old(pmm.mmu.mem), pmm.mmu.mem, pmm.mmu.cr3, old(pmm.out) * pmm.out, op)
  {
    hide Managed, Stack, FreeList, WellFormed, Coherent, Walk, HasTable, IsTable;
    page := 0;
    OutIsManaged(pmm);
    match op {
      case Use(Take) =>
        page := pmm.Alloc();
        OutIsManaged(pmm);
        assert pmm.Free() == ([page] + pmm.Free())[1..];
      case Use(Give(p)) =>
        pmm.FreePage(p);
      case Use(Write(p, i, v)) =>
        ClientWrite(pmm, p, i, v);
      case Map(paddr, va, flags) =>
        MapOther(pmm, paddr, va, flags);
      case Unmap(va) =>
        page := UnmapOther(pmm, va);
    }
  }

  lemma OutIsManaged(pmm: Pmm)
    requires pmm.Valid()
    ensures |pmm.chain| == (pmm.pcount - 1) / 1024 + 1
    ensures pmm.out <= pmm.all && |pmm.out| == pmm.pidx
    ensures forall p, q :: p in pmm.out && q in pmm.out && p != q ==> FrameOf(p) != FrameOf(q)
  {
    hide Stack;
    forall p, q | p in pmm.out && q in pmm.out && p != q
      ensures FrameOf(p) != FrameOf(q)
    {
      assert p % 4096 == 0 && q % 4096 == 0;
    }
  }

  lemma ValidIsApart(pmm: Pmm)
    requires pmm.Valid()
    ensures Apart(Abstract(pmm))
  {
    hide Stack;
  }

  // ---------- page tables among the pages handed out ----------

  /** A client may also turn a page it holds into a page table, by mapping it on the window
      address of an empty directory slot: the allocator does not notice. */
  method MakeTable(pmm: Pmm, p: Word, i: Index, flags: Word)
    requires pmm.Valid() && p in pmm.out && MakesTable(pmm.mmu.mem, pmm.mmu.cr3, i, Entry(p, flags))
    modifies pmm.mmu`mem, pmm.mmu`tlb
    ensures pmm.Valid() && Abstract(pmm) == old(Abstract(pmm))
    ensures HasTable(pmm.mmu.mem, pmm.mmu.cr3, i) && TableFrame(pmm.mmu.mem, pmm.mmu.cr3, i) == FrameOf(p)
  {
    hide Managed, Stack, FreeList, Coherent, WellFormed, Walk, IsTable, HasTable, MakesTable, Entry, Set, TableFrame,
      FrameOf, Address;
    ghost var m, cr3, e := pmm.mmu.mem, pmm.mmu.cr3, Entry(p, flags);
    TableIsApart(m, cr3, pmm.chain, pmm.pcount - 1, pmm.pidx, pmm.Window(), pmm.out, pmm.all, p, i, e);
    WindowStays(m, cr3, i, e, pmm.currPages);
    pmm.mmu.MapTable(p, i, flags);
  }

  lemma WindowStays(m: Memory, cr3: FrameNo, i: Index, e: Word, va: Word)
    requires WellFormed(m, cr3) && MakesTable(m, cr3, i, e) && HasTable(m, cr3, Pdi(va)) && Pdi(va) != 1023
    ensures HasTable(Set(m, cr3, i, e), cr3, Pdi(va))
    ensures HasTable(Set(m, cr3, i, e), cr3, i) && TableFrame(Set(m, cr3, i, e), cr3, i) == FrameOf(e)
    ensures Walk(Set(m, cr3, i, e), cr3, PageOf(va)) == Walk(m, cr3, PageOf(va))
  {
    assert PageOf(va) / 1024 == Pdi(va);
    NewTable(m, cr3, i, e);
  }

  lemma TableIsApart(m: Memory, cr3: FrameNo, chain: seq<FrameNo>, n: nat, idx: nat, window: FrameNo,
                     out: set<Word>, all: set<Word>, p: Word, i: Index, e: Word)
    requires Managed(m, cr3, chain, n, idx, window, out, all) && p in out && WellFormed(m, cr3)
    requires MakesTable(m, cr3, i, e) && FrameOf(e) == FrameOf(p)
    ensures idx <= n && |chain| == n / 1024 + 1
    ensures Managed(Set(m, cr3, i, e), cr3, chain, n, idx, window, out, all)
    ensures Stack(Set(m, cr3, i, e), chain, n, idx) == Stack(m, chain, n, idx)
  {
    NewTable(m, cr3, i, e);
    OutstandingIsApart(m, cr3, chain, n, idx, window, out, all, p);
    assert HasTable(m, cr3, 1023);
    forall t | idx / 1024 <= t <= n / 1024
      ensures chain[t] != FrameOf(p) && chain[t] != cr3
    {
      TableIsFree(m, chain, n, idx, t);
    }
    hide Stack, WellFormed;
    FreeListIgnoresOthers(m, Set(m, cr3, i, e), chain, n, idx, window);
    hide FreeList, IsTable;
  }

  /** Undoing a table that maps nothing, other than the window's, and giving its page back:
      the page is on the free list again, also if it becomes a table of the list. */
  method UndoTable(pmm: Pmm, i: Index) returns (p: Word)
    requires pmm.Valid() && EmptySlot(pmm.mmu.mem, pmm.mmu.cr3, i) && i != Pdi(pmm.currPages)
    requires Address(TableFrame(pmm.mmu.mem, pmm.mmu.cr3, i)) in pmm.out
    modifies pmm, pmm.mmu`mem, pmm.mmu`tlb
    ensures p == Address(TableFrame(old(pmm.mmu.mem), pmm.mmu.cr3, i)) && !Present(pmm.mmu.mem[pmm.mmu.cr3][i])
    ensures pmm.Valid() && pmm.all == old(pmm.all)
    ensures Abstract(pmm) == Step(old(Abstract(pmm)), Give(p), RESERVE)
  {
    hide Managed, Stack, Coherent, WellFormed, Walk, IsTable, EmptySlot, Cleared, HasTable;
    ghost var m, cr3, e := pmm.mmu.mem, pmm.mmu.cr3, Cleared(pmm.mmu.mem[pmm.mmu.cr3][i]);
    SlotIsApart(m, cr3, i, pmm.currPages, pmm.chain, pmm.pcount - 1, pmm.pidx, pmm.Window(), pmm.out, pmm.all);
    WindowSlot(m, cr3, i, e);
    p := pmm.mmu.PtUnmap(WindowAddr(i, 0));
    pmm.FreePage(p);
  }

  lemma SlotIsApart(m: Memory, cr3: FrameNo, i: Index, currPages: Word, chain: seq<FrameNo>, n: nat, idx: nat,
                    window: FrameNo, out: set<Word>, all: set<Word>)
    requires Managed(m, cr3, chain, n, idx, window, out, all) && WellFormed(m, cr3) && EmptySlot(m, cr3, i)
    requires HasTable(m, cr3, Pdi(currPages)) && Pdi(currPages) != 1023 && i != Pdi(currPages)
    ensures idx <= n && |chain| == n / 1024 + 1
    ensures var m' := Set(m, cr3, i, Cleared(m[cr3][i]));
            && Managed(m', cr3, chain, n, idx, window, out, all)
            && Stack(m', chain, n, idx) == Stack(m, chain, n, idx)
            && HasTable(m', cr3, Pdi(currPages)) && !IsTable(m', cr3, TableFrame(m, cr3, i))
            && Walk(m', cr3, PageOf(currPages)) == Walk(m, cr3, PageOf(currPages))
  {
    EmptySlotCleared(m, cr3, i, map[]);
    assert HasTable(m, cr3, 1023);
    assert PageOf(currPages) / 1024 == Pdi(currPages);
    assert TableFrame(m, cr3, Pdi(currPages)) != cr3;
    ManagedShape(m, cr3, chain, n, idx, window, out, all);
    hide Stack, WellFormed;
    FreeListIgnoresOthers(m, Set(m, cr3, i, Cleared(m[cr3][i])), chain, n, idx, window);
    hide FreeList, IsTable;
  }

  // ---------- runs ----------

  /** Any sequence of allowed operations, with pages mapped and unmapped in between, grants
      the pages that the plain stack grants, and the clients find in their pages what they
      wrote. */
  method Run(pmm: Pmm, ops: seq<KernelOp>) returns (pages: seq<Word>)
    requires pmm.Valid() && AllAllowed(Abstract(pmm), Uses(ops), RESERVE)
    requires AllFit(pmm.mmu.mem, pmm.mmu.cr3, PageOf(pmm.currPages), Abstract(pmm), ops)
    modifies pmm, pmm.mmu`mem, pmm.mmu`tlb
    ensures pmm.Valid() && pmm.all == old(pmm.all)
    ensures pages == Granted(old(Abstract(pmm)), Uses(ops), RESERVE)
    ensures Abstract(pmm) == Steps(old(Abstract(pmm)), Uses(ops), RESERVE)
    ensures Remembered(old(pmm.mmu.mem), pmm.mmu.mem, pmm.mmu.cr3, old(Abstract(pmm)), Uses(ops))
    decreases |ops|
  {
    hide Managed, Kept, Remembered, Step, Pmm.Free, IsTable, HeldThroughout, Fits;
    ghost var m, s := pmm.mmu.mem, Abstract(pmm);
    if |ops| == 0 {
      assert ops == [];
      NothingDone(m, pmm.mmu.cr3, s);
      return [];
    }
    var page := Do(pmm, ops[0]);
    ghost var m1 := pmm.mmu.mem;
    RunSplit(m, m1, m1, pmm.mmu.cr3, PageOf(pmm.currPages), s, ops);
    hide Uses, AllFit, AllAllowed, Granted, Steps, Next;
    var rest := Run(pmm, ops[1..]);
    RunSplit(m, m1, pmm.mmu.mem, pmm.mmu.cr3, PageOf(pmm.currPages), s, ops);
    pages := (if ops[0].Use? && ops[0].op.Take? then [page] else []) + rest;
  }
}
