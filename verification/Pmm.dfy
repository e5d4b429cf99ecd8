/** The physical page allocator (stage3/mem/pmm.cpp).  Its free list is stored inside
    the free pages themselves and is seen through one virtual page, curr_pages, which
    is mapped onto another free page every 1024 entries. */
module Pmms {
  import opened Bits
  import opened Seqs
  import opened PhysMem
  import opened Paging
  import opened Mmus
  import opened MemoryMap

  // ---------- the free list in memory ----------

  /** The j-th page of the free list.  Table t = chain[t] lists pages 1024t .. 1024t+1022
      in its words; its last word links to the next table, and the table itself is page
      1024t+1023.  The table in use last is page n, which no word lists. */
  function Item(m: Memory, chain: seq<FrameNo>, n: nat, j: nat): Word
    requires j <= n && |chain| == n / 1024 + 1
  {
    if j == n || j % 1024 == 1023 then Address(chain[j / 1024]) else m[chain[j / 1024]][j % 1024]
  }

  /** The free pages, the next one to be allocated first. */
  function Stack(m: Memory, chain: seq<FrameNo>, n: nat, idx: nat): (s: seq<Word>)
    requires idx <= n && |chain| == n / 1024 + 1
    ensures |s| == n + 1 - idx
    ensures forall j {:trigger Item(m, chain, n, j)} :: idx <= j <= n ==> s[j - idx] == Item(m, chain, n, j)
  {
    seq<Word>(n + 1 - idx, i requires 0 <= i < n + 1 - idx => Item(m, chain, n, idx + i))
  }

  // The last word of table t links to table t+1
  predicate Linked(m: Memory, chain: seq<FrameNo>, t: nat)
    requires t + 1 < |chain|
  {
    m[chain[t]][1023] == Address(chain[t + 1])
  }

  predicate Aligned(s: seq<Word>) {
    forall j :: 0 <= j < |s| ==> s[j] % 4096 == 0
  }

  ghost predicate FreeList(m: Memory, chain: seq<FrameNo>, n: nat, idx: nat, window: FrameNo) {
    && idx <= n && |chain| == n / 1024 + 1 && chain[idx / 1024] == window
    && (forall t :: idx / 1024 <= t < n / 1024 ==> Linked(m, chain, t))
    && Aligned(Stack(m, chain, n, idx))
    && Distinct(Stack(m, chain, n, idx))
  }

  /** Every table of the chain is itself one of the free pages. */
  lemma TableIsFree(m: Memory, chain: seq<FrameNo>, n: nat, idx: nat, t: nat)
    requires idx <= n && |chain| == n / 1024 + 1 && idx / 1024 <= t <= n / 1024
    ensures Address(chain[t]) in Stack(m, chain, n, idx)
  {
    var j := if 1024 * t + 1023 <= n then 1024 * t + 1023 else n;
    assert j / 1024 == t;
    assert Stack(m, chain, n, idx)[j - idx] == Item(m, chain, n, j);
  }

  lemma TablesDistinct(m: Memory, chain: seq<FrameNo>, n: nat, idx: nat, window: FrameNo, t: nat, u: nat)
    requires FreeList(m, chain, n, idx, window) && idx / 1024 <= t < u <= n / 1024
    ensures chain[t] != chain[u]
  {
    var s := Stack(m, chain, n, idx);
    var j := 1024 * t + 1023;
    var k := if 1024 * u + 1023 <= n then 1024 * u + 1023 else n;
    assert s[j - idx] == Item(m, chain, n, j) && s[k - idx] == Item(m, chain, n, k);
  }

  /** The free list depends on nothing but the contents of its tables from the window on:
      writes to any other page, handed out or free, cannot change what is allocated next. */
  lemma FreeListIgnoresOthers(m: Memory, m': Memory, chain: seq<FrameNo>, n: nat, idx: nat, window: FrameNo)
    requires FreeList(m, chain, n, idx, window)
    requires forall t :: idx / 1024 <= t <= n / 1024 ==> m'[chain[t]] == m[chain[t]]
    ensures FreeList(m', chain, n, idx, window)
    ensures Stack(m', chain, n, idx) == Stack(m, chain, n, idx)
  {
    var s, s' := Stack(m, chain, n, idx), Stack(m', chain, n, idx);
    forall j | idx <= j <= n
      ensures Item(m', chain, n, j) == Item(m, chain, n, j)
    {
      assert idx / 1024 <= j / 1024 <= n / 1024;
    }
    forall i | 0 <= i < |s|
      ensures s'[i] == s[i]
    {
      assert s[i] == Item(m, chain, n, idx + i);
    }
    assert s == s';
    assert forall t :: idx / 1024 <= t < n / 1024 ==> Linked(m, chain, t) && Linked(m', chain, t);
  }

  // The page pmm_alloc_ppage returns: the window page itself when its entries are used up
  function NextPage(m: Memory, window: FrameNo, idx: nat): Word {
    if idx % 1024 == 1023 then Address(window) else m[window][idx % 1024]
  }

  /** Allocation from the middle of a table, or handing out an exhausted table. */
  lemma Pop(m: Memory, chain: seq<FrameNo>, n: nat, idx: nat, window: FrameNo)
    requires FreeList(m, chain, n, idx, window) && idx < n
    ensures (idx + 1) / 1024 < |chain|
    ensures Stack(m, chain, n, idx)[0] == NextPage(m, window, idx)
    ensures Stack(m, chain, n, idx + 1) == Stack(m, chain, n, idx)[1..]
    ensures idx % 1024 == 1023 ==> m[window][1023] == Address(chain[(idx + 1) / 1024])
    ensures FreeList(m, chain, n, idx + 1, chain[(idx + 1) / 1024])
    ensures idx % 1024 != 1023 ==> chain[(idx + 1) / 1024] == window
    ensures var s := Stack(m, chain, n, idx); s[0] % 4096 == 0 && s[0] !in s[1..]
  {
    var s, s' := Stack(m, chain, n, idx), Stack(m, chain, n, idx + 1);
    forall i | 0 <= i < |s'|
      ensures s'[i] == s[i + 1]
    {
      assert s'[i] == Item(m, chain, n, idx + 1 + i);
    }
    assert s' == s[1..];
    assert s[0] == Item(m, chain, n, idx);
    assert idx % 1024 == 1023 ==> Linked(m, chain, idx / 1024);
  }

  /** The memory after free(p) with the window on `window`: p goes into the current
      table, or becomes a new table linked to the current one. */
  function Pushed(m: Memory, idx: nat, window: FrameNo, p: Word): Memory
    requires idx > 0
  {
    if (idx - 1) % 1024 == 1023 then Set(m, FrameOf(p), 1023, Address(window))
    else Set(m, window, (idx - 1) % 1024, p)
  }

  function PushedChain(chain: seq<FrameNo>, idx: nat, p: Word): seq<FrameNo>
    requires idx > 0 && (idx - 1) / 1024 < |chain|
  {
    if (idx - 1) % 1024 == 1023 then chain[(idx - 1) / 1024 := FrameOf(p)] else chain
  }

  lemma PushedTables(m: Memory, chain: seq<FrameNo>, n: nat, idx: nat, window: FrameNo, p: Word, t: nat)
    requires FreeList(m, chain, n, idx, window) && idx > 0 && idx / 1024 <= t <= n / 1024
    requires p % 4096 == 0 && p !in Stack(m, chain, n, idx)
    ensures PushedChain(chain, idx, p)[t] == chain[t] && chain[t] != FrameOf(p)
    ensures forall k: Index :: t > idx / 1024 || (idx - 1) % 1024 == 1023 || k != (idx - 1) % 1024 ==>
      Pushed(m, idx, window, p)[chain[t]][k] == m[chain[t]][k]
  {
    TableIsFree(m, chain, n, idx, t);
    assert Address(chain[t]) != p;
    if t > idx / 1024 {
      TablesDistinct(m, chain, n, idx, window, idx / 1024, t);
    }
  }

  lemma PushedItems(m: Memory, chain: seq<FrameNo>, n: nat, idx: nat, window: FrameNo, p: Word, j: nat)
    requires FreeList(m, chain, n, idx, window) && 0 < idx <= j <= n
    requires p % 4096 == 0 && p !in Stack(m, chain, n, idx)
    ensures Item(Pushed(m, idx, window, p), PushedChain(chain, idx, p), n, j) == Item(m, chain, n, j)
  {
    var k := j % 1024;
    PushedTables(m, chain, n, idx, window, p, j / 1024);
    if j / 1024 == idx / 1024 && (idx - 1) % 1024 != 1023 {
      assert k != (idx - 1) % 1024;
    }
    assert Pushed(m, idx, window, p)[chain[j / 1024]][k] == m[chain[j / 1024]][k];
  }

  /** Freeing a page pushes it: it becomes the next one to be allocated, whether it is
      written into the current table or turned into a new table. */
  lemma Push(m: Memory, chain: seq<FrameNo>, n: nat, idx: nat, window: FrameNo, p: Word)
    requires FreeList(m, chain, n, idx, window) && idx > 0
    requires p % 4096 == 0 && p !in Stack(m, chain, n, idx)
    ensures var m', c' := Pushed(m, idx, window, p), PushedChain(chain, idx, p);
            && Stack(m', c', n, idx - 1) == [p] + Stack(m, chain, n, idx)
            && FreeList(m', c', n, idx - 1, if (idx - 1) % 1024 == 1023 then FrameOf(p) else window)
  {
    var m', c' := Pushed(m, idx, window, p), PushedChain(chain, idx, p);
    var s, s' := Stack(m, chain, n, idx), Stack(m', c', n, idx - 1);
    forall i | 0 <= i < |s'|
      ensures s'[i] == ([p] + s)[i]
    {
      var j := idx - 1 + i;
      assert s'[j - (idx - 1)] == Item(m', c', n, j);
      if i > 0 {
        PushedItems(m, chain, n, idx, window, p, j);
        assert s[j - idx] == Item(m, chain, n, j);
      }
    }
    assert s' == [p] + s;
    forall t | (idx - 1) / 1024 <= t < n / 1024
      ensures Linked(m', c', t)
    {
      PushedLink(m, chain, n, idx, window, p, t);
    }
  }

  lemma PushedLink(m: Memory, chain: seq<FrameNo>, n: nat, idx: nat, window: FrameNo, p: Word, t: nat)
    requires FreeList(m, chain, n, idx, window) && idx > 0
    requires p % 4096 == 0 && p !in Stack(m, chain, n, idx)
    requires (idx - 1) / 1024 <= t < n / 1024
    ensures var m', c' := Pushed(m, idx, window, p), PushedChain(chain, idx, p);
            Linked(m', c', t)
  {
    PushedTables(m, chain, n, idx, window, p, t + 1);
    if t >= idx / 1024 {
      PushedTables(m, chain, n, idx, window, p, t);
      assert Linked(m, chain, t);
    } else {
      assert t + 1 == idx / 1024;
    }
  }

  /** Table edits between m and m' leave every page that is not a table alone. */
  ghost predicate OnlyTablesChanged(m: Memory, m': Memory, cr3: FrameNo) {
    && m'[cr3] == m[cr3]
    && forall f: FrameNo :: !IsTable(m, cr3, f) ==> m'[f] == m[f]
  }

  // ---------- building the list ----------

  /** The first n pages have been stored: table 0 is the initial window page w0, table t
      is page 1024t-1. */
  ghost predicate Built(m: Memory, chain: seq<FrameNo>, w0: FrameNo, pages: seq<nat>, n: nat) {
    && n <= |pages| && |chain| == n / 1024 + 1 && chain[0] == w0
    && (forall t {:trigger Address(chain[t])} :: 0 < t <= n / 1024 ==>
         Address(chain[t]) == pages[1024 * t - 1])
    && (forall j :: 0 <= j < n ==> m[chain[j / 1024]][j % 1024] == pages[j])
  }

  /** Pages that can go on the free list: aligned, below 4 GiB, pairwise distinct, and
      none of them the window page. */
  ghost predicate Listable(pages: seq<nat>, w0: FrameNo) {
    && (forall i :: 0 <= i < |pages| ==> pages[i] < TWO_32 && pages[i] % 4096 == 0)
    && (forall i :: 0 <= i < |pages| ==> pages[i] != Address(w0))
    && (forall i, k :: 0 <= i < k < |pages| ==> pages[i] != pages[k])
  }

  /** None of the tables lo .. hi of the list is a page table or the directory. */
  ghost predicate TablesApart(m: Memory, cr3: FrameNo, chain: seq<FrameNo>, lo: nat, hi: nat) {
    hi < |chain| && forall t :: lo <= t <= hi ==> !IsTable(m, cr3, chain[t])
  }

  lemma BuiltChainDistinct(m: Memory, chain: seq<FrameNo>, w0: FrameNo, pages: seq<nat>, n: nat)
    requires Built(m, chain, w0, pages, n) && Listable(pages, w0)
    ensures forall t, u :: 0 <= t < u <= n / 1024 ==> chain[t] != chain[u]
  {
    forall t, u | 0 <= t < u <= n / 1024
      ensures chain[t] != chain[u]
    {
      assert Address(chain[u]) == pages[1024 * u - 1];
    }
  }

  // Table slots are filled one page at a time
  function Extended(chain: seq<FrameNo>, n: nat, page: Word): seq<FrameNo> {
    if n % 1024 == 1023 then chain + [FrameOf(page)] else chain
  }

  lemma StoredWord(m: Memory, chain: seq<FrameNo>, w0: FrameNo, pages: seq<nat>, n: nat, j: nat)
    requires Built(m, chain, w0, pages, n) && Listable(pages, w0) && j <= n < |pages|
    ensures Set(m, chain[n / 1024], n % 1024, pages[n])[chain[j / 1024]][j % 1024] == pages[j]
  {
    var t, k := j / 1024, j % 1024;
    if t < n / 1024 {
      BuiltChainDistinct(m, chain, w0, pages, n);
      assert chain[t] != chain[n / 1024];
    } else if j < n {
      assert k != n % 1024;
    }
    assert j < n ==> m[chain[t]][k] == pages[j];
  }

  lemma BuildStep(m: Memory, chain: seq<FrameNo>, w0: FrameNo, pages: seq<nat>, n: nat)
    requires Built(m, chain, w0, pages, n) && Listable(pages, w0) && n < |pages|
    ensures Built(Set(m, chain[n / 1024], n % 1024, pages[n]), Extended(chain, n, pages[n]), w0, pages, n + 1)
  {
    var t0 := n / 1024;
    var m' := Set(m, chain[t0], n % 1024, pages[n]);
    var chain' := Extended(chain, n, pages[n]);
    assert (n + 1) / 1024 == if n % 1024 == 1023 then t0 + 1 else t0;
    forall j | 0 <= j < n + 1
      ensures m'[chain'[j / 1024]][j % 1024] == pages[j]
    {
      StoredWord(m, chain, w0, pages, n, j);
      assert j / 1024 < |chain|;
    }
    forall t | 0 < t <= (n + 1) / 1024
      ensures Address(chain'[t]) == pages[1024 * t - 1]
    {
      if t == t0 + 1 { assert 1024 * t - 1 == n; }
    }
  }

  // Which listed page the j-th free page is; -1 is the initial window page
  function Source(n: nat, j: nat): int
    requires j <= n
  {
    if j == n || j % 1024 == 1023 then 1024 * (j / 1024) - 1 else j
  }

  lemma SourceInjective(n: nat, j: nat, k: nat)
    requires j < k <= n
    ensures Source(n, j) != Source(n, k)
  {}

  lemma ItemSource(m: Memory, chain: seq<FrameNo>, w0: FrameNo, pages: seq<nat>, n: nat, j: nat)
    requires Built(m, chain, w0, pages, n) && n == |pages| && j <= n
    ensures Source(n, j) < n
    ensures Item(m, chain, n, j) == if Source(n, j) < 0 then Address(w0) else pages[Source(n, j)]
  {}

  lemma BuiltStack(m: Memory, chain: seq<FrameNo>, w0: FrameNo, pages: seq<nat>)
    requires Built(m, chain, w0, pages, |pages|)
    ensures var n, s := |pages|, Stack(m, chain, |pages|, 0);
      forall j :: 0 <= j <= n ==>
        Source(n, j) < n && s[j] == if Source(n, j) < 0 then Address(w0) else pages[Source(n, j)]
  {
    var n, s := |pages|, Stack(m, chain, |pages|, 0);
    forall j | 0 <= j <= n
      ensures Source(n, j) < n
      ensures s[j] == if Source(n, j) < 0 then Address(w0) else pages[Source(n, j)]
    {
      assert s[j - 0] == Item(m, chain, n, j);
      ItemSource(m, chain, w0, pages, n, j);
    }
  }

  function SourceInverse(n: nat, i: int): (j: nat)
    requires -1 <= i < n
    ensures j <= n && Source(n, j) == i
  {
    if i % 1024 != 1023 then i
    else
      var t := (i + 1) / 1024;
      var j := 1024 * t + 1023;
      assert i == 1024 * t - 1 && j / 1024 == t && j % 1024 == 1023;
      if j <= n then j
      else
        assert n / 1024 == t;
        n
  }

  lemma BuiltCovers(m: Memory, chain: seq<FrameNo>, w0: FrameNo, pages: seq<nat>, i: int)
    requires Built(m, chain, w0, pages, |pages|) && -1 <= i < |pages|
    ensures (if i < 0 then Address(w0) else pages[i]) in Stack(m, chain, |pages|, 0)
  {
    var n := |pages|;
    BuiltStack(m, chain, w0, pages);
    var j := SourceInverse(n, i);
    assert Source(n, j) == i;
    assert Stack(m, chain, n, 0)[j] == if i < 0 then Address(w0) else pages[i];
  }

  /** The finished list holds every page of the memory map and the initial window page,
      each once. */
  lemma BuiltIsFreeList(m: Memory, chain: seq<FrameNo>, w0: FrameNo, pages: seq<nat>)
    requires Built(m, chain, w0, pages, |pages|) && Listable(pages, w0)
    ensures FreeList(m, chain, |pages|, 0, w0)
    ensures forall w :: w in Stack(m, chain, |pages|, 0) <==> w in pages || w == Address(w0)
  {
    var n := |pages|;
    var s := Stack(m, chain, n, 0);
    BuiltStack(m, chain, w0, pages);
    forall j, k | 0 <= j < k <= n
      ensures s[j] != s[k]
    {
      SourceInjective(n, j, k);
    }
    forall t | 0 <= t < n / 1024
      ensures Linked(m, chain, t)
    {
      var j := 1024 * t + 1023;
      assert j / 1024 == t && j % 1024 == 1023;
      assert m[chain[j / 1024]][j % 1024] == pages[j];
    }
    forall w | w in pages || w == Address(w0)
      ensures w in s
    {
      var i :| -1 <= i < n && w == if i < 0 then Address(w0) else pages[i];
      BuiltCovers(m, chain, w0, pages, i);
    }
  }

  /** The pages that become tables of the list, every 1024th, are no page tables.  Any other
      page may be one. */
  ghost predicate SwitchesApart(m: Memory, cr3: FrameNo, pages: seq<nat>) {
    forall i :: 0 <= i < |pages| && i % 1024 == 1023 && pages[i] < TWO_32 ==> !IsTable(m, cr3, pages[i] / 4096)
  }

  lemma ChainNotTable(m: Memory, cr3: FrameNo, chain: seq<FrameNo>, w0: FrameNo, pages: seq<nat>, n: nat)
    requires Built(m, chain, w0, pages, n) && Listable(pages, w0) && !IsTable(m, cr3, w0)
    requires SwitchesApart(m, cr3, pages)
    ensures TablesApart(m, cr3, chain, 0, n / 1024)
  {
    forall t | 0 < t <= n / 1024
      ensures !IsTable(m, cr3, chain[t])
    {
      var i := 1024 * t - 1;
      assert i % 1024 == 1023 && Address(chain[t]) == pages[i];
    }
  }

  /** Moving the window edits a page table, which is none of the tables being built. */
  lemma BuiltIgnoresOthers(m: Memory, m': Memory, cr3: FrameNo, chain: seq<FrameNo>, w0: FrameNo,
                           pages: seq<nat>, n: nat)
    requires Built(m, chain, w0, pages, n) && TablesApart(m, cr3, chain, 0, n / 1024)
    requires OnlyTablesChanged(m, m', cr3)
    ensures Built(m', chain, w0, pages, n)
  {
    assert forall t :: 0 <= t <= n / 1024 ==> m'[chain[t]] == m[chain[t]];
    forall j | 0 <= j < n
      ensures m'[chain[j / 1024]][j % 1024] == pages[j]
    {
      var t := j / 1024;
      assert t <= n / 1024 && m'[chain[t]] == m[chain[t]];
    }
  }

  function AsSet(s: seq<Word>): (r: set<Word>)
    ensures forall w :: w in r <==> w in s
  {
    set w <- s
  }

  /** The free pages s and the pages handed out are, without overlap, all the pages under
      management. */
  ghost predicate Partition(s: seq<Word>, count: nat, out: set<Word>, all: set<Word>) {
    && (forall w :: w in out ==> w !in s && w % 4096 == 0)
    && all == out + AsSet(s) && |out| == count
  }

  /** The list is in order, none of its own tables is a page table, and it partitions the
      pages with those handed out.  A free page that is no table of the list may well be a
      page table, or the directory. */
  ghost predicate Managed(m: Memory, cr3: FrameNo, chain: seq<FrameNo>, n: nat, idx: nat, window: FrameNo,
                          out: set<Word>, all: set<Word>) {
    && FreeList(m, chain, n, idx, window)
    && TablesApart(m, cr3, chain, idx / 1024, n / 1024)
    && Partition(Stack(m, chain, n, idx), idx, out, all)
  }

  lemma ManagedIgnoresTables(m: Memory, m': Memory, cr3: FrameNo, chain: seq<FrameNo>, n: nat, idx: nat,
                             window: FrameNo, out: set<Word>, all: set<Word>)
    requires Managed(m, cr3, chain, n, idx, window, out, all) && OnlyTablesChanged(m, m', cr3)
    ensures Managed(m', cr3, chain, n, idx, window, out, all)
    ensures Stack(m', chain, n, idx) == Stack(m, chain, n, idx)
    ensures !IsTable(m', cr3, window) && m'[window] == m[window]
    ensures forall f: FrameNo :: IsTable(m', cr3, f) == IsTable(m, cr3, f)
  {
    SameDirectory(m, m', cr3);
    FreeListIgnoresOthers(m, m', chain, n, idx, window);
    hide Stack;
  }

  lemma PartitionPop(s: seq<Word>, count: nat, out: set<Word>, all: set<Word>)
    requires Partition(s, count, out, all) && |s| > 0
    requires s[0] % 4096 == 0 && s[0] !in s[1..]
    ensures Partition(s[1..], count + 1, out + {s[0]}, all)
  {
    assert s == [s[0]] + s[1..];
    assert forall w :: w in s <==> w == s[0] || w in s[1..];
    assert s[0] in s;
  }

  lemma PartitionPush(s: seq<Word>, count: nat, out: set<Word>, all: set<Word>, p: Word)
    requires Partition(s, count, out, all) && p in out
    ensures count > 0 && Partition([p] + s, count - 1, out - {p}, all)
  {
    assert |out| == |out - {p}| + 1;
    assert forall w :: w in [p] + s <==> w == p || w in s;
  }

  /** The list s holds the pages of the map and the first window page, and those that do not
      become tables in the order of the map. */
  ghost predicate Lists(s: seq<Word>, pages: seq<nat>, w0: FrameNo) {
    && |s| == |pages| + 1
    && (forall w :: w in s <==> w in pages || w == Address(w0))
    && (forall j :: 0 <= j < |pages| && j % 1024 != 1023 ==> s[j] == pages[j])
  }

  lemma ListFinished(m0: Memory, m: Memory, m': Memory, cr3: FrameNo, chain: seq<FrameNo>, w0: FrameNo,
                     pages: seq<nat>)
    requires m'[cr3] == m[cr3] == m0[cr3] && SwitchesApart(m0, cr3, pages) && !IsTable(m0, cr3, w0)
    requires Built(m, chain, w0, pages, |pages|) && Listable(pages, w0)
    requires OnlyTablesChanged(m, m', cr3)
    ensures |chain| == |pages| / 1024 + 1
    ensures var s := Stack(m', chain, |pages|, 0);
            && Managed(m', cr3, chain, |pages|, 0, w0, {}, AsSet(s))
            && Lists(s, pages, w0) && (IsTable(m0, cr3, cr3) ==> (Address(cr3) in s <==> Address(cr3) in pages))
  {
    SameDirectory(m0, m, cr3);
    SameDirectory(m0, m', cr3);
    ChainNotTable(m, cr3, chain, w0, pages, |pages|);
    BuiltIgnoresOthers(m, m', cr3, chain, w0, pages, |pages|);
    BuiltIsFreeList(m', chain, w0, pages);
    BuiltStack(m', chain, w0, pages);
    assert {} + AsSet(Stack(m', chain, |pages|, 0)) == AsSet(Stack(m', chain, |pages|, 0));
  }

  /** Handing out the first free page keeps the partition. */
  lemma ManagedPop(m: Memory, cr3: FrameNo, chain: seq<FrameNo>, n: nat, idx: nat, window: FrameNo,
                   out: set<Word>, all: set<Word>)
    requires Managed(m, cr3, chain, n, idx, window, out, all) && idx < n
    ensures (idx + 1) / 1024 < |chain|
    ensures var s := Stack(m, chain, n, idx);
            && s[0] == NextPage(m, window, idx)
            && (idx % 1024 == 1023 ==> m[window][1023] == Address(chain[(idx + 1) / 1024]))
            && (idx % 1024 != 1023 ==> chain[(idx + 1) / 1024] == window)
            && Managed(m, cr3, chain, n, idx + 1, chain[(idx + 1) / 1024], out + {NextPage(m, window, idx)}, all)
            && s == [NextPage(m, window, idx)] + Stack(m, chain, n, idx + 1)
  {
    hide FreeList, Stack;
    Pop(m, chain, n, idx, window);
    PartitionPop(Stack(m, chain, n, idx), idx, out, all);
  }

  lemma ManagedShape(m: Memory, cr3: FrameNo, chain: seq<FrameNo>, n: nat, idx: nat,
                     window: FrameNo, out: set<Word>, all: set<Word>)
    requires Managed(m, cr3, chain, n, idx, window, out, all)
    ensures idx <= n && |chain| == n / 1024 + 1 && !IsTable(m, cr3, window)
  {
    hide Stack;
  }

  /** Handing out, the window move included: after edits of page tables alone. */
  lemma HandedOut(m: Memory, m': Memory, cr3: FrameNo, chain: seq<FrameNo>, n: nat, idx: nat,
                  window: FrameNo, out: set<Word>, all: set<Word>)
    requires Managed(m, cr3, chain, n, idx, window, out, all) && idx < n && OnlyTablesChanged(m, m', cr3)
    ensures (idx + 1) / 1024 < |chain| && |chain| == n / 1024 + 1
    ensures var p := NextPage(m, window, idx);
            && Managed(m', cr3, chain, n, idx + 1, chain[(idx + 1) / 1024], out + {p}, all)
            && [p] + Stack(m', chain, n, idx + 1) == Stack(m, chain, n, idx)
  {
    hide Managed, Stack, Item, IsTable, OnlyTablesChanged, FrameOf, Address, NextPage;
    ManagedShape(m, cr3, chain, n, idx, window, out, all);
    ManagedPop(m, cr3, chain, n, idx, window, out, all);
    ManagedIgnoresTables(m, m', cr3, chain, n, idx + 1, chain[(idx + 1) / 1024],
                         out + {NextPage(m, window, idx)}, all);
  }

  // The table in the window afterwards
  lemma NextWindow(m: Memory, cr3: FrameNo, chain: seq<FrameNo>, n: nat, idx: nat,
                   window: FrameNo, out: set<Word>, all: set<Word>)
    requires Managed(m, cr3, chain, n, idx, window, out, all) && idx < n
    ensures (idx + 1) / 1024 < |chain|
    ensures chain[(idx + 1) / 1024] == if idx % 1024 == 1023 then FrameOf(m[window][1023]) else window
  {
    hide Managed, Stack, NextPage;
    ManagedPop(m, cr3, chain, n, idx, window, out, all);
  }

  lemma OutstandingHasSlot(m: Memory, cr3: FrameNo, chain: seq<FrameNo>, n: nat, idx: nat,
                           window: FrameNo, out: set<Word>, all: set<Word>, p: Word)
    requires Managed(m, cr3, chain, n, idx, window, out, all) && p in out
    ensures 0 < idx <= n && |chain| == n / 1024 + 1 && p % 4096 == 0
    ensures !IsTable(m, cr3, window)
  {
    assert |out| == |out - {p}| + 1;
  }

  /** Taking an outstanding page back keeps the partition, and writes to no other
      outstanding page, unless a page table is made a table of the list. */
  lemma ManagedPush(m: Memory, m': Memory, cr3: FrameNo, chain: seq<FrameNo>, n: nat, idx: nat,
                    window: FrameNo, window': FrameNo, out: set<Word>, all: set<Word>, p: Word)
    requires Managed(m, cr3, chain, n, idx + 1, window, out, all)
    requires p in out && IsTable(m, cr3, cr3) && (idx % 1024 == 1023 ==> !IsTable(m, cr3, FrameOf(p)))
    requires m' == Pushed(m, idx + 1, window, p)
    requires window' == if idx % 1024 == 1023 then FrameOf(p) else window
    ensures idx < n && |chain| == n / 1024 + 1
    ensures var c' := PushedChain(chain, idx + 1, p);
            && Managed(m', cr3, c', n, idx, window', out - {p}, all)
            && Stack(m', c', n, idx) == [p] + Stack(m, chain, n, idx + 1)
    ensures m'[cr3] == m[cr3]
    ensures forall q :: q in out && q != p ==> m'[FrameOf(q)] == m[FrameOf(q)]
  {
    var s := Stack(m, chain, n, idx + 1);
    Push(m, chain, n, idx + 1, window, p);
    TableIsFree(m, chain, n, idx + 1, (idx + 1) / 1024);
    assert Address(window) in s && !IsTable(m, cr3, window);
    PushedElsewhere(m, idx + 1, window, p);
    OthersUntouched(m, m', s, window, idx + 1, out, all, p);
    PushedTablesApart(m, m', cr3, chain, n, idx, window, p);
    hide FreeList, Stack, Pushed, PushedChain, TablesApart;
    PartitionPush(s, idx + 1, out, all, p);
    hide Partition;
  }

  lemma ReturnableMeans(m: Memory, cr3: FrameNo, idx: nat, p: Word)
    requires WellFormed(m, cr3) && Returnable(m, cr3, idx + 1, p)
    ensures IsTable(m, cr3, cr3) && (idx % 1024 == 1023 ==> !IsTable(m, cr3, FrameOf(p)))
  {
    assert HasTable(m, cr3, 1023);
  }

  /** Taking a page back, the window move included. */
  lemma Freed(m: Memory, m1: Memory, m': Memory, cr3: FrameNo, chain: seq<FrameNo>, n: nat, idx: nat,
              window: FrameNo, window': FrameNo, out: set<Word>, all: set<Word>, p: Word)
    requires Managed(m, cr3, chain, n, idx + 1, window, out, all) && WellFormed(m, cr3)
    requires p in out && Returnable(m, cr3, idx + 1, p) && OnlyTablesChanged(m, m1, cr3)
    requires m' == Pushed(m1, idx + 1, window, p)
    requires window' == if idx % 1024 == 1023 then FrameOf(p) else window
    ensures idx < n && |chain| == n / 1024 + 1
    ensures var c' := PushedChain(chain, idx + 1, p);
            && Managed(m', cr3, c', n, idx, window', out - {p}, all)
            && Stack(m', c', n, idx) == [p] + Stack(m, chain, n, idx + 1)
    ensures forall q :: q in out - {p} && !IsTable(m, cr3, FrameOf(q)) ==> m'[FrameOf(q)] == m[FrameOf(q)]
  {
    hide Managed, Stack, Item, Pushed, PushedChain, IsTable, WellFormed, OnlyTablesChanged, Returnable;
    ManagedShape(m, cr3, chain, n, idx + 1, window, out, all);
    ReturnableMeans(m, cr3, idx, p);
    ManagedIgnoresTables(m, m1, cr3, chain, n, idx + 1, window, out, all);
    ManagedPush(m1, m', cr3, chain, n, idx, window, window', out, all, p);
    OthersKeep(m, m1, m', cr3, out, p);
  }

  lemma OthersKeep(m: Memory, m1: Memory, m': Memory, cr3: FrameNo, out: set<Word>, p: Word)
    requires OnlyTablesChanged(m, m1, cr3)
    requires forall q :: q in out && q != p ==> m'[FrameOf(q)] == m1[FrameOf(q)]
    ensures forall q :: q in out - {p} && !IsTable(m, cr3, FrameOf(q)) ==> m'[FrameOf(q)] == m[FrameOf(q)]
  {
    hide IsTable;
  }

  lemma EntryGoes(m: Memory, cr3: FrameNo, idx: nat, p: Word)
    ensures Returnable(m, cr3, idx + 1, p) <==> (idx % 1024 == 1023 ==> !IsTable(m, cr3, FrameOf(p)))
  {
    hide IsTable, FrameOf;
  }

  lemma PushedIs(m: Memory, idx: nat, window: FrameNo, p: Word)
    ensures Pushed(m, idx + 1, window, p) ==
      if idx % 1024 == 1023 then Set(m, FrameOf(p), 1023, Address(window)) else Set(m, window, idx % 1024, p)
  {
    hide Set, FrameOf, Address;
  }

  // What is written last is the entry of p, or the link in p
  lemma WrittenLast(m: Memory, idx: nat, window: FrameNo, p: Word)
    requires idx > 0 && p % 4096 == 0
    ensures NextPage(Pushed(m, idx, window, p), if (idx - 1) % 1024 == 1023 then FrameOf(p) else window, idx - 1) == p
    ensures Pushed(m, idx, window, p) ==
      if idx % 1024 == 0 then Set(m, FrameOf(p), 1023, Address(window)) else Set(m, window, idx % 1024 - 1, p)
  {}

  lemma PushedTablesApart(m: Memory, m': Memory, cr3: FrameNo, chain: seq<FrameNo>, n: nat, idx: nat,
                          window: FrameNo, p: Word)
    requires FreeList(m, chain, n, idx + 1, window) && TablesApart(m, cr3, chain, (idx + 1) / 1024, n / 1024)
    requires p % 4096 == 0 && p !in Stack(m, chain, n, idx + 1) && IsTable(m, cr3, cr3)
    requires idx % 1024 == 1023 ==> !IsTable(m, cr3, FrameOf(p))
    requires m' == Pushed(m, idx + 1, window, p)
    ensures m'[cr3] == m[cr3] && TablesApart(m', cr3, PushedChain(chain, idx + 1, p), idx / 1024, n / 1024)
  {
    assert !IsTable(m, cr3, window);
    SameDirectory(m, m', cr3);
    var c' := PushedChain(chain, idx + 1, p);
    forall t | idx / 1024 <= t <= n / 1024
      ensures !IsTable(m, cr3, c'[t])
    {
      if (idx + 1) / 1024 <= t { PushedTables(m, chain, n, idx + 1, window, p, t); }
    }
    hide Stack, FreeList, IsTable;
  }

  lemma OthersUntouched(m: Memory, m': Memory, s: seq<Word>, window: FrameNo, count: nat,
                        out: set<Word>, all: set<Word>, p: Word)
    requires Partition(s, count, out, all) && Address(window) in s && p in out
    requires forall f: FrameNo :: f != window && f != FrameOf(p) ==> m'[f] == m[f]
    ensures forall q :: q in out && q != p ==> m'[FrameOf(q)] == m[FrameOf(q)]
  {
    forall q | q in out && q != p
      ensures m'[FrameOf(q)] == m[FrameOf(q)]
    {
      assert Address(FrameOf(q)) == q && Address(FrameOf(p)) == p;
    }
  }

  // Only the window page and the page given back are written
  lemma PushedElsewhere(m: Memory, idx: nat, window: FrameNo, p: Word)
    requires idx > 0
    ensures forall f: FrameNo :: f != window && f != FrameOf(p) ==> Pushed(m, idx, window, p)[f] == m[f]
  {}

  /** Freeing a page and allocating again returns that page and restores the list, also
      when the page served as a new table in between. */
  lemma FreeThenAlloc(m: Memory, m': Memory, cr3: FrameNo, chain: seq<FrameNo>, n: nat, idx: nat,
                      window: FrameNo, window': FrameNo, out: set<Word>, all: set<Word>, p: Word)
    requires Managed(m, cr3, chain, n, idx + 1, window, out, all)
    requires p in out && IsTable(m, cr3, cr3) && (idx % 1024 == 1023 ==> !IsTable(m, cr3, FrameOf(p)))
    requires m' == Pushed(m, idx + 1, window, p)
    requires window' == if idx % 1024 == 1023 then FrameOf(p) else window
    ensures idx < n && |chain| == n / 1024 + 1
    ensures var c' := PushedChain(chain, idx + 1, p);
            && NextPage(m', window', idx) == p
            && Managed(m', cr3, c', n, idx + 1, window, out, all)
            && Stack(m', c', n, idx + 1) == Stack(m, chain, n, idx + 1)
  {
    assert chain[(idx + 1) / 1024] == window;
    assert out - {p} + {p} == out;
    hide FreeList, Stack, Partition, Managed, Pushed;
    ManagedPush(m, m', cr3, chain, n, idx, window, window', out, all, p);
    var c' := PushedChain(chain, idx + 1, p);
    assert c'[(idx + 1) / 1024] == window;
    hide PushedChain, Item, IsTable;
    var s, s' := Stack(m', c', n, idx), Stack(m', c', n, idx + 1);
    ManagedPop(m', cr3, c', n, idx, window', out - {p}, all);
    assert s[0] == p;
    assert s' == s[1..];
  }

  /** A client may write anything anywhere in its pages, or in any page that is no table of
      the list: every later allocation stays the same.  Only in the directory can it undo
      what keeps the list's own tables from being page tables. */
  lemma ClientWriteKeepsList(m: Memory, cr3: FrameNo, chain: seq<FrameNo>, n: nat, idx: nat,
                             window: FrameNo, out: set<Word>, all: set<Word>, f: FrameNo, i: Index, v: Word)
    requires Managed(m, cr3, chain, n, idx, window, out, all)
    requires Address(f) !in Stack(m, chain, n, idx)
    ensures var m' := Set(m, f, i, v);
            && FreeList(m', chain, n, idx, window) && Stack(m', chain, n, idx) == Stack(m, chain, n, idx)
            && (f != cr3 ==> Managed(m', cr3, chain, n, idx, window, out, all))
  {
    var m' := Set(m, f, i, v);
    forall t | idx / 1024 <= t <= n / 1024
      ensures chain[t] != f
    {
      TableIsFree(m, chain, n, idx, t);
    }
    FreeListIgnoresOthers(m, m', chain, n, idx, window);
    hide FreeList, Stack;
    if f != cr3 { SameDirectory(m, m', cr3); }
  }

  /** The last counted page.  pcount includes the window page, but no table entry lists
      it: with one page left, allocation reads a word that the list leaves arbitrary.
      It is sure to return a free page exactly when the table's entries are used up. */
  lemma LastPage(m: Memory, cr3: FrameNo, chain: seq<FrameNo>, n: nat, window: FrameNo,
                 out: set<Word>, all: set<Word>)
    requires Managed(m, cr3, chain, n, n, window, out, all) && window != cr3
    ensures Stack(m, chain, n, n) == [Address(window)]
    ensures (forall m': Memory :: Managed(m', cr3, chain, n, n, window, out, all) ==>
               NextPage(m', window, n) in Stack(m', chain, n, n))
      <==> n % 1024 == 1023
  {
    assert Stack(m, chain, n, n)[n - n] == Item(m, chain, n, n);
    forall m': Memory | Managed(m', cr3, chain, n, n, window, out, all)
      ensures Stack(m', chain, n, n) == [Address(window)]
    {
      assert Stack(m', chain, n, n)[n - n] == Item(m', chain, n, n);
    }
    if n % 1024 != 1023 {
      var v: Word := if Address(window) == 0 then 4096 else 0;
      var m' := Set(m, window, n % 1024, v);
      SameDirectory(m, m', cr3);
      assert Stack(m', chain, n, n)[n - n] == Item(m', chain, n, n);
      assert Stack(m', chain, n, n) == Stack(m, chain, n, n);
      assert Managed(m', cr3, chain, n, n, window, out, all);
      assert NextPage(m', window, n) == v;
    }
  }

  /** `pidx & 1023`. */
  function Low10(x: nat): (r: Index)
    ensures r == x % 1024
  {
    Pow2Values(); AndLowMask(x, 10);
    And(x, 1023)
  }

  /** Same directory, and every page but one keeps its translation. */
  ghost predicate SameMappings(m: Memory, m': Memory, cr3: FrameNo, except: VPage) {
    && m'[cr3] == m[cr3]
    && forall p: VPage :: p != except ==> Walk(m', cr3, p) == Walk(m, cr3, p)
  }

  /** The memory after the window has moved to the page paddr. */
  function MovedTo(m: Memory, cr3: FrameNo, currPages: Word, paddr: Word): Memory {
    Rewritten(m, cr3, currPages, Entry(paddr, 3))
  }

  /** Giving p back at count idx does not make a page table a table of the list. */
  ghost predicate Returnable(m: Memory, cr3: FrameNo, idx: nat, p: Word) {
    idx % 1024 == 0 ==> !IsTable(m, cr3, FrameOf(p))
  }

  /** Where a page given back becomes a table of the list, its last word becomes the address
      of the former table.  That keeps every translation exactly when the page is no page
      table, or one whose last entry maps nothing; in the directory it destroys the self
      reference. */
  lemma SwitchOnTable(m: Memory, cr3: FrameNo, f: FrameNo, window: FrameNo)
    requires WellFormed(m, cr3)
    ensures var m' := Set(m, f, 1023, Address(window));
            && (SameWalks(m, m', cr3) <==> !IsTable(m, cr3, f) || !Present(m[f][1023]))
            && (f == cr3 ==> !WellFormed(m', cr3) && Walk(m', cr3, WindowPage(1023)) == None)
  {
    assert HasTable(m, cr3, 1023);
    WriteKeepsWalks(m, cr3, f, 1023, Address(window));
    assert !Present(Address(window));
    if f == cr3 {
      assert !HasTable(Set(m, f, 1023, Address(window)), cr3, 1023);
      assert Behind(m, m[cr3][1023], 1023) == Some(cr3);
    }
  }

  // ---------- the allocator ----------

  class Pmm {
    const mmu: Mmu
    const currPages: Word      // virtual address of the window
    var pcount: nat
    var pfree: nat
    var pidx: nat
    ghost var chain: seq<FrameNo>
    ghost var out: set<Word>   // pages handed out
    ghost var all: set<Word>   // pages under management

    constructor (mmu: Mmu, currPages: Word)
      ensures this.mmu == mmu && this.currPages == currPages
    {
      this.mmu, this.currPages := mmu, currPages;
      pcount, pfree, pidx, chain, out, all := 0, 0, 0, [], {}, {};
    }

    ghost predicate Ready()
      reads mmu
    {
      && mmu.Valid() && currPages % 4096 == 0
      && HasTable(mmu.mem, mmu.cr3, Pdi(currPages)) && Pdi(currPages) != 1023
      && Walk(mmu.mem, mmu.cr3, PageOf(currPages)).Some?
    }

    ghost function Window(): FrameNo
      requires Ready()
      reads mmu
    {
      Walk(mmu.mem, mmu.cr3, PageOf(currPages)).value
    }

    ghost predicate Valid()
      reads this, mmu
    {
      && Ready() && pfree > 0 && pidx + pfree == pcount
      && Managed(mmu.mem, mmu.cr3, chain, pcount - 1, pidx, Window(), out, all)
    }

    /** The free pages in the order in which they will be handed out. */
    ghost function Free(): seq<Word>
      requires pfree > 0 && pidx + pfree == pcount && |chain| == (pcount - 1) / 1024 + 1
      reads this, mmu
    {
      Stack(mmu.mem, chain, pcount - 1, pidx)
    }

    method WindowLoad(k: Index) returns (w: Word)
      requires Ready()
      modifies mmu`tlb
      ensures Ready() && w == mmu.mem[Window()][k]
    {
      assert PageOf(currPages + 4 * k) == PageOf(currPages) && (currPages + 4 * k) % 4096 / 4 == k;
      w := mmu.Load(currPages + 4 * k);
    }

    method WindowStore(k: Index, w: Word)
      requires Ready()
      modifies mmu`mem, mmu`tlb
      ensures mmu.mem == Set(old(mmu.mem), old(Window()), k, w)
      ensures !IsTable(old(mmu.mem), mmu.cr3, old(Window())) ==>
        && Ready() && Window() == old(Window())
        && SameMappings(old(mmu.mem), mmu.mem, mmu.cr3, PageOf(currPages))
    {
      assert PageOf(currPages + 4 * k) == PageOf(currPages) && (currPages + 4 * k) % 4096 / 4 == k;
      if !IsTable(mmu.mem, mmu.cr3, Window()) {
        DataWriteKeepsTables(mmu.mem, mmu.cr3, Window(), k, w);
      }
      mmu.Store(currPages + 4 * k, w);
    }

    // pt_map(paddr, curr_pages, PRESENT | RW) & PT_PAGE_MASK
    method MoveWindow(paddr: Word) returns (prev: Word)
      requires Ready()
      modifies mmu`mem, mmu`tlb
      ensures Ready() && prev == Address(old(Window())) && Window() == FrameOf(paddr)
      ensures SameMappings(old(mmu.mem), mmu.mem, mmu.cr3, PageOf(currPages))
      ensures OnlyTablesChanged(old(mmu.mem), mmu.mem, mmu.cr3)
      ensures mmu.mem == MovedTo(old(mmu.mem), mmu.cr3, currPages, paddr)
    {
      ghost var m := mmu.mem;
      assert PageOf(currPages) / 1024 == Pdi(currPages);
      assert Or(PRESENT, RW) == 3;
      EntryChangesOnePage(m, mmu.cr3, currPages, Entry(paddr, 3));
      var e := mmu.PtMap(paddr, currPages, Or(PRESENT, RW));
      prev := PageMask(e);
      SameDirectory(m, mmu.mem, mmu.cr3);
      assert IsTable(m, mmu.cr3, TableFrame(m, mmu.cr3, Pdi(currPages)));
    }

    /** Builds the list from the map.  Every page of the map is listed, in order; a page table
        or the page directory in the map is listed like any other page.  Only the pages that
        become tables of the list must not be page tables. */
    method Init(e820: seq<Region>)
      requires Ready() && |e820| <= 0xFFFF
      requires Enumerable(e820)
      requires Listable(Pages(e820), Window())
      requires !IsTable(mmu.mem, mmu.cr3, Window())
      requires SwitchesApart(mmu.mem, mmu.cr3, Pages(e820))
      modifies this, mmu`mem, mmu`tlb
      ensures Valid() && pcount == |Pages(e820)| + 1 && out == {}
      ensures all == AsSet(Free()) && Lists(Free(), Pages(e820), old(Window()))
      ensures Address(mmu.cr3) in Free() <==> Address(mmu.cr3) in Pages(e820)
      ensures SameMappings(old(mmu.mem), mmu.mem, mmu.cr3, PageOf(currPages))
    {
      assert HasTable(mmu.mem, mmu.cr3, 1023);
      assert IsTable(mmu.mem, mmu.cr3, mmu.cr3);
      hide Managed, Stack, Listable, SwitchesApart, WellFormed, Coherent, IsTable, Lists, Pages;
      ghost var pages := Pages(e820);
      ghost var w0 := Window();
      ghost var m0 := mmu.mem;
      var initialPaddr := mmu.GetPaddr(currPages);
      PhysicalIsWalk(mmu.mem, mmu.cr3, currPages);
      assert initialPaddr == Address(w0);
      pcount, pidx := 0, 0;
      chain, out := [w0], {};
      assert Built(mmu.mem, chain, w0, pages, 0);
      hide Built, Walk;
      StoreMap(e820, m0, w0);
      Finish(initialPaddr, m0, w0, pages);
    }

    // The end of pmm_init: back to the first window page, which is counted too
    method Finish(initialPaddr: Word, ghost m0: Memory, ghost w0: FrameNo, ghost pages: seq<nat>)
      requires Building(m0, w0, pages) && Listable(pages, w0) && pcount == |pages|
      requires initialPaddr == Address(w0) && pidx == 0 && out == {}
      requires !IsTable(m0, mmu.cr3, w0) && SwitchesApart(m0, mmu.cr3, pages) && IsTable(m0, mmu.cr3, mmu.cr3)
      modifies this`pcount, this`pfree, this`all, mmu`mem, mmu`tlb
      ensures Valid() && pcount == |pages| + 1
      ensures all == AsSet(Free()) && Lists(Free(), pages, w0)
      ensures Address(mmu.cr3) in Free() <==> Address(mmu.cr3) in pages
      ensures SameMappings(m0, mmu.mem, mmu.cr3, PageOf(currPages))
    {
      hide Managed, Stack, Listable, SwitchesApart, WellFormed, Coherent, IsTable, Lists, Built, Walk;
      ghost var m := mmu.mem;
      var _ := MoveWindow(initialPaddr);
      ListFinished(m0, m, mmu.mem, mmu.cr3, chain, w0, pages);
      pcount := pcount + 1;
      pfree := pcount;
      all := AsSet(Stack(mmu.mem, chain, |pages|, 0));
    }

    // The outer loop of pmm_init
    method StoreMap(e820: seq<Region>, ghost m0: Memory, ghost w0: FrameNo)
      requires pcount == 0 && Building(m0, w0, Pages(e820)) && Listable(Pages(e820), w0)
      requires !IsTable(m0, mmu.cr3, w0) && SwitchesApart(m0, mmu.cr3, Pages(e820))
      requires |e820| <= 0xFFFF
      requires Enumerable(e820)
      modifies this`pcount, this`chain, mmu`mem, mmu`tlb
      ensures Building(m0, w0, Pages(e820)) && pcount == |Pages(e820)|
    {
      ghost var pages := Pages(e820);
      var idx := 0;
      while idx < |e820| && e820[idx].kind == USABLE
        invariant 0 <= idx <= |e820|
        invariant Building(m0, w0, pages)
        invariant pages[pcount..] == Pages(e820[idx..]) && Enumerable(e820[idx..])
      {
        EnumerableTail(e820[idx..]);
        assert e820[idx..][1..] == e820[idx + 1..];
        StoreRegion(e820[idx], Pages(e820[idx + 1..]), m0, w0, pages);
        idx := idx + 1;
      }
    }

    /** Progress of Init: the first pcount pages are stored. */
    ghost predicate Building(m0: Memory, w0: FrameNo, pages: seq<nat>)
      reads this, mmu
    {
      && Ready() && Built(mmu.mem, chain, w0, pages, pcount) && Window() == chain[pcount / 1024]
      && SameMappings(m0, mmu.mem, mmu.cr3, PageOf(currPages))
    }

    // The inner loop of pmm_init
    method StoreRegion(r: Region, ghost rest: seq<nat>, ghost m0: Memory, ghost w0: FrameNo, ghost pages: seq<nat>)
      requires Building(m0, w0, pages) && Listable(pages, w0)
      requires !IsTable(m0, mmu.cr3, w0) && SwitchesApart(m0, mmu.cr3, pages)
      requires r.length > 0 ==> OnPages(r)
      requires pages[pcount..] == RegionPages(r) + rest
      modifies this`pcount, this`chain, mmu`mem, mmu`tlb
      ensures Building(m0, w0, pages) && pages[pcount..] == rest
    {
      ghost var k := 0;
      ghost var n0 := pcount;
      var addr: nat := r.base;
      while addr < r.base + r.length
        invariant 0 <= k <= PageCount(r.length) && addr == r.base + 0x1000 * k
        invariant Building(m0, w0, pages) && pcount == n0 + k
        decreases r.base + r.length - addr
      {
        assert addr == (RegionPages(r) + rest)[k] == pages[n0..][k];
        StorePage(addr, m0, w0, pages);
        addr := addr + 0x1000;
        k := k + 1;
      }
      assert k == PageCount(r.length);
      assert pages[pcount..] == pages[n0..][k..];
    }

    // One round of it
    method StorePage(addr: Word, ghost m0: Memory, ghost w0: FrameNo, ghost pages: seq<nat>)
      requires Building(m0, w0, pages) && Listable(pages, w0)
      requires pcount < |pages| && addr == pages[pcount]
      requires !IsTable(m0, mmu.cr3, w0)
      requires SwitchesApart(m0, mmu.cr3, pages)
      modifies this`pcount, this`chain, mmu`mem, mmu`tlb
      ensures Building(m0, w0, pages) && pcount == old(pcount) + 1
    {
      SameDirectory(m0, mmu.mem, mmu.cr3);
      BuildStep(mmu.mem, chain, w0, pages, pcount);
      ChainNotTable(mmu.mem, mmu.cr3, chain, w0, pages, pcount);
      WindowStore(pcount % 1024, addr);
      chain := Extended(chain, pcount, addr);
      if pcount % 1024 == 1023 {
        ghost var m := mmu.mem;
        var _ := MoveWindow(addr);
        SameDirectory(m0, m, mmu.cr3);
        ChainNotTable(m, mmu.cr3, chain, w0, pages, pcount + 1);
        BuiltIgnoresOthers(m, mmu.mem, mmu.cr3, chain, w0, pages, pcount + 1);
      }
      pcount := pcount + 1;
    }

    /** With two or more pages counted free, the next page of the list is handed out.
        With one, the count covers only the window page, and unless its table is used up
        the caller gets a word that no list entry was ever written to. */
    method Alloc() returns (paddr: Word)
      requires Ready() && (pfree >= 2 ==> Valid())
      modifies this, mmu`mem, mmu`tlb
      ensures Ready() && pidx + pfree == old(pidx + pfree)
      ensures old(pfree) == 0 ==> paddr == PT_INVALID_PAGE && mmu.mem == old(mmu.mem) && pfree == 0
      ensures old(pfree) > 0 ==>
        && pfree == old(pfree) - 1
        && (if old(pidx) % 1024 == 1023 then
              && paddr == Address(old(Window()))
              && mmu.mem == MovedTo(old(mmu.mem), mmu.cr3, currPages, old(mmu.mem)[old(Window())][1023])
            else paddr == old(mmu.mem)[old(Window())][old(pidx) % 1024] && mmu.mem == old(mmu.mem))
      ensures old(pfree) >= 2 ==>
        && Valid() && all == old(all) && out == old(out) + {paddr}
        && [paddr] + Free() == old(Free())
      ensures SameMappings(old(mmu.mem), mmu.mem, mmu.cr3, PageOf(currPages))
      ensures OnlyTablesChanged(old(mmu.mem), mmu.mem, mmu.cr3)
    {
      hide Managed, Stack, WellFormed, Coherent, IsTable, Walk, MovedTo;
      paddr := 0xFFFF_FFFF;
      if pfree != 0 {
        ghost var m, w := mmu.mem, Window();
        if Low10(pidx) == 1023 {
          var next := WindowLoad(1023);
          paddr := MoveWindow(next);
        } else {
          paddr := WindowLoad(Low10(pidx));
        }
        if pfree > 1 {
          HandedOut(m, mmu.mem, mmu.cr3, chain, pcount - 1, pidx, w, out, all);
          NextWindow(m, mmu.cr3, chain, pcount - 1, pidx, w, out, all);
          out := out + {paddr};
        }
        pidx := pidx + 1;
        pfree := pfree - 1;
      }
    }

    /** The page given back becomes the next one to be granted, also after the count has
        reached 0, when the list is no longer in order.  The exception: where the list goes
        on in a new table, that table is the page given back, and if it is a page table, or
        the directory, then its last word is overwritten; see SwitchOnTable. */
    method FreePage(p: Word)
      requires Ready()
      requires if pfree > 0 then Valid() && p in out
               else pidx > 0 && p % 4096 == 0 && !IsTable(mmu.mem, mmu.cr3, Window())
      modifies this, mmu`mem, mmu`tlb
      ensures pfree == old(pfree) + 1 && pidx + 1 == old(pidx)
      ensures Returnable(old(mmu.mem), mmu.cr3, old(pidx), p) ==>
        && Ready() && NextPage(mmu.mem, Window(), pidx) == p
        && SameMappings(old(mmu.mem), mmu.mem, mmu.cr3, PageOf(currPages))
        && (old(pfree) > 0 ==>
              && Valid() && all == old(all) && out == old(out) - {p}
              && Free() == [p] + old(Free())
              && forall q :: q in out && !IsTable(old(mmu.mem), mmu.cr3, FrameOf(q)) ==>
                   mmu.mem[FrameOf(q)] == old(mmu.mem)[FrameOf(q)])
      ensures mmu.mem ==
        if old(pidx) % 1024 == 0 then
          Set(MovedTo(old(mmu.mem), mmu.cr3, currPages, p), FrameOf(p), 1023, Address(old(Window())))
        else Set(old(mmu.mem), old(Window()), old(pidx) % 1024 - 1, p)
    {
      hide Managed, WellFormed, Coherent, Walk, IsTable, HasTable, PushedChain, MovedTo, Stack, Pushed, NextPage, Set,
        FrameOf, Address;
      ghost var managed, m, w, n, c, o := pfree > 0, mmu.mem, Window(), pcount - 1, chain, out;
      ghost var idx, fine := pidx, Returnable(mmu.mem, mmu.cr3, pidx, p);
      if managed {
        OutstandingHasSlot(m, mmu.cr3, c, n, idx, w, o, all, p);
        chain := PushedChain(c, idx, p);
        out := o - {p};
      }
      pidx := pidx - 1;
      pfree := pfree + 1;
      ghost var m1 := WriteEntry(p);
      WrittenLast(m1, idx, w, p);
      if fine && managed {
        Freed(m, m1, mmu.mem, mmu.cr3, c, n, pidx, w, Window(), o, all, p);
      }
    }

    // Write p into the list at the decremented pidx; m1 is the memory before the word
    // of the list is written
    method WriteEntry(p: Word) returns (ghost m1: Memory)
      requires Ready() && !IsTable(mmu.mem, mmu.cr3, Window())
      modifies mmu`mem, mmu`tlb
      ensures OnlyTablesChanged(old(mmu.mem), m1, mmu.cr3)
      ensures m1 == if pidx % 1024 == 1023 then MovedTo(old(mmu.mem), mmu.cr3, currPages, p) else old(mmu.mem)
      ensures mmu.mem == Pushed(m1, pidx + 1, old(Window()), p)
      ensures Returnable(old(mmu.mem), mmu.cr3, pidx + 1, p) ==>
        && Ready() && Window() == (if pidx % 1024 == 1023 then FrameOf(p) else old(Window()))
        && SameMappings(old(mmu.mem), mmu.mem, mmu.cr3, PageOf(currPages))
    {
      hide MovedTo, WellFormed, Coherent, Walk, Pushed, Returnable, IsTable, Set, FrameOf, Address;
      m1 := mmu.mem;
      EntryGoes(m1, mmu.cr3, pidx, p);
      ghost var w := Window();
      if Low10(pidx) == 1023 {
        var prev := MoveWindow(p);
        SameDirectory(m1, mmu.mem, mmu.cr3);
        m1 := mmu.mem;
        WindowStore(1023, prev);
      } else {
        WindowStore(Low10(pidx), p);
      }
      PushedIs(m1, pidx, w, p);
    }

    method FreePages() returns (n: nat)
      requires Valid()
      ensures n == |Free()| && n + |out| == pcount
    {
      n := pfree;
    }
  }
}
