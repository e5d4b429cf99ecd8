/** One slab page (stage3/mem/slab.cpp): equal blocks of `size` words whose free list is
    threaded through the first words of the free blocks. */
module Slabs {
  import opened Bits
  import opened Seqs

  const SLABP_SIZE := 1022
  const SLAB_SENTINEL: Word := 0xFFFF_FFFF

  type BlockSize = s: int | 1 <= s <= 1022 witness 1

  // The offsets at which blocks start
  predicate IsBlock(size: BlockSize, b: int) {
    0 <= b < SLABP_SIZE && b % size == 0
  }

  // The number of blocks in a page, 1022 / size rounded up
  function Blocks(size: BlockSize): nat {
    (SLABP_SIZE - 1) / size + 1
  }

  /** Following the links from `first` visits exactly the blocks of `list`, in order. */
  predicate Chained(data: seq<Word>, first: Word, list: seq<nat>)
    requires |data| == SLABP_SIZE
    decreases |list|
  {
    if list == [] then first == SLAB_SENTINEL
    else first == list[0] < SLABP_SIZE && Chained(data, data[list[0]], list[1..])
  }

  /** Words outside the free blocks' first words are not part of the list. */
  lemma {:induction false} ChainIgnoresOthers(data: seq<Word>, data': seq<Word>, first: Word, list: seq<nat>)
    requires |data| == |data'| == SLABP_SIZE && Chained(data, first, list)
    requires forall b :: b in list && b < SLABP_SIZE ==> data'[b] == data[b]
    ensures Chained(data', first, list)
    decreases |list|
  {
    if list != [] {
      ChainIgnoresOthers(data, data', data[list[0]], list[1..]);
    }
  }

  lemma {:induction false} ChainInBounds(data: seq<Word>, first: Word, list: seq<nat>)
    requires |data| == SLABP_SIZE && Chained(data, first, list)
    ensures forall b :: b in list ==> b < SLABP_SIZE
    decreases |list|
  {
    if list != [] {
      ChainInBounds(data, data[list[0]], list[1..]);
      assert list == [list[0]] + list[1..];
    }
  }

  /** The links determine the list: a page has one free list. */
  lemma {:induction false} ChainUnique(data: seq<Word>, first: Word, s: seq<nat>, t: seq<nat>)
    requires |data| == SLABP_SIZE && Chained(data, first, s) && Chained(data, first, t)
    ensures s == t
    decreases |s|
  {
    if s != [] {
      ChainUnique(data, data[s[0]], s[1..], t[1..]);
      assert s == [s[0]] + s[1..] && t == [t[0]] + t[1..];
    }
  }

  // k, k + 1, ... blocks up to the end of the page
  function BlocksFrom(size: BlockSize, k: nat): (s: seq<nat>)
    ensures |s| == if k <= Blocks(size) then Blocks(size) - k else 0
    ensures forall i :: 0 <= i < |s| ==> s[i] == (k + i) * size
  {
    seq(if k <= Blocks(size) then Blocks(size) - k else 0, i => (k + i) * size)
  }

  lemma BlockBound(size: BlockSize, k: nat)
    ensures k < Blocks(size) <==> k * size < SLABP_SIZE
  {
    var n := Blocks(size);
    assert SLABP_SIZE - 1 == (n - 1) * size + (SLABP_SIZE - 1) % size;
    assert n * size == (n - 1) * size + size;
    if k < n { Monotone(k, n - 1, size); } else { Monotone(n, k, size); }
  }

  lemma Monotone(a: nat, b: nat, c: nat)
    requires a <= b
    ensures a * c <= b * c
  {}

  /** Every block starts at a multiple of the size, and all of them do. */
  lemma AllBlocks(size: BlockSize)
    ensures forall b :: b in BlocksFrom(size, 0) <==> IsBlock(size, b)
    ensures Distinct(BlocksFrom(size, 0))
  {
    var s := BlocksFrom(size, 0);
    forall b | b in s
      ensures IsBlock(size, b)
    {
      var i :| 0 <= i < |s| && s[i] == b;
      BlockBound(size, i);
      DivModUnique(b, size, i, 0);
    }
    forall b | IsBlock(size, b)
      ensures b in s
    {
      BlockListed(size, b);
    }
    BlocksDistinct(size);
  }

  lemma BlockListed(size: BlockSize, b: int)
    requires IsBlock(size, b)
    ensures b in BlocksFrom(size, 0)
  {
    var s, i := BlocksFrom(size, 0), b / size;
    assert b == i * size;
    BlockBound(size, i);
    assert s[i] == (0 + i) * size;
  }

  lemma BlocksDistinct(size: BlockSize)
    ensures Distinct(BlocksFrom(size, 0))
  {
    var s := BlocksFrom(size, 0);
    forall i, j | 0 <= i < j < |s|
      ensures s[i] != s[j]
    {
      assert s[j] - s[i] == (j - i) * size;
      Monotone(1, j - i, size);
    }
  }

  /** The last block of a page ends inside the page exactly when the size divides 1022;
      otherwise a client that fills that block writes past the page. */
  lemma BlocksFit(size: BlockSize)
    ensures (forall b :: IsBlock(size, b) ==> b + size <= 1022) <==> 1022 % size == 0
  {
    var last := (SLABP_SIZE - 1) / size * size;
    DivModUnique(last, size, (SLABP_SIZE - 1) / size, 0);
    assert IsBlock(size, last);
    if SLABP_SIZE % size == 0 {
      var n := SLABP_SIZE / size;
      forall b | IsBlock(size, b)
        ensures b + size <= SLABP_SIZE
      {
        assert b == b / size * size && SLABP_SIZE == n * size;
        if b / size >= n { Monotone(n, b / size, size); }
        Monotone(b / size + 1, n, size);
      }
    } else {
      var q := SLABP_SIZE / size;
      assert SLABP_SIZE == q * size + SLABP_SIZE % size;
      DivModUnique(SLABP_SIZE - 1, size, q, SLABP_SIZE % size - 1);
      assert last == q * size;
    }
  }

  /** Two different blocks share no word. */
  lemma BlocksApart(size: BlockSize, a: nat, b: nat, i: nat)
    requires IsBlock(size, a) && IsBlock(size, b) && a != b && a <= i < a + size
    ensures i != b
  {
    if i == b {
      DivModUnique(b, size, a / size, b - a);
    }
  }

  lemma BlocksDisjoint(size: BlockSize, a: nat, b: nat, i: nat)
    requires IsBlock(size, a) && IsBlock(size, b) && a != b && a <= i < a + size
    ensures !(b <= i < b + size)
  {
    if a < b <= i { BlocksApart(size, a, b, b); }
    if b < a && i < b + size { BlocksApart(size, b, a, a); }
  }

  // The word at offset `at` links to the block that follows, if any
  ghost predicate Linked(data: seq<Word>, size: BlockSize, at: int)
    requires |data| == SLABP_SIZE
  {
    0 <= at < SLABP_SIZE && data[at] == if at + size < SLABP_SIZE then at + size else SLAB_SENTINEL
  }

  lemma {:induction false} LinkedIsChained(data: seq<Word>, size: BlockSize, k: nat, at: Word)
    requires |data| == SLABP_SIZE && k < Blocks(size) && at == k * size
    requires forall i :: k <= i < Blocks(size) ==> Linked(data, size, i * size)
    ensures Chained(data, at, BlocksFrom(size, k))
    decreases Blocks(size) - k
  {
    assert Linked(data, size, k * size);
    BlockBound(size, k + 1);
    var s := BlocksFrom(size, k);
    assert s[0] == (k + 0) * size == at;
    assert (k + 1) * size == at + size;
    assert s[1..] == BlocksFrom(size, k + 1) by {
      assert forall i :: 0 <= i < |s| - 1 ==> s[1..][i] == (k + (i + 1)) * size;
    }
    if k + 1 < Blocks(size) {
      LinkedIsChained(data, size, k + 1, at + size);
    }
  }

  // Filling in block k's link leaves the links before it as they are
  lemma LinkStep(data: seq<Word>, size: BlockSize, k: nat, v: Word)
    requires |data| == SLABP_SIZE && k * size < SLABP_SIZE
    requires forall i :: 0 <= i < k ==> Linked(data, size, i * size)
    ensures forall i :: 0 <= i < k ==> Linked(data[k * size := v], size, i * size)
  {
    forall i | 0 <= i < k
      ensures Linked(data[k * size := v], size, i * size)
    {
      assert Linked(data, size, i * size);
      Monotone(i + 1, k, size);
      assert (i + 1) * size == i * size + size;
    }
  }

  lemma Regroup(a: seq<nat>, b: nat, c: seq<nat>)
    ensures (a + [b]) + c == a + ([b] + c)
  {}

  class SlabPage {
    var free: nat
    var size: BlockSize
    var firstFree: Word
    const data: array<Word>
    ghost var freeList: seq<nat>  // the free blocks, the next one to be allocated first
    ghost var out: set<nat>       // the blocks handed out

    ghost predicate Valid()
      reads this, data
    {
      && data.Length == SLABP_SIZE
      && Chained(data[..], firstFree, freeList) && Distinct(freeList)
      && (forall b :: b in freeList ==> b !in out)
      && (forall b :: b in freeList || b in out <==> IsBlock(size, b))
    }

    constructor (memory: array<Word>)
      requires memory.Length == 1022
      ensures data == memory
    {
      data := memory;
      size, firstFree, free := 1, 0, 0;
    }

    method Full() returns (r: bool)
      requires Valid()
      ensures r <==> freeList == []
      ensures r <==> firstFree == 0xFFFF_FFFF
    {
      r := firstFree == SLAB_SENTINEL;
    }

    /** A fresh page holds every block; `free` ends up one less than their number. */
    method Init(size: BlockSize)
      requires data.Length == SLABP_SIZE
      modifies this, data
      ensures Valid() && this.size == size
      ensures freeList == BlocksFrom(size, 0) && |freeList| == Blocks(size) && out == {}
      ensures free == Blocks(size) - 1 && firstFree == 0
      ensures forall k :: 0 <= k < Blocks(size) ==> Linked(data[..], size, k * size)
    {
      this.size := size;
      firstFree := 0;
      free := 0;
      while firstFree + size < SLABP_SIZE
        invariant firstFree == free * size < SLABP_SIZE
        invariant this.size == size
        invariant forall i :: 0 <= i < free ==> Linked(data[..], size, i * size)
        decreases SLABP_SIZE - firstFree
      {
        LinkStep(data[..], size, free, firstFree + size);
        assert (free + 1) * size == free * size + size;
        data[firstFree] := firstFree + size;
        firstFree := firstFree + size;
        free := free + 1;
      }
      assert (free + 1) * size == free * size + size;
      BlockBound(size, free);
      BlockBound(size, free + 1);
      LinkStep(data[..], size, free, SLAB_SENTINEL);
      data[firstFree] := SLAB_SENTINEL;
      firstFree := 0;
      freeList, out := BlocksFrom(size, 0), {};
      LinkedIsChained(data[..], size, 0, 0);
      AllBlocks(size);
    }

    /** Takes the first free block; the caller checks Full() first. */
    method Alloc() returns (offset: nat)
      requires Valid() && freeList != []
      modifies this`firstFree, this`freeList, this`out
      ensures Valid() && [offset] + freeList == old(freeList) && out == old(out) + {offset}
      ensures offset < SLABP_SIZE && offset == old(firstFree) && firstFree == data[offset]
    {
      offset := firstFree;
      firstFree := data[offset];
      assert freeList == [freeList[0]] + freeList[1..];
      assert forall b :: b in freeList <==> b == freeList[0] || b in freeList[1..];
      freeList, out := freeList[1..], out + {offset};
    }

    method Free(offset: nat)
      requires Valid() && offset in out
      modifies this`firstFree, this`freeList, this`out, data
      ensures Valid() && freeList == [offset] + old(freeList) && out == old(out) - {offset}
      ensures forall i :: 0 <= i < SLABP_SIZE && i != offset ==> data[i] == old(data[i])
      ensures firstFree == offset < SLABP_SIZE && data[offset] == old(firstFree)
    {
      assert IsBlock(size, offset);
      ghost var before := data[..];
      data[offset] := firstFree;
      ChainIgnoresOthers(before, data[..], firstFree, freeList);
      firstFree := offset;
      freeList, out := [offset] + freeList, out - {offset};
      assert freeList[1..] == old(freeList);
      assert forall b :: b in freeList <==> b == offset || b in old(freeList);
    }

    /** A client writes word i of a block it holds: the free list does not notice. */
    method ClientWrite(b: nat, i: nat, v: Word)
      requires Valid() && b in out && b <= i < b + size && i < SLABP_SIZE
      modifies data
      ensures Valid() && data[..] == old(data[..])[i := v]
    {
      ghost var before := data[..];
      forall f | f in freeList
        ensures f != i
      {
        BlocksApart(size, b, f, i);
      }
      data[i] := v;
      ChainIgnoresOthers(before, data[..], firstFree, freeList);
    }

    /** Allocation until the page is full, as test/slabtest.cpp does: a fresh page gives
        ceil(1022 / size) different blocks. */
    method Drain() returns (blocks: seq<nat>)
      requires Valid()
      modifies this`firstFree, this`freeList, this`out
      ensures Valid() && freeList == [] && blocks == old(freeList) && Distinct(blocks)
      ensures forall b :: b in out <==> IsBlock(size, b)
    {
      hide Chained, Distinct, BlocksFrom;
      blocks := [];
      var full := Full();
      ghost var all := freeList;
      assert [] + all == all;
      while !full
        invariant Valid() && full == (freeList == [])
        invariant blocks + freeList == all
        decreases |freeList|
      {
        ghost var before := freeList;
        var b := Alloc();
        Regroup(blocks, b, freeList);
        blocks := blocks + [b];
        full := Full();
      }
      assert blocks + [] == blocks;
    }
  }
}
