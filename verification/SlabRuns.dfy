/** Whole runs of a slab page: it refines the same plain stack, whatever its clients write
    into their blocks. */
module SlabRuns {
  import opened Bits
  import opened Seqs
  import opened Slabs
  import opened Stacks

  ghost function Abstract(slab: SlabPage): Plain<nat>
    reads slab
  {
    Plain(slab.freeList, slab.out)
  }

  // A write goes to a word of the block, inside the page
  predicate InBlock(size: BlockSize, op: Op<nat>) {
    op.Write? ==> op.item <= op.i < op.item + size && op.i < SLABP_SIZE
  }

  /** The blocks that stay with their client keep their contents, except for its own write. */
  ghost predicate Kept(size: BlockSize, data: seq<Word>, data': seq<Word>, held: set<nat>, op: Op<nat>)
    requires |data| == |data'| == SLABP_SIZE
  {
    forall b: nat, i: nat :: b in held && b <= i < b + size && i < SLABP_SIZE ==>
      data'[i] == WordStep(data[i], op, b, i)
  }

  /** Over a whole run: a block held throughout holds what its client wrote last, and
      otherwise what it held before. */
  ghost predicate Remembered(size: BlockSize, data: seq<Word>, data': seq<Word>, s: Plain<nat>, ops: seq<Op<nat>>)
    requires |data| == |data'| == SLABP_SIZE && AllAllowed(s, ops, 0)
  {
    forall b: nat, i: nat :: HeldThroughout(s, ops, 0, b) && b <= i < b + size && i < SLABP_SIZE ==>
      data'[i] == WordAfter(data[i], ops, b, i)
  }

  lemma RememberedStep(size: BlockSize, d: seq<Word>, d1: seq<Word>, d2: seq<Word>, s: Plain<nat>, ops: seq<Op<nat>>)
    requires |d| == |d1| == |d2| == SLABP_SIZE && |ops| > 0 && AllAllowed(s, ops, 0)
    requires Kept(size, d, d1, s.out * Step(s, ops[0], 0).out, ops[0])
    requires Remembered(size, d1, d2, Step(s, ops[0], 0), ops[1..])
    ensures Remembered(size, d, d2, s, ops)
  {
    var t := Step(s, ops[0], 0);
    hide Step, AllAllowed;
    forall b: nat, i: nat | HeldThroughout(s, ops, 0, b) && b <= i < b + size && i < SLABP_SIZE
      ensures d2[i] == WordAfter(d[i], ops, b, i)
    {
      assert HeldThroughout(t, ops[1..], 0, b) && b in s.out * t.out;
      assert d1[i] == WordStep(d[i], ops[0], b, i);
    }
  }

  // Giving a block back writes its first word, and a client a word of its own block: no
  // word of another block
  lemma KeptByGive(size: BlockSize, d: seq<Word>, d': seq<Word>, held: set<nat>, b: nat)
    requires |d| == |d'| == SLABP_SIZE && IsBlock(size, b) && b !in held
    requires forall x :: x in held ==> IsBlock(size, x)
    requires forall i :: 0 <= i < SLABP_SIZE && i != b ==> d'[i] == d[i]
    ensures Kept(size, d, d', held, Give(b))
  {
    forall x: nat, i: nat | x in held && x <= i < x + size && i < SLABP_SIZE
      ensures d'[i] == d[i]
    {
      BlocksDisjoint(size, x, b, i);
    }
  }

  lemma KeptByWrite(size: BlockSize, d: seq<Word>, held: set<nat>, b: nat, j: nat, v: Word)
    requires |d| == SLABP_SIZE && IsBlock(size, b) && b <= j < b + size && j < SLABP_SIZE
    requires forall x :: x in held ==> IsBlock(size, x)
    ensures Kept(size, d, d[j := v], held, Write(b, j, v))
  {
    forall x: nat, i: nat | x in held && x <= i < x + size && i < SLABP_SIZE
      ensures d[j := v][i] == WordStep(d[i], Write(b, j, v), x, i)
    {
      if x != b { BlocksDisjoint(size, x, b, i); }
    }
  }

  lemma OutAreBlocks(slab: SlabPage)
    requires slab.Valid()
    ensures slab.data.Length == SLABP_SIZE && forall x :: x in slab.out ==> IsBlock(slab.size, x)
  {}

  method Do(slab: SlabPage, op: Op<nat>) returns (block: nat)
    requires slab.Valid() && Allowed(Abstract(slab), op, 0) && InBlock(slab.size, op)
    modifies slab`firstFree, slab`freeList, slab`out, slab.data
    ensures slab.Valid() && Abstract(slab) == Step(old(Abstract(slab)), op, 0)
    ensures op.Take? ==> block == old(Abstract(slab)).stack[0]
    ensures slab.data.Length == SLABP_SIZE
    ensures Kept(slab.size, old(slab.data[..]), slab.data[..], old(slab.out) * slab.out, op)
  {
    OutAreBlocks(slab);
    hide Chained, Distinct, IsBlock, SlabPage.Valid;
    ghost var d, out := slab.data[..], slab.out;
    block := 0;
    match op {
      case Take =>
        block := slab.Alloc();
        assert slab.freeList == ([block] + slab.freeList)[1..];
      case Give(b) =>
        slab.Free(b);
        KeptByGive(slab.size, d, slab.data[..], out * slab.out, b);
      case Write(b, i, v) =>
        KeptByWrite(slab.size, d, out, b, i, v);
        slab.ClientWrite(b, i, v);
        assert out * slab.out == out;
    }
  }

  /** Any sequence of allowed operations grants the blocks that the plain stack grants, and
      the clients find in their blocks what they wrote. */
  method Run(slab: SlabPage, ops: seq<Op<nat>>) returns (blocks: seq<nat>)
    requires slab.Valid() && AllAllowed(Abstract(slab), ops, 0)
    requires forall k :: 0 <= k < |ops| ==> InBlock(slab.size, ops[k])
    modifies slab`firstFree, slab`freeList, slab`out, slab.data
    ensures slab.Valid() && blocks == Granted(old(Abstract(slab)), ops, 0)
    ensures Abstract(slab) == Steps(old(Abstract(slab)), ops, 0)
    ensures Remembered(slab.size, old(slab.data[..]), slab.data[..], old(Abstract(slab)), ops)
    decreases |ops|
  {
    assert slab.data.Length == SLABP_SIZE;
    hide SlabPage.Valid, Step, Abstract, Kept, Remembered, HeldThroughout;
    ghost var d, s := slab.data[..], Abstract(slab);
    if |ops| == 0 {
      NothingDone(slab.size, d, s);
      return [];
    }
    var block := Do(slab, ops[0]);
    ghost var d1 := slab.data[..];
    var rest := Run(slab, ops[1..]);
    RememberedStep(slab.size, d, d1, slab.data[..], s, ops);
    blocks := (if ops[0].Take? then [block] else []) + rest;
  }

  lemma NothingDone(size: BlockSize, d: seq<Word>, s: Plain<nat>)
    requires |d| == SLABP_SIZE
    ensures Remembered(size, d, d, s, [])
  {}

  lemma ValidIsApart(slab: SlabPage)
    requires slab.Valid()
    ensures Apart(Abstract(slab))
  {}
}
