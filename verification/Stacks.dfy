/** The allocator that both the page allocator and the slab page stand for: a stack of free
    items and the set of items handed out. */
module Stacks {
  import opened Bits
  import opened Seqs

  datatype Op<T> = Take | Give(item: T) | Write(item: T, i: nat, v: Word)

  datatype Plain<T(==)> = Plain(stack: seq<T>, out: set<T>)

  /** What a client may do: take an item while more than `reserve` are left, give back or
      write into an item it holds. */
  predicate Allowed<T>(s: Plain<T>, op: Op<T>, reserve: nat) {
    match op
    case Take => |s.stack| > reserve
    case Give(x) => x in s.out
    case Write(x, _, _) => x in s.out
  }

  function Step<T>(s: Plain<T>, op: Op<T>, reserve: nat): Plain<T>
    requires Allowed(s, op, reserve)
  {
    match op
    case Take => Plain(s.stack[1..], s.out + {s.stack[0]})
    case Give(x) => Plain([x] + s.stack, s.out - {x})
    case Write(_, _, _) => s
  }

  ghost predicate AllAllowed<T>(s: Plain<T>, ops: seq<Op<T>>, reserve: nat)
    decreases |ops|
  {
    |ops| > 0 ==> Allowed(s, ops[0], reserve) && AllAllowed(Step(s, ops[0], reserve), ops[1..], reserve)
  }

  function Steps<T>(s: Plain<T>, ops: seq<Op<T>>, reserve: nat): Plain<T>
    requires AllAllowed(s, ops, reserve)
    decreases |ops|
  {
    if |ops| == 0 then s else Steps(Step(s, ops[0], reserve), ops[1..], reserve)
  }

  /** The items granted, in order. */
  function Granted<T>(s: Plain<T>, ops: seq<Op<T>>, reserve: nat): seq<T>
    requires AllAllowed(s, ops, reserve)
    decreases |ops|
  {
    if |ops| == 0 then []
    else (if ops[0].Take? then [s.stack[0]] else []) + Granted(Step(s, ops[0], reserve), ops[1..], reserve)
  }

  /** The client that holds x holds it before, during and after the run. */
  ghost predicate HeldThroughout<T>(s: Plain<T>, ops: seq<Op<T>>, reserve: nat, x: T)
    requires AllAllowed(s, ops, reserve)
    decreases |ops|
  {
    x in s.out && (|ops| > 0 ==> HeldThroughout(Step(s, ops[0], reserve), ops[1..], reserve, x))
  }

  /** Word i of item x after an operation: what the client wrote there, or what was there. */
  function WordStep<T(==)>(w: Word, op: Op<T>, x: T, i: nat): Word {
    if op.Write? && op.item == x && op.i == i then op.v else w
  }

  /** ... and after a run: the last thing the client wrote there, or what was there. */
  function WordAfter<T(==)>(w: Word, ops: seq<Op<T>>, x: T, i: nat): Word
    decreases |ops|
  {
    if |ops| == 0 then w else WordAfter(WordStep(w, ops[0], x, i), ops[1..], x, i)
  }

  function Takes<T>(n: nat): (ops: seq<Op<T>>)
    ensures |ops| == n
  {
    if n == 0 then [] else [Take] + Takes(n - 1)
  }

  /** Taking n items in a row grants the first n of the stack. */
  lemma {:induction false} TakesGrantTop<T>(s: Plain<T>, n: nat, reserve: nat)
    requires n + reserve <= |s.stack|
    ensures AllAllowed(s, Takes(n), reserve) && Granted(s, Takes(n), reserve) == s.stack[..n]
    decreases n
  {
    if n > 0 {
      var t := Step(s, Take, reserve);
      assert Takes<T>(n)[1..] == Takes(n - 1);
      TakesGrantTop(t, n - 1, reserve);
      assert s.stack[..n] == [s.stack[0]] + t.stack[..n - 1];
    }
  }

  /** No item is on the stack twice, and none that is handed out is on it. */
  ghost predicate Apart<T>(s: Plain<T>) {
    Distinct(s.stack) && forall w :: w in s.out ==> w !in s.stack
  }

  ghost predicate SameItems<T(!new)>(s: Plain<T>, t: Plain<T>) {
    && (forall w :: w in t.stack || w in t.out <==> w in s.stack || w in s.out)
    && |t.stack| + |t.out| == |s.stack| + |s.out|
  }

  /** Over any run no item is granted that somebody holds, and the items stay the same. */
  lemma {:induction false} RunKeepsApart<T(!new)>(s: Plain<T>, ops: seq<Op<T>>, reserve: nat)
    requires Apart(s) && AllAllowed(s, ops, reserve)
    ensures Apart(Steps(s, ops, reserve)) && SameItems(s, Steps(s, ops, reserve))
    ensures |ops| > 0 && ops[0].Take? ==> s.stack[0] !in s.out
    decreases |ops|
  {
    if |ops| > 0 {
      StepKeepsApart(s, ops[0], reserve);
      hide Apart, Step;
      RunKeepsApart(Step(s, ops[0], reserve), ops[1..], reserve);
    }
  }

  lemma StepKeepsApart<T(!new)>(s: Plain<T>, op: Op<T>, reserve: nat)
    requires Apart(s) && Allowed(s, op, reserve)
    ensures Apart(Step(s, op, reserve)) && SameItems(s, Step(s, op, reserve))
    ensures op.Take? ==> s.stack[0] !in s.out
  {
    match op {
      case Take =>
        assert s.stack[0] in s.stack;
        assert s.stack == [s.stack[0]] + s.stack[1..];
      case Give(x) =>
        assert forall w :: w in [x] + s.stack <==> w == x || w in s.stack;
        assert s.out == s.out - {x} + {x};
      case Write(_, _, _) =>
    }
  }
}
