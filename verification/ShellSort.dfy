/** Shell sort by gapped insertion (stage3/include/crt/sort.h), for any strict weak order. */
module ShellSort {
  import opened Bits

  type Gap = k: int | 0 < k witness 1

  /** operator< of the element type. */
  ghost predicate StrictWeak<T(!new)>(lt: (T, T) -> bool) {
    && (forall x :: !lt(x, x))
    && (forall x, y, z :: lt(x, y) && lt(y, z) ==> lt(x, z))
    && (forall x, y, z :: lt(x, z) ==> lt(x, y) || lt(y, z))
  }

  /** No element is smaller than the one k positions before it. */
  ghost predicate Ordered<T>(s: seq<T>, lt: (T, T) -> bool, k: Gap) {
    forall i, j :: 0 <= i && j == i + k && j < |s| ==> !lt(s[j], s[i])
  }

  function Swap<T>(s: seq<T>, i: nat, j: nat): (r: seq<T>)
    requires i < |s| && j < |s|
    ensures |r| == |s|
  {
    s[i := s[j]][j := s[i]]
  }

  // ---------- what one insertion does ----------

  /** The element at position j moves down by steps of k until it is not smaller than
      the one before it. */
  function Sift<T>(s: seq<T>, lt: (T, T) -> bool, k: Gap, j: nat): (r: seq<T>)
    requires j < |s|
    ensures |r| == |s|
    decreases j
  {
    if j >= k && lt(s[j], s[j - k]) then Sift(Swap(s, j - k, j), lt, k, j - k) else s
  }

  /** Positions i, i+1, ... inserted in turn. */
  function Pass<T>(s: seq<T>, lt: (T, T) -> bool, k: Gap, i: nat): (r: seq<T>)
    requires i <= |s|
    ensures |r| == |s|
    decreases |s| - i
  {
    if i == |s| then s else Pass(Sift(s, lt, k, i), lt, k, i + 1)
  }

  /** The result of gap_sort with gap k. */
  function GapSorted<T>(s: seq<T>, lt: (T, T) -> bool, k: Gap): (r: seq<T>)
    ensures |r| == |s|
  {
    Pass(s, lt, k, 0)
  }

  /** The result of a series of passes. */
  function Passes<T>(s: seq<T>, lt: (T, T) -> bool, gaps: seq<Gap>): (r: seq<T>)
    ensures |r| == |s|
    decreases |gaps|
  {
    if gaps == [] then s else Passes(GapSorted(s, lt, gaps[0]), lt, gaps[1..])
  }

  // ---------- one pass orders each class of positions ----------

  // The prefix of n elements is ordered with gap k
  ghost predicate OrderedTo<T>(s: seq<T>, lt: (T, T) -> bool, k: Gap, n: nat) {
    forall i, j :: 0 <= i && j == i + k && j < n && j < |s| ==> !lt(s[j], s[i])
  }

  // ... except that the element at position j may be too small for its place
  ghost predicate OrderedBut<T>(s: seq<T>, lt: (T, T) -> bool, k: Gap, n: nat, j: nat) {
    && (forall a, b :: 0 <= a && b == a + k && b < n && b < |s| && b != j ==> !lt(s[b], s[a]))
    && (forall a, b :: 0 <= a && b == a + 2 * k && b < n && b < |s| && a + k == j ==> !lt(s[b], s[a]))
  }

  // A swap moves the element that may be too small down by k
  lemma SwapOrders<T(!new)>(s: seq<T>, lt: (T, T) -> bool, k: Gap, n: nat, j: nat)
    requires StrictWeak(lt) && k <= j < n <= |s| && OrderedBut(s, lt, k, n, j) && lt(s[j], s[j - k])
    ensures OrderedBut(Swap(s, j - k, j), lt, k, n, j - k)
  {}

  lemma {:induction false} SiftOrders<T(!new)>(s: seq<T>, lt: (T, T) -> bool, k: Gap, n: nat, j: nat)
    requires StrictWeak(lt) && j < n <= |s| && OrderedBut(s, lt, k, n, j)
    ensures OrderedTo(Sift(s, lt, k, j), lt, k, n)
    decreases j
  {
    if j >= k && lt(s[j], s[j - k]) {
      var t := Swap(s, j - k, j);
      SwapOrders(s, lt, k, n, j);
      hide StrictWeak, OrderedBut, Swap;
      SiftOrders(t, lt, k, n, j - k);
    }
  }

  lemma {:induction false} PassOrders<T(!new)>(s: seq<T>, lt: (T, T) -> bool, k: Gap, i: nat)
    requires StrictWeak(lt) && i <= |s| && OrderedTo(s, lt, k, i)
    ensures Ordered(Pass(s, lt, k, i), lt, k)
    decreases |s| - i
  {
    if i < |s| {
      SiftOrders(s, lt, k, i + 1, i);
      PassOrders(Sift(s, lt, k, i), lt, k, i + 1);
    }
  }

  /** Nothing moves when the sequence is already ordered. */
  lemma {:induction false} PassOnOrdered<T(!new)>(s: seq<T>, lt: (T, T) -> bool, k: Gap, i: nat)
    requires i <= |s| && Ordered(s, lt, k)
    ensures Pass(s, lt, k, i) == s
    decreases |s| - i
  {
    if i < |s| {
      assert Sift(s, lt, k, i) == s;
      PassOnOrdered(s, lt, k, i + 1);
    }
  }

  // ---------- permutation ----------

  lemma SwapPermutes<T>(s: seq<T>, i: nat, j: nat)
    requires i < j < |s|
    ensures multiset(Swap(s, i, j)) == multiset(s)
  {
    var a, b, c := s[..i], s[i + 1..j], s[j + 1..];
    assert s == a + [s[i]] + b + [s[j]] + c;
    assert Swap(s, i, j) == a + [s[j]] + b + [s[i]] + c;
  }

  lemma {:induction false} SiftPermutes<T>(s: seq<T>, lt: (T, T) -> bool, k: Gap, j: nat)
    requires j < |s|
    ensures multiset(Sift(s, lt, k, j)) == multiset(s)
    decreases j
  {
    if j >= k && lt(s[j], s[j - k]) {
      SwapPermutes(s, j - k, j);
      SiftPermutes(Swap(s, j - k, j), lt, k, j - k);
    }
  }

  lemma {:induction false} PassPermutes<T>(s: seq<T>, lt: (T, T) -> bool, k: Gap, i: nat)
    requires i <= |s|
    ensures multiset(Pass(s, lt, k, i)) == multiset(s)
    decreases |s| - i
  {
    if i < |s| {
      SiftPermutes(s, lt, k, i);
      PassPermutes(Sift(s, lt, k, i), lt, k, i + 1);
    }
  }

  // ---------- a later pass keeps what an earlier pass ordered ----------

  // How many of the positions below n are congruent to r modulo k
  function Count(k: Gap, r: nat, n: nat): nat {
    if n == 0 then 0 else Count(k, r, n - 1) + if (n - 1) % k == r then 1 else 0
  }

  // ... and hold an element smaller than v
  function Below<T>(s: seq<T>, lt: (T, T) -> bool, v: T, k: Gap, r: nat, n: nat): nat
    requires n <= |s|
  {
    if n == 0 then 0
    else Below(s, lt, v, k, r, n - 1) + if (n - 1) % k == r && lt(s[n - 1], v) then 1 else 0
  }

  lemma ModAdd(p: int, h: int, k: Gap)
    ensures (p + h) % k == (p % k + h) % k
  {
    var x := p % k + h;
    DivModUnique(p + h, k, p / k + x / k, x % k);
  }

  lemma ModShifted(p: int, i: int, h: int, k: Gap)
    requires p % k == i % k
    ensures (p + h) % k == (i + h) % k
  {
    ModAdd(p, h, k);
    ModAdd(i, h, k);
  }

  lemma ModShift(p: int, i: int, h: int, k: Gap)
    ensures p % k == i % k <==> (p + h) % k == (i + h) % k
  {
    if p % k == i % k {
      ModShifted(p, i, h, k);
    } else if (p + h) % k == (i + h) % k {
      ModShifted(p + h, i + h, -h, k);
    }
  }

  // Moving an element k places stays in its class, so no class changes its contents
  lemma {:induction false} BelowSwap<T>(s: seq<T>, lt: (T, T) -> bool, v: T, k: Gap, r: nat, j: nat, n: nat)
    requires k <= j < |s| && n <= |s|
    ensures var t, here := Swap(s, j - k, j), j % k == r;
            Below(t, lt, v, k, r, n) == Below(s, lt, v, k, r, n)
              + (if j - k < n <= j && here && lt(s[j], v) then 1 else 0)
              - (if j - k < n <= j && here && lt(s[j - k], v) then 1 else 0)
  {
    if n > 0 {
      BelowSwap(s, lt, v, k, r, j, n - 1);
      SameClass(j, k);
    }
  }

  lemma SameClass(j: int, k: Gap)
    ensures (j - k) % k == j % k
  {
    DivModUnique(j - k, k, j / k - 1, j % k);
  }

  lemma {:induction false} BelowSift<T>(s: seq<T>, lt: (T, T) -> bool, v: T, k: Gap, r: nat, j: nat)
    requires j < |s|
    ensures Below(Sift(s, lt, k, j), lt, v, k, r, |s|) == Below(s, lt, v, k, r, |s|)
    decreases j
  {
    if j >= k && lt(s[j], s[j - k]) {
      BelowSwap(s, lt, v, k, r, j, |s|);
      BelowSift(Swap(s, j - k, j), lt, v, k, r, j - k);
    }
  }

  lemma {:induction false} BelowPass<T>(s: seq<T>, lt: (T, T) -> bool, v: T, k: Gap, r: nat, i: nat)
    requires i <= |s|
    ensures Below(Pass(s, lt, k, i), lt, v, k, r, |s|) == Below(s, lt, v, k, r, |s|)
    decreases |s| - i
  {
    if i < |s| {
      BelowSift(s, lt, v, k, r, i);
      BelowPass(Sift(s, lt, k, i), lt, v, k, r, i + 1);
    }
  }

  lemma {:induction false} BelowMonotone<T>(s: seq<T>, lt: (T, T) -> bool, v: T, k: Gap, r: nat, m: nat, n: nat)
    requires m <= n <= |s|
    ensures Below(s, lt, v, k, r, m) <= Below(s, lt, v, k, r, n)
  {
    if m < n { BelowMonotone(s, lt, v, k, r, m, n - 1); }
  }

  // Within a class of an ordered sequence the order is that of the positions
  lemma {:induction false} ClassOrdered<T(!new)>(t: seq<T>, lt: (T, T) -> bool, k: Gap, p: nat, q: nat)
    requires StrictWeak(lt) && Ordered(t, lt, k) && p <= q < |t| && p % k == q % k
    ensures !lt(t[q], t[p])
    decreases q
  {
    if p < q {
      SameClass(q, k);
      NextInClass(p, q, k);
      ClassOrdered(t, lt, k, p, q - k);
      assert !lt(t[q], t[q - k]);
    }
  }

  lemma NextInClass(p: nat, q: nat, k: Gap)
    requires p < q && p % k == q % k
    ensures p <= q - k
  {
    assert q - p == k * (q / k - p / k);
    var d := q / k - p / k;
    assert d <= 0 ==> k * d <= 0;
    assert d >= 1 ==> k * d >= k;
  }

  // Everything in j's class up to j is below v when t[j] is
  lemma {:induction false} BelowAtLeast<T(!new)>(t: seq<T>, lt: (T, T) -> bool, v: T, k: Gap, j: nat, n: nat)
    requires StrictWeak(lt) && Ordered(t, lt, k) && j < |t| && lt(t[j], v) && n <= j + 1
    ensures Below(t, lt, v, k, j % k, n) == Count(k, j % k, n)
  {
    if n > 0 {
      BelowAtLeast(t, lt, v, k, j, n - 1);
      if (n - 1) % k == j % k { ClassOrdered(t, lt, k, n - 1, j); }
    }
  }

  // Nothing in i's class from i on is below t[i]
  lemma {:induction false} BelowAtMost<T(!new)>(t: seq<T>, lt: (T, T) -> bool, k: Gap, i: nat, n: nat)
    requires StrictWeak(lt) && Ordered(t, lt, k) && i < |t| && n <= |t|
    ensures Below(t, lt, t[i], k, i % k, n) <= Count(k, i % k, i)
    ensures n <= i ==> Below(t, lt, t[i], k, i % k, n) <= Count(k, i % k, n)
  {
    if n > 0 {
      BelowAtMost(t, lt, k, i, n - 1);
      if n <= i { CountMonotone(k, i % k, n, i); }
      if n - 1 >= i && (n - 1) % k == i % k { ClassOrdered(t, lt, k, i, n - 1); }
    }
  }

  lemma {:induction false} CountMonotone(k: Gap, r: nat, m: nat, n: nat)
    requires m <= n
    ensures Count(k, r, m) <= Count(k, r, n)
  {
    if m < n { CountMonotone(k, r, m, n - 1); }
  }

  // In an h-ordered sequence, what is below v in the class of i+h has a partner below v in
  // the class of i, h positions earlier, except for the positions below h
  lemma {:induction false} BelowPartners<T(!new)>(s: seq<T>, lt: (T, T) -> bool, v: T, k: Gap, h: Gap, i: nat, n: nat)
    requires StrictWeak(lt) && Ordered(s, lt, h) && n <= |s|
    ensures Below(s, lt, v, k, (i + h) % k, n) <=
      Count(k, (i + h) % k, if n < h then n else h) + if n < h then 0 else Below(s, lt, v, k, i % k, n - h)
  {
    if n > 0 {
      BelowPartners(s, lt, v, k, h, i, n - 1);
      if n > h {
        ModShift(n - 1 - h, i, h, k);
        assert !lt(s[n - 1], s[n - 1 - h]);
      }
    }
  }

  lemma {:induction false} CountShift(k: Gap, h: nat, i: nat, n: nat)
    ensures Count(k, (i + h) % k, n + h) == Count(k, (i + h) % k, h) + Count(k, i % k, n)
  {
    if n > 0 {
      CountShift(k, h, i, n - 1);
      ModShift(n - 1, i, h, k);
    }
  }

  /** Sorting with gap k a sequence that is ordered with gap h leaves it ordered with
      gap h.  (Theorem K of Knuth, The Art of Computer Programming 3, section 5.2.1.) */
  lemma KeepsEarlierGap<T(!new)>(s: seq<T>, lt: (T, T) -> bool, h: Gap, k: Gap)
    requires StrictWeak(lt) && Ordered(s, lt, h)
    ensures Ordered(GapSorted(s, lt, k), lt, h)
  {
    var t := GapSorted(s, lt, k);
    PassOrders(s, lt, k, 0);
    forall i, j | 0 <= i && j == i + h && j < |t|
      ensures !lt(t[j], t[i])
    {
      if lt(t[j], t[i]) { NoInversion(s, t, lt, h, k, i); }
    }
  }

  // Were t[i + h] below t[i], its class would hold more elements below t[i] than i's class
  // can give it
  lemma NoInversion<T(!new)>(s: seq<T>, t: seq<T>, lt: (T, T) -> bool, h: Gap, k: Gap, i: nat)
    requires StrictWeak(lt) && Ordered(s, lt, h) && t == GapSorted(s, lt, k) && Ordered(t, lt, k)
    requires i + h < |s| == |t| && lt(t[i + h], t[i])
    ensures false
  {
    var v, n, j := t[i], |s|, i + h;
    hide StrictWeak, Ordered, Below, Count, Pass;
    CountStep(k, i);
    CountShift(k, h, i, i + 1);
    BelowAtLeast(t, lt, v, k, j, j + 1);
    BelowMonotone(t, lt, v, k, j % k, j + 1, n);
    BelowPass(s, lt, v, k, j % k, 0);
    BelowPartners(s, lt, v, k, h, i, n);
    BelowMonotone(s, lt, v, k, i % k, n - h, n);
    BelowPass(s, lt, v, k, i % k, 0);
    BelowAtMost(t, lt, k, i, n);
  }

  lemma CountStep(k: Gap, i: nat)
    ensures Count(k, i % k, i + 1) == Count(k, i % k, i) + 1
  {}

  lemma {:induction false} PassesKeepGap<T(!new)>(s: seq<T>, lt: (T, T) -> bool, h: Gap, gaps: seq<Gap>)
    requires StrictWeak(lt) && Ordered(s, lt, h)
    ensures Ordered(Passes(s, lt, gaps), lt, h)
    decreases |gaps|
  {
    if gaps != [] {
      KeepsEarlierGap(s, lt, h, gaps[0]);
      PassesKeepGap(GapSorted(s, lt, gaps[0]), lt, h, gaps[1..]);
    }
  }

  /** After any series of passes the sequence is ordered for every gap used so far, and
      holds the same elements. */
  lemma {:induction false} OrderedForEveryGap<T(!new)>(s: seq<T>, lt: (T, T) -> bool, gaps: seq<Gap>)
    requires StrictWeak(lt)
    ensures forall g: Gap :: g in gaps ==> Ordered(Passes(s, lt, gaps), lt, g)
    ensures multiset(Passes(s, lt, gaps)) == multiset(s)
    decreases |gaps|
  {
    if gaps != [] {
      var t := GapSorted(s, lt, gaps[0]);
      PassOrders(s, lt, gaps[0], 0);
      PassPermutes(s, lt, gaps[0], 0);
      PassesKeepGap(t, lt, gaps[0], gaps[1..]);
      OrderedForEveryGap(t, lt, gaps[1..]);
    }
  }

  /** gap_sort repeats its pass from every offset below the gap; the first one already
      visits every position, so the others change nothing. */
  lemma LaterOffsetsIdle<T(!new)>(s: seq<T>, lt: (T, T) -> bool, k: Gap, offset: nat)
    requires StrictWeak(lt) && offset <= |s|
    ensures Pass(GapSorted(s, lt, k), lt, k, offset) == GapSorted(s, lt, k)
  {
    PassOrders(s, lt, k, 0);
    PassOnOrdered(GapSorted(s, lt, k), lt, k, offset);
  }

  ghost predicate Sorted<T>(s: seq<T>, lt: (T, T) -> bool) {
    forall i, j :: 0 <= i < j < |s| ==> !lt(s[j], s[i])
  }

  lemma GapOneSorts<T(!new)>(s: seq<T>, lt: (T, T) -> bool)
    requires StrictWeak(lt) && Ordered(s, lt, 1)
    ensures Sorted(s, lt)
  {
    forall i, j | 0 <= i < j < |s|
      ensures !lt(s[j], s[i])
    {
      ClassOrdered(s, lt, 1, i, j);
    }
  }

  // ---------- the code ----------

  // One round of the middle loop of gap_sort
  method Insert<T>(a: array<T>, lt: (T, T) -> bool, gap: Gap, i: nat)
    requires i < a.Length
    modifies a
    ensures a[..] == Sift(old(a[..]), lt, gap, i)
  {
    var tmp := a[i];
    var j := i;
    assert a[..][i := tmp] == a[..];
    while j >= gap && lt(tmp, a[j - gap])
      invariant 0 <= j <= i
      invariant Sift(a[..][j := tmp], lt, gap, j) == Sift(old(a[..]), lt, gap, i)
    {
      ghost var b := a[..][j := tmp];
      a[j] := a[j - gap];
      assert a[..][j - gap := tmp] == Swap(b, j - gap, j);
      j := j - gap;
    }
    ghost var b := a[..][j := tmp];
    a[j] := tmp;
    assert a[..] == b;
  }

  method GapSort<T(!new)>(a: array<T>, lt: (T, T) -> bool, gap: Gap)
    requires StrictWeak(lt)
    modifies a
    ensures a[..] == GapSorted(old(a[..]), lt, gap)
  {
    ghost var s := a[..];
    var offset := 0;
    while offset < gap
      invariant 0 <= offset <= gap
      invariant a[..] == if offset == 0 then s else GapSorted(s, lt, gap)
    {
      ghost var t := a[..];
      var i := offset;
      while i < a.Length
        invariant offset <= i && (i <= a.Length || a.Length < offset)
        invariant if a.Length < offset then a[..] == t else Pass(a[..], lt, gap, i) == Pass(t, lt, gap, offset)
      {
        Insert(a, lt, gap, i);
        i := i + 1;
      }
      if 0 < offset <= a.Length { LaterOffsetsIdle(s, lt, gap, offset); }
      offset := offset + 1;
    }
  }

  // Ciura's gap sequence as the source extends it
  const GAPS: seq<Gap> := [3444003501, 1530668223, 680296988, 302354217, 134379652, 59724290, 26544129,
    11797391, 5243285, 2330349, 1035711, 460316, 204585, 90927, 40412, 17961, 7983, 3548, 1577, 701, 301,
    132, 57, 23, 10, 4, 1]

  /** Sorts a nonempty array; the gaps used are those of the table that do not exceed the
      size, largest first. */
  method Sort<T(!new)>(a: array<T>, lt: (T, T) -> bool)
    requires StrictWeak(lt) && 1 <= a.Length < TWO_32
    modifies a
    ensures Sorted(a[..], lt) && multiset(a[..]) == multiset(old(a[..]))
    ensures exists k :: 0 <= k < |GAPS| && UsableFrom(k, a.Length) && a[..] == Passes(old(a[..]), lt, GAPS[k..])
  {
    ghost var s := a[..];
    var idx := 0;
    while GAPS[idx] > a.Length
      invariant 0 <= idx < |GAPS|
      invariant forall i :: 0 <= i < idx ==> GAPS[i] > a.Length
      decreases |GAPS| - idx
    {
      idx := idx + 1;
    }
    OneIsLast();
    hide Passes, Sorted, StrictWeak;
    RunPasses(a, lt, GAPS, idx);
  }

  /** The search for the first gap ends inside the table exactly when there is an element;
      for an empty range it would read on past the table. */
  lemma GapExists(size: nat)
    ensures (exists k :: 0 <= k < |GAPS| && GAPS[k] <= size) <==> size >= 1
  {
    assert GAPS[|GAPS| - 1] == 1;
  }

  // The passes from gap idx on, down to the gap 1 that ends the table
  method RunPasses<T(!new)>(a: array<T>, lt: (T, T) -> bool, gaps: seq<Gap>, idx0: nat)
    requires StrictWeak(lt) && idx0 < |gaps| && EndsWithOne(gaps)
    modifies a
    ensures a[..] == Passes(old(a[..]), lt, gaps[idx0..])
    ensures Sorted(a[..], lt) && multiset(a[..]) == multiset(old(a[..]))
  {
    ghost var s := a[..];
    var idx := idx0;
    while gaps[idx] != 1
      invariant idx0 <= idx < |gaps|
      invariant Passes(a[..], lt, gaps[idx..]) == Passes(s, lt, gaps[idx0..])
      decreases |gaps| - idx
    {
      assert gaps[idx..][1..] == gaps[idx + 1..];
      GapSort(a, lt, gaps[idx]);
      idx := idx + 1;
    }
    assert gaps[idx..] == [1];
    GapSort(a, lt, 1);
    hide StrictWeak, Sorted, Ordered;
    OrderedForEveryGap(s, lt, gaps[idx0..]);
    assert gaps[idx0..][|gaps| - 1 - idx0] == 1;
    GapOneSorts(a[..], lt);
  }

  predicate EndsWithOne(gaps: seq<Gap>) {
    && |gaps| > 0 && gaps[|gaps| - 1] == 1
    && forall i :: 0 <= i < |gaps| - 1 ==> gaps[i] != 1
  }

  lemma OneIsLast()
    ensures EndsWithOne(GAPS)
  {}

  // The first gap of the table that is used for `size` elements has index k
  predicate UsableFrom(k: nat, size: nat) {
    k < |GAPS| && GAPS[k] <= size && forall i :: 0 <= i < k ==> GAPS[i] > size
  }
}
