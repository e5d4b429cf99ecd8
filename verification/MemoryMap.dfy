/** The memory map both stages work on: usable regions first, then a region of
    another type. */
module MemoryMap {
  import opened Bits

  const USABLE := 1

  datatype Region = Region(base: Word, length: Word, kind: nat)

  // Number of 4 KiB pages that a region of `length` bytes touches
  function PageCount(length: Word): nat { (length + 0xFFF) / 0x1000 }

  function End(r: Region): nat { r.base + 0x1000 * PageCount(r.length) }

  // The region starts on a page and ends, rounded up, below 4 GiB
  predicate OnPages(r: Region) { r.base % 4096 == 0 && End(r) < TWO_32 }

  /** The pages of one region, lowest first. */
  function RegionPages(r: Region): (s: seq<nat>)
    ensures |s| == PageCount(r.length)
    ensures forall i | 0 <= i < |s| :: s[i] == r.base + 0x1000 * i
  {
    seq(PageCount(r.length), i => r.base + 0x1000 * i)
  }

  /** The page lies inside the region. */
  predicate PageInside(r: Region, page: nat) { r.base <= page && page + 0x1000 <= r.base + r.length }

  /** A region whose length is no multiple of 4096 has a page that reaches past its end, and
      both stages take it for memory: every page of a region lies inside it exactly when the
      length is a multiple of 4096. */
  lemma PagesInside(r: Region)
    ensures (forall i :: 0 <= i < |RegionPages(r)| ==> PageInside(r, RegionPages(r)[i])) <==> r.length % 4096 == 0
  {
    var n := PageCount(r.length);
    if r.length % 4096 != 0 {
      assert n == r.length / 4096 + 1;
      assert RegionPages(r)[n - 1] == r.base + 0x1000 * (n - 1);
      assert !PageInside(r, RegionPages(r)[n - 1]);
    } else {
      assert 0x1000 * n == r.length;
    }
  }

  /** The pages of the leading usable regions. */
  function Pages(e820: seq<Region>): seq<nat> {
    if e820 == [] || e820[0].kind != USABLE then []
    else RegionPages(e820[0]) + Pages(e820[1..])
  }

  /** How many usable regions lead the map. */
  function Lead(e820: seq<Region>): (n: nat)
    ensures n <= |e820|
    ensures forall i :: 0 <= i < n ==> e820[i].kind == USABLE
    ensures n < |e820| ==> e820[n].kind != USABLE
  {
    if |e820| == 0 || e820[0].kind != USABLE then 0
    else
      var n := Lead(e820[1..]);
      assert forall i :: 0 < i < n + 1 ==> e820[i] == e820[1..][i - 1];
      n + 1
  }

  /** The leading usable regions that are not empty start on a page and end, rounded up,
      below 4 GiB.  Nothing is asked of the regions behind them, which nobody reads. */
  ghost predicate Enumerable(e820: seq<Region>) {
    forall i :: 0 <= i < Lead(e820) && e820[i].length > 0 ==> OnPages(e820[i])
  }

  lemma {:induction false} LeadIs(e820: seq<Region>, n: nat)
    requires n <= |e820| && forall i :: 0 <= i < n ==> e820[i].kind == USABLE
    requires n < |e820| ==> e820[n].kind != USABLE
    ensures Lead(e820) == n
  {
    if Lead(e820) != n { assert false; }
  }

  lemma EnumerableTail(e820: seq<Region>)
    requires |e820| > 0 && e820[0].kind == USABLE && Enumerable(e820)
    ensures Enumerable(e820[1..])
    ensures e820[0].length > 0 ==> OnPages(e820[0])
  {
    assert Lead(e820) == Lead(e820[1..]) + 1;
    assert forall i :: 0 <= i < |e820| - 1 ==> e820[1..][i] == e820[i + 1];
  }
}
