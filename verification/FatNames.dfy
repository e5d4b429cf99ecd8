/** Path names: how pf_open cuts a path into directory names
    (stage2/pff3a/source/pff.c). */
module FatNames {
  import opened Bits

  const SPACE: Byte := 0x20
  const SLASH: Byte := 0x2F
  const DOT: Byte := 0x2E

  type Name = s: seq<Byte> | |s| == 11 witness seq<Byte>(11, _ => 0x20)

  /** A path as the C code sees it: bytes up to the first zero. */
  predicate CString(s: seq<Byte>) {
    && |s| > 0 && s[|s| - 1] == 0
    && forall k :: 0 <= k < |s| - 1 ==> s[k] != 0
  }

  lemma Suffix(s: seq<Byte>, p: nat)
    requires CString(s) && p < |s|
    ensures CString(s[p..])
  {}

  // A character of a name, not a separator
  predicate Plain(c: Byte) { c > SPACE && c != SLASH && c != DOT }

  /** How many characters of a name come first, up to a limit. */
  function Run(s: seq<Byte>, limit: nat): (n: nat)
    ensures n <= limit && n <= |s|
    ensures forall k :: 0 <= k < n ==> Plain(s[k])
    ensures n < limit && n < |s| ==> !Plain(s[n])
    decreases limit
  {
    if limit == 0 || |s| == 0 || !Plain(s[0]) then 0
    else
      var n := Run(s[1..], limit - 1);
      assert forall k :: 0 < k < n + 1 ==> s[k] == s[1..][k - 1];
      n + 1
  }

  function Pad(s: seq<Byte>, n: nat): (r: seq<Byte>)
    requires |s| <= n
    ensures |r| == n
  {
    s + seq<Byte>(n - |s|, _ => SPACE)
  }

  datatype Segment = Segment(name: Name, used: nat, last: bool)

  /** The first segment of a path: a body of at most 8 characters and, after a dot, an
      extension of at most 3.  The character that ends the segment is used up, whatever it
      is; the segment is the last one when that character is a blank or the terminator. */
  function FirstSegment(s: seq<Byte>): (g: Segment)
    requires CString(s)
    ensures 0 < g.used <= |s| && (!g.last ==> g.used < |s|)
  {
    var n := Run(s, 8);
    assert n < |s|;
    if s[n] == DOT then
      var m := Run(s[n + 1..], 3);
      Segment(Pad(s[..n], 8) + Pad(s[n + 1..n + 1 + m], 3), n + m + 2, s[n + 1 + m] <= SPACE)
    else
      Segment(Pad(s[..n], 8) + Pad([], 3), n + 1, s[n] <= SPACE)
  }

  /** All the names of a path. */
  function Names(s: seq<Byte>): (ns: seq<Name>)
    requires CString(s)
    ensures |ns| > 0
    decreases |s|
  {
    var g := FirstSegment(s);
    if g.last then [g.name]
    else
      Suffix(s, g.used);
      [g.name] + Names(s[g.used..])
  }

  // ---------- paths of 8.3 names, and other paths ----------

  predicate AllPlain(s: seq<Byte>) { forall k :: 0 <= k < |s| ==> Plain(s[k]) }

  /** The text of one component: no blank, no terminator and no slash in it. */
  predicate IsComponent(b: seq<Byte>) { forall k :: 0 <= k < |b| ==> b[k] > 0x20 && b[k] != 0x2F }

  /** Where the first dot is, or the end. */
  function Stem(b: seq<Byte>): (n: nat)
    ensures n <= |b| && (n < |b| ==> b[n] == 0x2E)
    ensures forall k :: 0 <= k < n ==> b[k] != 0x2E
  {
    if |b| == 0 || b[0] == 0x2E then 0
    else
      var n := Stem(b[1..]);
      assert forall k :: 0 < k < n + 1 ==> b[k] == b[1..][k - 1];
      n + 1
  }

  // What follows the first dot
  function Extension(b: seq<Byte>): seq<Byte> { if Stem(b) == |b| then [] else b[Stem(b) + 1..] }

  /** At most 8 characters before the first dot, and after it at most 3 and no other dot. */
  predicate Fits(b: seq<Byte>) { Stem(b) <= 8 && |Extension(b)| <= 3 && 0x2E !in Extension(b) }

  function Padded(b: seq<Byte>): Name
    requires Fits(b)
  {
    Pad(b[..Stem(b)], 8) + Pad(Extension(b), 3)
  }

  predicate AllComponents(cs: seq<seq<Byte>>) { forall i :: 0 <= i < |cs| ==> IsComponent(cs[i]) }

  predicate AllFit(cs: seq<seq<Byte>>) { forall i :: 0 <= i < |cs| ==> Fits(cs[i]) }

  function AllPadded(cs: seq<seq<Byte>>): (ns: seq<Name>)
    requires AllFit(cs)
    ensures |ns| == |cs|
  {
    if |cs| == 0 then [] else [Padded(cs[0])] + AllPadded(cs[1..])
  }

  // The components of a path after the first, and the terminator
  function Ending(cs: seq<seq<Byte>>): (s: seq<Byte>)
    ensures |s| > 0 && (s[0] == if |cs| == 0 then 0 else 0x2F)
  {
    if |cs| == 0 then [0] else [0x2F] + (cs[0] + Ending(cs[1..]))
  }

  /** The components separated by slashes. */
  function PathText(cs: seq<seq<Byte>>): seq<Byte>
    requires |cs| > 0
  {
    cs[0] + Ending(cs[1..])
  }

  lemma {:induction false} EndingIsCString(t: seq<Byte>, cs: seq<seq<Byte>>)
    requires IsComponent(t) && AllComponents(cs)
    ensures CString(t + Ending(cs))
    decreases |cs|
  {
    if |cs| > 0 { EndingIsCString(cs[0], cs[1..]); }
  }

  // A run ends at the limit or at the first other character
  lemma RunIs(s: seq<Byte>, n: nat, limit: nat)
    requires n <= limit && n < |s| && (n < limit ==> !Plain(s[n]))
    requires forall k :: 0 <= k < n ==> Plain(s[k])
    ensures Run(s, limit) == n
  {
    var r := Run(s, limit);
    if r != n { assert false; }
  }

  lemma Cut(s: seq<Byte>, a: seq<Byte>, b: seq<Byte>)
    requires s == a + b
    ensures s[..|a|] == a && s[|a|..] == b
    ensures forall k :: 0 <= k < |a| ==> s[k] == a[k]
    ensures |b| > 0 ==> s[|a|] == b[0]
  {}

  lemma BodySegment(s: seq<Byte>, body: seq<Byte>, rest: seq<Byte>)
    requires AllPlain(body) && |body| <= 8 && |rest| > 0 && !Plain(rest[0]) && rest[0] != DOT
    requires CString(s) && s == body + rest
    ensures FirstSegment(s) == Segment(Pad(body, 8) + Pad([], 3), |body| + 1, rest[0] <= SPACE)
  {
    Cut(s, body, rest);
    RunIs(s, |body|, 8);
    hide Run, CString, Pad, Plain;
  }

  lemma DottedSegment(s: seq<Byte>, body: seq<Byte>, ext: seq<Byte>, rest: seq<Byte>)
    requires AllPlain(body) && |body| <= 8 && AllPlain(ext) && |ext| <= 3
    requires |rest| > 0 && !Plain(rest[0]) && rest[0] != DOT
    requires CString(s) && s == body + ([DOT] + (ext + rest))
    ensures FirstSegment(s) == Segment(Pad(body, 8) + Pad(ext, 3), |body| + 1 + |ext| + 1, rest[0] <= SPACE)
  {
    var n, m, t := |body|, |ext|, ext + rest;
    Cut(s, body, [DOT] + t);
    RunIs(s, n, 8);
    assert s[n + 1..] == t by { Cut([DOT] + t, [DOT], t); }
    Cut(t, ext, rest);
    RunIs(t, m, 3);
    SliceAfter(s, n + 1, t, m);
    hide Run, CString, Pad, Plain, AllPlain;
    Unfold(s, body, ext);
  }

  lemma SliceAfter(s: seq<Byte>, i: nat, t: seq<Byte>, m: nat)
    requires i <= |s| && s[i..] == t && m < |t|
    ensures s[i..i + m] == t[..m] && s[i + m] == t[m]
  {
    assert forall k :: 0 <= k < |t| ==> s[i + k] == t[k];
  }

  lemma Unfold(s: seq<Byte>, body: seq<Byte>, ext: seq<Byte>)
    requires CString(s) && |body| + 1 + |ext| < |s| && |body| <= 8 && |ext| <= 3
    requires Run(s, 8) == |body| && s[..|body|] == body && s[|body|] == DOT
    requires Run(s[|body| + 1..], 3) == |ext| && s[|body| + 1..|body| + 1 + |ext|] == ext
    ensures FirstSegment(s) ==
      Segment(Pad(body, 8) + Pad(ext, 3), |body| + 1 + |ext| + 1, s[|body| + 1 + |ext|] <= SPACE)
  {
    hide Run, CString, Pad, Plain, AllPlain;
  }

  lemma PieceIsComponent(t: seq<Byte>, i: nat)
    requires IsComponent(t) && i <= |t|
    ensures IsComponent(t[i..])
  {}

  lemma StemIsPlain(b: seq<Byte>, n: nat)
    requires IsComponent(b) && n <= |b| && forall k :: 0 <= k < n ==> b[k] != DOT
    ensures AllPlain(b[..n])
  {}

  lemma SplitAt(b: seq<Byte>, n: nat)
    requires n < |b|
    ensures b == b[..n] + ([b[n]] + b[n + 1..])
  {}

  lemma Dotted(b: seq<Byte>)
    requires IsComponent(b) && Stem(b) < |b|
    ensures b == b[..Stem(b)] + ([DOT] + Extension(b))
    ensures AllPlain(b[..Stem(b)]) && IsComponent(Extension(b))
  {
    var n := Stem(b);
    assert b[n] == DOT && Extension(b) == b[n + 1..];
    StemIsPlain(b, n);
    PieceIsComponent(b, n + 1);
    hide Stem, Extension, AllPlain, IsComponent;
    SplitAt(b, n);
  }

  lemma Regroup(stem: seq<Byte>, ext: seq<Byte>, rest: seq<Byte>)
    ensures (stem + ([DOT] + ext)) + rest == stem + ([DOT] + (ext + rest))
  {}

  // A component followed by a separator: what create_name makes of it
  lemma FittingSegment(b: seq<Byte>, s: seq<Byte>, rest: seq<Byte>)
    requires IsComponent(b) && Fits(b) && CString(s) && s == b + rest
    requires |rest| > 0 && (rest[0] <= SPACE || rest[0] == SLASH)
    ensures FirstSegment(s) == Segment(Padded(b), |b| + 1, rest[0] <= SPACE)
  {
    var n, ext := Stem(b), Extension(b);
    if n == |b| {
      assert b[..n] == b;
      assert AllPlain(b);
      hide Run, CString, Pad, FirstSegment, AllPlain, Plain;
      BodySegment(s, b, rest);
    } else {
      Dotted(b);
      ExtensionIsPlain(ext);
      Regroup(b[..n], ext, rest);
      hide Run, CString, Pad, FirstSegment, AllPlain, Plain, IsComponent;
      DottedSegment(s, b[..n], ext, rest);
    }
  }

  lemma ExtensionIsPlain(ext: seq<Byte>)
    requires IsComponent(ext) && DOT !in ext
    ensures AllPlain(ext)
  {}

  // A body of more than 8 characters ends the segment at its ninth
  lemma LongBody(b: seq<Byte>, s: seq<Byte>, rest: seq<Byte>)
    requires IsComponent(b) && Stem(b) > 8 && CString(s) && s == b + rest
    ensures FirstSegment(s).used == 9 <= |b| && !FirstSegment(s).last
  {
    assert forall k :: 0 <= k < 9 ==> s[k] == b[k];
    RunIs(s, 8, 8);
    hide CString, Pad, Run;
  }

  // How much of an extension is stored: up to the first dot, and 3 at most
  function Stored(ext: seq<Byte>): nat { if Stem(ext) > 3 then 3 else Stem(ext) }

  lemma ExtensionRun(ext: seq<Byte>, rest: seq<Byte>)
    requires IsComponent(ext) && (|ext| > 3 || DOT in ext)
    ensures Run(ext + rest, 3) == Stored(ext) < |ext| && (ext + rest)[Stored(ext)] > SPACE
  {
    var t, m := ext + rest, Stored(ext);
    assert Stem(ext) == |ext| ==> DOT !in ext;
    assert forall k :: 0 <= k < |ext| ==> t[k] == ext[k];
    RunIs(t, m, 3);
  }

  lemma DottedUses(s: seq<Byte>, n: nat, m: nat)
    requires CString(s) && n + 1 + m < |s| && Run(s, 8) == n && s[n] == DOT && Run(s[n + 1..], 3) == m
    ensures FirstSegment(s).used == n + m + 2 && FirstSegment(s).last == (s[n + 1 + m] <= SPACE)
  {
    hide CString, Pad, Run;
  }

  // A fourth character of the extension, or a second dot, ends the segment
  lemma LongExtension(s: seq<Byte>, stem: seq<Byte>, ext: seq<Byte>, rest: seq<Byte>)
    requires AllPlain(stem) && |stem| <= 8 && IsComponent(ext) && (|ext| > 3 || DOT in ext)
    requires CString(s) && s == stem + ([DOT] + (ext + rest))
    ensures FirstSegment(s).used <= |stem| + 1 + |ext| && !FirstSegment(s).last
  {
    var n, t, m := |stem|, ext + rest, Stored(ext);
    hide CString, FirstSegment;
    Cut(s, stem, [DOT] + t);
    RunIs(s, n, 8);
    assert s[n + 1..] == t by { Cut([DOT] + t, [DOT], t); }
    hide AllPlain, Plain, Run, Stored;
    ExtensionRun(ext, rest);
    hide IsComponent;
    DottedUses(s, n, m);
    SliceAfter(s, n + 1, t, m);
  }

  // In either case it ends inside the component
  lemma OversizeSegment(b: seq<Byte>, s: seq<Byte>, rest: seq<Byte>)
    requires IsComponent(b) && !Fits(b) && CString(s) && s == b + rest
    ensures FirstSegment(s).used <= |b| && !FirstSegment(s).last
  {
    if Stem(b) > 8 {
      LongBody(b, s, rest);
    } else {
      Dotted(b);
      var stem, ext := b[..Stem(b)], Extension(b);
      assert |stem| <= 8 && (|ext| > 3 || DOT in ext);
      hide FirstSegment, Fits, Stem, Extension, CString, IsComponent, AllPlain;
      Regroup(stem, ext, rest);
      LongExtension(s, stem, ext, rest);
    }
  }

  /** create_name takes a component and its separator as one segment exactly when the
      component is an 8.3 name; otherwise the segment ends inside the component. */
  lemma WholeComponent(b: seq<Byte>, s: seq<Byte>, rest: seq<Byte>)
    requires IsComponent(b) && CString(s) && s == b + rest
    requires |rest| > 0 && (rest[0] <= SPACE || rest[0] == SLASH)
    ensures FirstSegment(s).used == |b| + 1 <==> Fits(b)
  {
    hide FirstSegment, Fits;
    if Fits(b) { FittingSegment(b, s, rest); } else { OversizeSegment(b, s, rest); }
  }

  lemma NamesAfter(s: seq<Byte>, name: Name, n: nat, rest: seq<Byte>)
    requires CString(s) && FirstSegment(s) == Segment(name, n, false) && rest == s[n..]
    ensures CString(rest) && Names(s) == [name] + Names(rest)
  {
    hide FirstSegment;
    Suffix(s, n);
  }

  lemma CutInside(t: seq<Byte>, rest: seq<Byte>, i: nat)
    requires i <= |t|
    ensures (t + rest)[i..] == t[i..] + rest
  {}

  lemma OversizeNames(t: seq<Byte>, rest: seq<Byte>) returns (name: Name, used: nat)
    requires IsComponent(t) && !Fits(t) && CString(t + rest)
    ensures 0 < used <= |t| && IsComponent(t[used..])
    ensures CString(t[used..] + rest) && Names(t + rest) == [name] + Names(t[used..] + rest)
  {
    hide FirstSegment, Fits, CString, IsComponent, Names;
    var s := t + rest;
    var g := FirstSegment(s);
    OversizeSegment(t, s, rest);
    name, used := g.name, g.used;
    PieceIsComponent(t, used);
    CutInside(t, rest, used);
    NamesAfter(s, name, used, t[used..] + rest);
  }

  lemma FittingNames(t: seq<Byte>, rest: seq<Byte>)
    requires IsComponent(t) && Fits(t) && |rest| > 0 && CString(t + ([SLASH] + rest))
    ensures CString(rest) && Names(t + ([SLASH] + rest)) == [Padded(t)] + Names(rest)
  {
    hide FirstSegment, Fits, CString, Padded, IsComponent;
    var s := t + ([SLASH] + rest);
    FittingSegment(t, s, [SLASH] + rest);
    assert s[|t| + 1..] == rest;
    NamesAfter(s, Padded(t), |t| + 1, rest);
  }

  lemma LastName(t: seq<Byte>)
    requires IsComponent(t) && Fits(t) && CString(t + [0])
    ensures Names(t + [0]) == [Padded(t)]
  {
    hide FirstSegment, Fits, Padded;
    FittingSegment(t, t + [0], [0]);
  }

  lemma FitsSplit(cs: seq<seq<Byte>>)
    requires |cs| > 0
    ensures AllFit(cs) <==> Fits(cs[0]) && AllFit(cs[1..])
  {
    hide Fits;
    assert forall i :: 0 < i < |cs| ==> cs[i] == cs[1..][i - 1];
  }

  // The names of a piece of a component and the components after it
  lemma {:induction false} NamesOfTail(t: seq<Byte>, cs: seq<seq<Byte>>)
    requires IsComponent(t) && AllComponents(cs)
    ensures CString(t + Ending(cs)) && |Names(t + Ending(cs))| >= |cs| + 1
    ensures |Names(t + Ending(cs))| == |cs| + 1 <==> Fits(t) && AllFit(cs)
    ensures Fits(t) && AllFit(cs) ==> Names(t + Ending(cs)) == [Padded(t)] + AllPadded(cs)
    decreases |cs|, |t|
  {
    EndingIsCString(t, cs);
    hide CString, Padded, Stem, Pad, Names, Fits;
    if !Fits(t) {
      var name, used := OversizeNames(t, Ending(cs));
      hide IsComponent, AllComponents, AllFit, Ending;
      NamesOfTail(t[used..], cs);
    } else if |cs| == 0 {
      LastName(t);
    } else {
      FittingNames(t, cs[0] + Ending(cs[1..]));
      NamesOfTail(cs[0], cs[1..]);
      FitsSplit(cs);
    }
  }

  /** The names looked up for a path are as many as its components exactly when every
      component is an 8.3 name; then they are the components, each with the body padded to 8
      and the extension to 3.  Any other path is cut into more names than it has. */
  lemma NamesOfPath(cs: seq<seq<Byte>>)
    requires |cs| > 0 && AllComponents(cs)
    ensures CString(PathText(cs)) && |Names(PathText(cs))| >= |cs|
    ensures |Names(PathText(cs))| == |cs| <==> AllFit(cs)
    ensures AllFit(cs) ==> Names(PathText(cs)) == AllPadded(cs)
  {
    NamesOfTail(cs[0], cs[1..]);
    FitsSplit(cs);
  }

  // ---------- the scan of create_name ----------

  /** The body so far: i characters, all stored. */
  ghost predicate InBody(s: seq<Byte>, stored: seq<Byte>, i: nat) {
    && i <= 8 && i < |s| && AllPlain(s[..i])
    && stored == Pad(s[..i], 8) + Pad([], 3)
  }

  /** Past the dot at n, with m characters of the extension. */
  ghost predicate InExt(s: seq<Byte>, stored: seq<Byte>, n: nat, m: nat) {
    && n == Run(s, 8) && m <= 3 && n + 1 + m < |s| && s[n] == DOT && AllPlain(s[n + 1..n + 1 + m])
    && stored == Pad(s[..n], 8) + Pad(s[n + 1..n + 1 + m], 3)
  }

  /** The state of the scan after si characters: in the body, or past the dot at n. */
  ghost predicate Scanning(s: seq<Byte>, stored: seq<Byte>, i: nat, ni: nat, si: nat, n: nat) {
    && si < |s| && (ni == 8 || ni == 11)
    && (ni == 8 ==> i == si <= 8 && InBody(s, stored, i))
    && (ni == 11 ==> 8 <= i <= 11 && si == n + 1 + (i - 8) && InExt(s, stored, n, i - 8))
  }

  lemma MoreFollows(s: seq<Byte>, k: nat)
    requires CString(s) && k < |s| && s[k] != 0
    ensures k + 1 < |s|
  {}

  lemma PadStore(a: seq<Byte>, n: nat, c: Byte)
    requires |a| < n
    ensures Pad(a, n)[|a| := c] == Pad(a + [c], n)
  {}

  lemma StoreAfter(a: seq<Byte>, b: seq<Byte>, k: nat, c: Byte)
    requires k < |b|
    ensures (a + b)[|a| + k := c] == a + b[k := c]
  {}

  lemma AllPlainMore(s: seq<Byte>, c: Byte)
    requires AllPlain(s) && Plain(c)
    ensures AllPlain(s + [c])
  {}

  lemma StoreBody(s: seq<Byte>, stored: seq<Byte>, i: nat)
    requires CString(s) && InBody(s, stored, i) && Plain(s[i]) && i < 8
    ensures i + 1 < |s| && |stored| == 11 && InBody(s, stored[i := s[i]], i + 1)
  {
    MoreFollows(s, i);
    PadStore(s[..i], 8, s[i]);
    assert s[..i + 1] == s[..i] + [s[i]];
    hide Pad, CString;
    assert stored[i := s[i]] == Pad(s[..i], 8)[i := s[i]] + Pad([], 3);
  }

  lemma SliceGrows(s: seq<Byte>, i: nat, j: nat)
    requires i <= j < |s|
    ensures s[i..j + 1] == s[i..j] + [s[j]]
  {}

  lemma StoreExt(s: seq<Byte>, stored: seq<Byte>, n: nat, m: nat)
    requires CString(s) && InExt(s, stored, n, m) && Plain(s[n + 1 + m]) && m < 3
    ensures n + 1 + m + 1 < |s| && |stored| == 11 && InExt(s, stored[8 + m := s[n + 1 + m]], n, m + 1)
  {
    var k := n + 1 + m;
    var c, ext := s[k], s[n + 1..k];
    MoreFollows(s, k);
    AllPlainMore(ext, c);
    hide CString, Run, AllPlain, Plain;
    SliceGrows(s, n + 1, k);
    PadStore(ext, 3, c);
    StoreAfter(Pad(s[..n], 8), Pad(ext, 3), m, c);
    hide Pad;
  }

  lemma DotFound(s: seq<Byte>, stored: seq<Byte>, i: nat)
    requires CString(s) && InBody(s, stored, i) && s[i] == DOT
    ensures i + 1 < |s| && InExt(s, stored, i, 0)
  {
    MoreFollows(s, i);
    assert forall k :: 0 <= k < i ==> s[k] == s[..i][k];
    RunIs(s, i, 8);
    assert s[i + 1..i + 1] == [];
    hide Run, Pad, CString;
  }

  lemma BodyStops(s: seq<Byte>, stored: seq<Byte>, i: nat)
    requires CString(s) && InBody(s, stored, i) && s[i] != DOT && (!Plain(s[i]) || i == 8)
    ensures FirstSegment(s) == Segment(stored, i + 1, s[i] <= SPACE)
  {
    assert forall k :: 0 <= k < i ==> s[k] == s[..i][k];
    RunIs(s, i, 8);
    hide Run, Pad, CString, Plain, AllPlain;
  }

  lemma ExtRun(s: seq<Byte>, n: nat, m: nat)
    requires m <= 3 && n + 1 + m < |s| && AllPlain(s[n + 1..n + 1 + m]) && (!Plain(s[n + 1 + m]) || m == 3)
    ensures Run(s[n + 1..], 3) == m
  {
    var t, ext := s[n + 1..], s[n + 1..n + 1 + m];
    assert forall k :: 0 <= k < m ==> t[k] == ext[k];
    assert t[m] == s[n + 1 + m];
    hide Plain;
    RunIs(t, m, 3);
  }

  lemma ExtStops(s: seq<Byte>, stored: seq<Byte>, n: nat, m: nat)
    requires CString(s) && InExt(s, stored, n, m) && (!Plain(s[n + 1 + m]) || m == 3)
    ensures FirstSegment(s) == Segment(stored, n + 1 + m + 1, s[n + 1 + m] <= SPACE)
  {
    hide Run, Pad, CString, Plain, AllPlain, FirstSegment;
    ExtRun(s, n, m);
    var body, ext := s[..n], s[n + 1..n + 1 + m];
    Unfold(s, body, ext);
  }

  /** A body of more than 8 characters is cut, and the ninth is lost: the rest is looked up
      as a name of its own, in the directory that the first part names. */
  lemma LongBodyLosesCharacter(a: seq<Byte>, c: Byte, rest: seq<Byte>)
    requires |a| == 8 && AllPlain(a) && Plain(c) && CString(rest)
    ensures CString(a + [c] + rest)
    ensures Names(a + [c] + rest) == [a + Pad([], 3)] + Names(rest)
  {
    var s := a + [c] + rest;
    assert s[8] == c && s[..8] == a && s[9..] == rest;
    RunIs(s, 8, 8);
    hide Run;
    assert Pad(a, 8) == a;
    hide CString, Plain, Pad;
    NamesAfter(s, a + Pad([], 3), 9, rest);
  }

  lemma DottedName(body: seq<Byte>, ext: seq<Byte>, path: seq<Byte>)
    requires AllPlain(body) && |body| <= 8 && AllPlain(ext) && |ext| <= 3
    requires path == body + ([DOT] + (ext + [0]))
    ensures CString(path) && Names(path) == [Pad(body, 8) + Pad(ext, 3)]
  {
    assert CString(path);
    hide Run, Pad, CString, FirstSegment, AllPlain;
    DottedSegment(path, body, ext, [0]);
  }

  /** "KERNEL.ELF", in characters: the name that is looked up has blanks in place of the dot. */
  lemma KernelElf(body: seq<Byte>, ext: seq<Byte>)
    requires body == [0x4B, 0x45, 0x52, 0x4E, 0x45, 0x4C] && ext == [0x45, 0x4C, 0x46]
    ensures var path := body + ([0x2E] + (ext + [0]));
            CString(path) && Names(path) == [body + [0x20, 0x20] + ext]
  {
    DottedName(body, ext, body + ([DOT] + (ext + [0])));
    hide Names, CString, AllPlain;
    assert Pad(body, 8) == body + [0x20, 0x20];
    assert Pad(ext, 3) == ext;
  }
}
