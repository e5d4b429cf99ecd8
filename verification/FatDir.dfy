/** Directories: their entries in order, the search for a name, following a path and
    opening a file (stage2/pff3a/source/pff.c). */
module FatDir {
  import opened Bits
  import opened Disk
  import opened FatSpec
  import opened FatFile
  import opened FatMount
  import opened FatNames

  const AM_VOL := 0x08
  const AM_DIR := 0x10

  type Entry = s: seq<Byte> | |s| == 32 witness seq<Byte>(32, _ => 0)

  // Where entry i of a directory is; or that the directory ends, or its chain breaks, there
  datatype Place = At(sector: Word) | End | Broken

  datatype Lookup = Found(entry: Entry) | NotFound | Failed

  /** The first cluster of the directory that an entry names; 0 stays 0 (the fixed root
      directory) on FAT16. */
  function StartOf(v: Volume, sclust: Word): Word {
    if sclust == 0 && v.fsType == Fat32 then v.dirbase else sclust
  }

  predicate IsFixed(v: Volume, start: Word) { start == 0 && v.fsType == Fat16 }

  function DirCluster(v: Volume, i: nat): (k: nat)
    requires v.csize > 0
  {
    i / 16 / v.csize
  }

  /** The place of entry i.  A chain directory goes on as its chain does, up to the limit of
      the 16-bit index; the fixed one has its 16-entry sectors while they start below
      n_rootdir.  A FAT32 root cluster outside the volume makes the first entry of sector 0
      the whole directory. */
  function PlaceOf(img: Image, v: Volume, start: Word, i: nat): Place
    requires v.csize > 0
  {
    if i > 0xFFFF then End
    else if IsFixed(v, start) then
      if i < 16 || i / 16 * 16 < v.nRootdir then At((v.dirbase + i / 16) % TWO_32) else End
    else if !InRange(v, start) then
      if i == 0 then At(0) else End
    else
      var c := Nth(img, v, start, DirCluster(v, i));
      if InRange(v, c) then At((ClusterSector(v, c) + i / 16 % v.csize) % TWO_32)
      else if c <= 1 then Broken
      else End
  }

  function EntryIn(img: Image, sector: Word, i: nat): Entry { img(sector)[i % 16 * 32..i % 16 * 32 + 32] }

  /** Not a volume label, and the name is the one looked for. */
  predicate Matches(e: Entry, name: Name) { And(e[11], AM_VOL) == 0 && e[..11] == name }

  /** Entry i is there, is not the end marker and does not match. */
  predicate Passed(img: Image, v: Volume, start: Word, name: Name, i: nat)
    requires v.csize > 0
  {
    match PlaceOf(img, v, start, i)
    case At(s) => var e := EntryIn(img, s, i); e[0] != 0 && !Matches(e, name)
    case End => false
    case Broken => false
  }

  // What the search answers when it stops at entry i
  function Verdict(img: Image, v: Volume, start: Word, i: nat): Lookup
    requires v.csize > 0
  {
    match PlaceOf(img, v, start, i)
    case At(s) => if EntryIn(img, s, i)[0] == 0 then NotFound else Found(EntryIn(img, s, i))
    case End => NotFound
    case Broken => Failed
  }

  function Search(img: Image, v: Volume, start: Word, name: Name, i: nat): (l: Lookup)
    requires v.csize > 0
    ensures l.Found? ==> l.entry[0] != 0 && Matches(l.entry, name)
    decreases 0x1_0000 - i
  {
    if i < 0x1_0000 && Passed(img, v, start, name, i) then Search(img, v, start, name, i + 1)
    else Verdict(img, v, start, i)
  }

  /** The search in the directory that starts at sclust. */
  function FindIn(img: Image, v: Volume, sclust: Word, name: Name): (l: Lookup)
    requires v.csize > 0
    ensures l.Found? ==> l.entry[0] != 0 && Matches(l.entry, name)
  {
    if sclust == 1 || sclust >= v.nFatent then Failed
    else Search(img, v, StartOf(v, sclust), name, 0)
  }

  /** The search answers by the first entry that is not passed; there is one, at most 65536
      entries in, whatever the disk holds. */
  lemma {:induction false} SearchIsFirst(img: Image, v: Volume, start: Word, name: Name, i: nat) returns (n: nat)
    requires v.csize > 0 && i <= 0x1_0000
    ensures i <= n <= 0x1_0000 && !Passed(img, v, start, name, n)
    ensures forall j :: i <= j < n ==> Passed(img, v, start, name, j)
    ensures Search(img, v, start, name, i) == Verdict(img, v, start, n)
    decreases 0x1_0000 - i
  {
    hide Verdict;
    if Passed(img, v, start, name, i) {
      assert i < 0x1_0000;
      hide Passed;
      n := SearchIsFirst(img, v, start, name, i + 1);
    } else {
      n := i;
    }
  }

  /** A matching entry is what the search answers when all entries before it are passed. */
  lemma FirstMatch(img: Image, v: Volume, start: Word, name: Name, n: nat, s: Word)
    requires v.csize > 0 && PlaceOf(img, v, start, n) == At(s)
    requires EntryIn(img, s, n)[0] != 0 && Matches(EntryIn(img, s, n), name)
    requires forall j :: 0 <= j < n ==> Passed(img, v, start, name, j)
    ensures Search(img, v, start, name, 0) == Found(EntryIn(img, s, n))
  {
    hide PlaceOf, EntryIn, Matches;
    var m := SearchIsFirst(img, v, start, name, 0);
    assert !Passed(img, v, start, name, n);
    if m < n { assert false; }
  }

  /** With a FAT32 root cluster outside the volume the first 32 bytes of the disk are the
      whole root directory. */
  lemma BadRootIsBootSector(img: Image, v: Volume, name: Name)
    requires v.csize > 0 && v.nFatent > 0 && v.fsType == Fat32 && !InRange(v, v.dirbase)
    ensures var e := EntryIn(img, 0, 0);
            FindIn(img, v, 0, name) == if e[0] != 0 && Matches(e, name) then Found(e) else NotFound
  {
    hide EntryIn, Matches;
    var n := SearchIsFirst(img, v, v.dirbase, name, 0);
    if n > 1 { assert false; }
  }

  /** The entries of a chain directory are the contents of its chain, cut into 32 bytes. */
  lemma EntryIsContent(img: Image, v: Volume, start: Word, i: nat, size: nat)
    requires Sound(v) && i <= 0xFFFF && 32 * i + 32 <= size
    requires !IsFixed(v, start) && Reaches(img, v, start, DirCluster(v, i))
    ensures PlaceOf(img, v, start, i).At?
    ensures EntryIn(img, PlaceOf(img, v, start, i).sector, i) == Content(img, v, start, size)[32 * i..32 * i + 32]
  {
    var p := 32 * i;
    assert p / 512 == i / 16 && p % 512 == i % 16 * 32;
    assert Nth(img, v, start, 0) == start;
    ContentRun(img, v, start, size, p, 32);
    Small(ByteSector(img, v, start, p), TWO_32);
  }

  // ---------- the search, in bytes ----------

  lemma BitIs(x: nat, k: nat)
    ensures And(x, Pow2(k)) == 0 <==> x / Pow2(k) % 2 == 0
  {
    AndOneBit(x, k);
  }

  /** An entry matches when bit 3 of byte 11 is clear and its first 11 bytes are the name. */
  lemma MatchesInBytes(e: Entry, name: Name)
    ensures Matches(e, name) <==> e[11] / 8 % 2 == 0 && forall k :: 0 <= k < 11 ==> e[k] == name[k]
  {
    Pow2Values();
    BitIs(e[11], 3);
    hide And, Pow2;
    assert e[..11] == name <==> forall k :: 0 <= k < 11 ==> e[..11][k] == name[k];
    assert forall k :: 0 <= k < 11 ==> e[..11][k] == e[k];
  }

  /** Entries 0 .. n-1 are there, none of them is the end marker, and none has the name: 11
      bytes, in an entry whose attribute byte has bit 3 clear. */
  ghost predicate NoneNamed(img: Image, v: Volume, start: Word, name: Name, n: nat)
    requires v.csize > 0
  {
    forall j :: 0 <= j < n ==>
      PlaceOf(img, v, start, j).At? &&
      var e := EntryIn(img, PlaceOf(img, v, start, j).sector, j);
      e[0] != 0 && (e[11] / 8 % 2 == 1 || exists k :: 0 <= k < 11 && e[k] != name[k])
  }

  /** What a search ends at, in bytes. */
  ghost predicate EndsAt(img: Image, v: Volume, start: Word, name: Name, n: nat, l: Lookup)
    requires v.csize > 0
  {
    NoneNamed(img, v, start, name, n) &&
    match l
    case Found(e) =>
      && PlaceOf(img, v, start, n).At? && e == EntryIn(img, PlaceOf(img, v, start, n).sector, n)
      && e[0] != 0 && e[11] / 8 % 2 == 0 && forall k :: 0 <= k < 11 ==> e[k] == name[k]
    case NotFound =>
      PlaceOf(img, v, start, n) == End
      || (PlaceOf(img, v, start, n).At? && EntryIn(img, PlaceOf(img, v, start, n).sector, n)[0] == 0)
    case Failed => PlaceOf(img, v, start, n) == Broken
  }

  lemma PassedInBytes(img: Image, v: Volume, start: Word, name: Name, n: nat)
    requires v.csize > 0 && forall j :: 0 <= j < n ==> Passed(img, v, start, name, j)
    ensures NoneNamed(img, v, start, name, n)
  {
    hide PlaceOf, EntryIn, Matches;
    forall j | 0 <= j < n
      ensures PlaceOf(img, v, start, j).At?
      ensures var e := EntryIn(img, PlaceOf(img, v, start, j).sector, j);
              e[0] != 0 && (e[11] / 8 % 2 == 1 || exists k :: 0 <= k < 11 && e[k] != name[k])
    {
      assert Passed(img, v, start, name, j);
      MatchesInBytes(EntryIn(img, PlaceOf(img, v, start, j).sector, j), name);
    }
  }

  /** The search answers what the bytes of the directory say: the first entry with the name
      before the end marker, or that there is none, or that the chain breaks before. */
  lemma SearchInBytes(img: Image, v: Volume, start: Word, name: Name)
    requires v.csize > 0
    ensures exists n :: 0 <= n <= 0x1_0000 && EndsAt(img, v, start, name, n, Search(img, v, start, name, 0))
  {
    hide PlaceOf, EntryIn, Matches;
    var n := SearchIsFirst(img, v, start, name, 0);
    PassedInBytes(img, v, start, name, n);
    hide NoneNamed;
    if PlaceOf(img, v, start, n).At? {
      MatchesInBytes(EntryIn(img, PlaceOf(img, v, start, n).sector, n), name);
    }
    assert EndsAt(img, v, start, name, n, Search(img, v, start, name, 0));
  }

  // ---------- paths ----------

  /** The first cluster of an entry; 32 bits on FAT32, 16 on FAT16. */
  function GetClust(v: Volume, e: Entry): (c: Word)
    ensures c == (if v.fsType == Fat32 then LdWord(e[20..22]) * 0x1_0000 else 0) + LdWord(e[26..28])
  {
    var hi, lo := if v.fsType == Fat32 then LdWord(e[20..22]) else 0, LdWord(e[26..28]);
    OrJoin(hi, lo);
    Or(hi * 0x1_0000, lo)
  }

  function FileSize(e: Entry): Word { LdDword(e[28..32]) }

  /** The size is in bytes 28 to 31, the low byte first. */
  lemma SizeInBytes(e: Entry)
    ensures FileSize(e) == (e[31] as int) * 0x100_0000 + (e[30] as int) * 0x1_0000 + (e[29] as int) * 0x100 + e[28]
  {
    assert forall k :: 0 <= k < 4 ==> e[28..32][k] == e[28 + k];
  }

  /** An entry of a file of this size: bit 4 of byte 11 is clear, and bytes 28 to 31 are the
      size, the low byte first. */
  predicate IsFile(e: Entry, size: Word) {
    e[11] / 16 % 2 == 0 &&
    size == (e[31] as int) * 0x100_0000 + (e[30] as int) * 0x1_0000 + (e[29] as int) * 0x100 + e[28]
  }

  predicate IsDirectory(e: Entry) { And(e[11], AM_DIR) != 0 }

  /** Bit 4 of the attribute byte makes an entry a directory. */
  lemma DirectoryBit(e: Entry)
    ensures IsDirectory(e) <==> e[11] / 16 % 2 == 1
  {
    Pow2Values();
    BitIs(e[11], 4);
    hide And, Pow2;
  }

  /** Looks the names up one after the other, each in the directory that the one before
      names. */
  function Walk(img: Image, v: Volume, sclust: Word, names: seq<Name>): (l: Lookup)
    requires v.csize > 0 && |names| > 0
    ensures l.Found? ==> l.entry[0] != 0 && Matches(l.entry, names[|names| - 1])
    decreases |names|
  {
    match FindIn(img, v, sclust, names[0])
    case Found(e) =>
      if |names| == 1 then Found(e)
      else if !IsDirectory(e) then NotFound
      else Walk(img, v, GetClust(v, e), names[1..])
    case NotFound => NotFound
    case Failed => Failed
  }

  // The path without leading blanks
  function SkipBlanks(s: seq<Byte>): (t: seq<Byte>)
    requires CString(s)
    ensures CString(t) && |t| <= |s| && t == s[|s| - |t|..] && t[0] != SPACE
  {
    if s[0] == SPACE then
      Suffix(s, 1);
      SkipBlanks(s[1..])
    else s
  }

  // ... and without one slash
  function Relative(s: seq<Byte>): (t: seq<Byte>)
    requires CString(s)
    ensures CString(t)
  {
    var t := SkipBlanks(s);
    if t[0] == SLASH then
      Suffix(t, 1);
      t[1..]
    else t
  }

  /** The file that a path names.  A path without a name, or one that names a directory,
      names no file. */
  function FileAt(img: Image, v: Volume, path: seq<Byte>): Lookup
    requires v.csize > 0 && CString(path)
  {
    if Relative(path)[0] < SPACE then NotFound
    else
      match Walk(img, v, 0, Names(Relative(path)))
      case Found(e) => if IsDirectory(e) then NotFound else Found(e)
      case NotFound => NotFound
      case Failed => Failed
  }

  lemma FileInBytes(e: Entry)
    requires !IsDirectory(e)
    ensures IsFile(e, FileSize(e))
  {
    hide IsDirectory, FileSize;
    DirectoryBit(e);
    SizeInBytes(e);
  }

  lemma FoundIsFile(img: Image, v: Volume, path: seq<Byte>)
    requires v.csize > 0 && CString(path)
    ensures match FileAt(img, v, path)
            case Found(e) => IsFile(e, FileSize(e))
            case NotFound => true
            case Failed => true
  {
    hide Walk, Relative, Names, CString, IsDirectory, FileSize, IsFile, Matches;
    var l := FileAt(img, v, path);
    if l.Found? {
      assert !IsDirectory(l.entry);
      FileInBytes(l.entry);
    }
  }

  // An outcome of a search as a result code and the working buffer
  ghost predicate Answers(res: FResult, dir: seq<Byte>, l: Lookup) {
    match l
    case Found(e) => res == FR_OK && dir == e
    case NotFound => res == FR_NO_FILE
    case Failed => res == FR_DISK_ERR
  }

  // ---------- stepping ----------

  lemma SectorSteps(c: nat, i: nat)
    requires c > 0
    ensures (i + 1) % 16 != 0 ==> (i + 1) / 16 == i / 16
    ensures (i + 1) % 16 == 0 ==> (i + 1) / 16 == i / 16 + 1 && (i + 1) / 16 * 16 == i + 1
    ensures (i + 1) % 16 == 0 && (i + 1) / 16 % c != 0 ==>
      (i + 1) / 16 / c == i / 16 / c && (i + 1) / 16 % c == i / 16 % c + 1
    ensures (i + 1) % 16 == 0 && (i + 1) / 16 % c == 0 ==> (i + 1) / 16 / c == i / 16 / c + 1
  {
    if (i + 1) % 16 == 0 {
      var t := (i + 1) / 16;
      var k, r := t / c, t % c;
      assert t - 1 == i / 16 && t == c * k + r;
      if r == 0 {
        DivModUnique(t - 1, c, k - 1, c - 1);
      } else {
        DivModUnique(t - 1, c, k, r - 1);
      }
    }
  }

  // The sector 0 stands for a root cluster outside the volume, and only for that
  lemma SectorNonZero(img: Image, v: Volume, start: Word, i: nat)
    requires Sound(v) && RootInPlace(v) && PlaceOf(img, v, start, i).At?
    ensures PlaceOf(img, v, start, i).sector == 0 <==> !IsFixed(v, start) && !InRange(v, start)
    ensures IsFixed(v, start) ==> PlaceOf(img, v, start, i).sector == v.dirbase + i / 16 < TWO_32
    ensures i >= 0xFFFF || PlaceOf(img, v, start, i).sector == 0 ==> PlaceOf(img, v, start, i + 1) == End
  {
    if IsFixed(v, start) {
      assert i < 16 || i / 16 * 16 < v.nRootdir;
      assert i / 16 <= v.nRootdir / 16;
      Small(v.dirbase + i / 16, TWO_32);
    } else if InRange(v, start) {
      var c, r := Nth(img, v, start, DirCluster(v, i)), i / 16 % v.csize;
      ClusterInVolume(v, c, r);
      Small(ClusterSector(v, c) + r, TWO_32);
    }
  }

  // The next entry in the same sector
  lemma NextInSector(img: Image, v: Volume, start: Word, i: nat)
    requires v.csize > 0 && PlaceOf(img, v, start, i).At? && i < 0xFFFF && (i + 1) % 16 != 0
    requires IsFixed(v, start) || InRange(v, start)
    ensures PlaceOf(img, v, start, i + 1) == PlaceOf(img, v, start, i)
    ensures DirCluster(v, i + 1) == DirCluster(v, i)
  {
    SectorSteps(v.csize, i);
    hide Nth, ClusterSector, InRange;
  }

  // ... in the next sector: of the fixed directory, of the cluster, or of the next cluster
  lemma NextInFixed(img: Image, v: Volume, start: Word, i: nat)
    requires Sound(v) && RootInPlace(v) && PlaceOf(img, v, start, i).At? && i < 0xFFFF && (i + 1) % 16 == 0
    requires IsFixed(v, start)
    ensures PlaceOf(img, v, start, i + 1) ==
      if i + 1 >= v.nRootdir then End else At((PlaceOf(img, v, start, i).sector + 1) % TWO_32)
  {
    SectorNonZero(img, v, start, i);
    SectorSteps(v.csize, i);
  }

  lemma NextInChain(img: Image, v: Volume, start: Word, i: nat)
    requires Sound(v) && PlaceOf(img, v, start, i).At? && i < 0xFFFF && (i + 1) % 16 == 0
    requires !IsFixed(v, start) && InRange(v, start)
    ensures var p, q := PlaceOf(img, v, start, i), PlaceOf(img, v, start, i + 1);
            var t, c := (i + 1) / 16, Nth(img, v, start, DirCluster(v, i));
            && InRange(v, c)
            && (t % v.csize != 0 ==> q == At((p.sector + 1) % TWO_32) && DirCluster(v, i + 1) == DirCluster(v, i))
            && (t % v.csize == 0 ==>
                  var d := FatEntry(img, v, c);
                  && Nth(img, v, start, DirCluster(v, i + 1)) == d
                  && q == if InRange(v, d) then At(ClusterSector(v, d) % TWO_32) else if d <= 1 then Broken else End)
  {
    hide FatEntry;
    SectorSteps(v.csize, i);
    var c, r := Nth(img, v, start, DirCluster(v, i)), i / 16 % v.csize;
    ClusterInVolume(v, c, r);
    Small(ClusterSector(v, c) + r, TWO_32);
  }

  // The three cases as dir_next tells them apart, from the sector and the cluster it stands in
  lemma NextPlace(img: Image, v: Volume, start: Word, i: nat, sect: Word, clust: Word)
    requires Sound(v) && RootInPlace(v) && PlaceOf(img, v, start, i) == At(sect) && sect != 0
    requires clust == if IsFixed(v, start) then 0 else Nth(img, v, start, DirCluster(v, i))
    requires i < 0xFFFF && (i + 1) % 16 == 0
    ensures clust == 0 <==> IsFixed(v, start)
    ensures var q, next, d := PlaceOf(img, v, start, i + 1), (sect + 1) % TWO_32, FatEntry(img, v, clust);
            if clust == 0 then q == if i + 1 >= v.nRootdir then End else At(next)
            else if (i + 1) / 16 % v.csize != 0 then
              q == At(next) && Nth(img, v, start, DirCluster(v, i + 1)) == clust
            else
              && Nth(img, v, start, DirCluster(v, i + 1)) == d
              && q == if InRange(v, d) then At(ClusterSector(v, d) % TWO_32) else if d <= 1 then Broken else End
  {
    SectorNonZero(img, v, start, i);
    hide FatEntry, Nth, ClusterSector, Sound, DirCluster, PlaceOf, RootInPlace, IsFixed;
    if IsFixed(v, start) { NextInFixed(img, v, start, i); } else { NextInChain(img, v, start, i); }
  }

  lemma First(img: Image, v: Volume, start: Word)
    requires Sound(v)
    ensures DirCluster(v, 0) == 0 && Nth(img, v, start, 0) == start
    ensures PlaceOf(img, v, start, 0) ==
      At(if IsFixed(v, start) then v.dirbase else if InRange(v, start) then ClusterSector(v, start) else 0)
  {
    DivModUnique(0, v.csize, 0, 0);
    if InRange(v, start) { ClusterInVolume(v, start, 0); Small(ClusterSector(v, start), TWO_32); }
  }

  // The entry was passed and the directory does not go on
  lemma SearchEnds(img: Image, v: Volume, start: Word, name: Name, i: nat)
    requires v.csize > 0 && i < 0x1_0000 && Passed(img, v, start, name, i)
    requires !PlaceOf(img, v, start, i + 1).At?
    ensures Search(img, v, start, name, i) ==
      if PlaceOf(img, v, start, i + 1) == End then NotFound else Failed
  {
    hide PlaceOf;
  }

  // One name of the path, looked up
  lemma WalkStep(img: Image, v: Volume, sclust: Word, s: seq<Byte>)
    requires v.csize > 0 && CString(s)
    ensures var g, w := FirstSegment(s), Walk(img, v, sclust, Names(s));
            match FindIn(img, v, sclust, g.name)
            case Found(e) =>
              if g.last then w == Found(e)
              else if !IsDirectory(e) then w == NotFound
              else CString(s[g.used..]) && w == Walk(img, v, GetClust(v, e), Names(s[g.used..]))
            case NotFound => w == NotFound
            case Failed => w == Failed
  {
    hide FirstSegment, FindIn, GetClust;
    var g := FirstSegment(s);
    if g.last {
      assert Names(s) == [g.name];
    } else {
      Suffix(s, g.used);
      var rest := Names(s[g.used..]);
      assert Names(s) == [g.name] + rest;
      assert ([g.name] + rest)[1..] == rest;
    }
  }

  // Where the first name of a path starts
  method SkipTo(path: seq<Byte>) returns (p: nat)
    requires CString(path)
    ensures p < |path| && path[p..] == Relative(path) && CString(path[p..])
  {
    p := 0;
    while path[p] == SPACE
      invariant p < |path| && CString(path[p..]) && SkipBlanks(path[p..]) == SkipBlanks(path)
      decreases |path| - p
    {
      MoreFollows(path, p);
      Suffix(path, p + 1);
      assert path[p..][1..] == path[p + 1..];
      p := p + 1;
    }
    if path[p] == SLASH {
      MoreFollows(path, p);
      Suffix(path, p + 1);
      assert path[p..][1..] == path[p + 1..];
      p := p + 1;
    }
  }

  // A path without a name, or to a directory, is no file
  lemma FollowedTo(img: Image, v: Volume, path: seq<Byte>, res: FResult, dir: Entry)
    requires v.csize > 0 && CString(path)
    requires Relative(path)[0] < SPACE ==> res == FR_OK && dir[0] == 0
    requires Relative(path)[0] >= SPACE ==> Answers(res, dir, Walk(img, v, 0, Names(Relative(path))))
    ensures res != FR_OK ==> Answers(res, dir, FileAt(img, v, path))
    ensures res == FR_OK ==>
      Answers(if dir[0] == 0 || IsDirectory(dir) then FR_NO_FILE else FR_OK, dir, FileAt(img, v, path))
  {
    hide Walk, Names, CString, Relative, Matches;
  }

  lemma TopOfFile(img: Image, v: Volume, org: Word, fsize: Word, curr: Word, dsect: Word)
    requires v.csize > 0
    ensures CursorOk(img, v, org, fsize, 0, curr, dsect)
  {}

  // The answer of dir_next
  function Moved(p: Place): FResult {
    match p
    case At(_) => FR_OK
    case End => FR_NO_FILE
    case Broken => FR_DISK_ERR
  }

  // The 16-bit index plus 1
  function Increment(i: nat): (j: nat)
    requires i <= 0xFFFF
    ensures j == if i == 0xFFFF then 0 else i + 1
  {
    (i + 1) % 0x1_0000
  }

  // ---------- the directory object ----------

  class Dir {
    const fn: array<Byte>    // the name looked for, then a flag for the last segment
    var index: nat           // 16 bits
    var sclust: Word
    var clust: Word
    var sect: Word

    constructor (fn: array<Byte>)
      ensures this.fn == fn
    {
      this.fn := fn;
      index, sclust, clust, sect := 0, 0, 0, 0;
    }

    /** The object stands at entry i. */
    ghost predicate Stands(img: Image, v: Volume, start: Word, i: nat)
      requires v.csize > 0
      reads this
    {
      && index == i <= 0xFFFF && PlaceOf(img, v, start, i) == At(sect)
      && clust == if IsFixed(v, start) then 0 else Nth(img, v, start, DirCluster(v, i))
    }

    method Rewind(fs: FatFs) returns (res: FResult)
      requires fs.Ready() && fs.vol.csize > 0
      modifies this`index, this`clust, this`sect
      ensures fs.Ready()
      ensures res == if sclust == 1 || sclust >= fs.vol.nFatent then FR_DISK_ERR else FR_OK
      ensures res == FR_OK ==> Stands(fs.drive.image, fs.vol, StartOf(fs.vol, sclust), 0)
    {
      ghost var v, start := fs.vol, StartOf(fs.vol, sclust);
      index := 0;
      var c := sclust;
      if c == 1 || c >= fs.vol.nFatent { return FR_DISK_ERR; }
      if c == 0 && fs.vol.fsType == Fat32 { c := fs.vol.dirbase; }
      clust := c;
      if c != 0 {
        sect := fs.Clust2Sect(c);
      } else {
        sect := fs.vol.dirbase;
      }
      First(fs.drive.image, v, start);
      return FR_OK;
    }

    method Next(fs: FatFs, ghost start: Word) returns (res: FResult)
      requires fs.Ready() && RootInPlace(fs.vol) && fs.vol.csize > 0
      requires Stands(fs.drive.image, fs.vol, start, index)
      modifies this`index, this`clust, this`sect, fs.drive, fs.drive.buf
      ensures fs.Ready() && |fs.drive.log| <= |old(fs.drive.log)| + 1
      ensures res == Moved(PlaceOf(fs.drive.image, fs.vol, start, old(index) + 1))
      ensures res == FR_OK ==> Stands(fs.drive.image, fs.vol, start, old(index) + 1)
    {
      ghost var img, v, i0 := fs.drive.image, fs.vol, index;
      SectorNonZero(img, v, start, i0);
      var i := Increment(index);
      hide FatEntry, Nth, ClusterSector, Sound, DirCluster, PlaceOf, RootInPlace, InRange, IsFixed, FatFs.Ready,
        Increment;
      if i == 0 || sect == 0 { return FR_NO_FILE; }
      if i % 16 == 0 {
        res := NextSector(fs, start, i);
        if res != FR_OK { return; }
      } else {
        NextInSector(img, v, start, i0);
      }
      index := i;
      return FR_OK;
    }

    // dir_next where the sector changes
    method NextSector(fs: FatFs, ghost start: Word, i: nat) returns (res: FResult)
      requires fs.Ready() && RootInPlace(fs.vol) && fs.vol.csize > 0 && sect != 0
      requires Stands(fs.drive.image, fs.vol, start, index) && i == index + 1 <= 0xFFFF && i % 16 == 0
      modifies this`clust, this`sect, fs.drive, fs.drive.buf
      ensures fs.Ready() && |fs.drive.log| <= |old(fs.drive.log)| + 1
      ensures res == Moved(PlaceOf(fs.drive.image, fs.vol, start, i))
      ensures res == FR_OK ==>
        && PlaceOf(fs.drive.image, fs.vol, start, i) == At(sect)
        && clust == if IsFixed(fs.vol, start) then 0 else Nth(fs.drive.image, fs.vol, start, DirCluster(fs.vol, i))
    {
      assert PowerOfTwo(fs.vol.csize);
      NextPlace(fs.drive.image, fs.vol, start, index, sect, clust);
      hide FatEntry, Nth, ClusterSector, Sound, DirCluster, PlaceOf, RootInPlace, Drive.Valid, IsFixed, PowerOfTwo;
      sect := (sect + 1) % TWO_32;
      if clust == 0 {
        if i >= fs.vol.nRootdir { return FR_NO_FILE; }
      } else {
        if ClusterMask(i / 16, fs.vol.csize) == 0 {
          res := NextCluster(fs);
          return;
        }
      }
      return FR_OK;
    }

    // ... and the cluster with it
    method NextCluster(fs: FatFs) returns (res: FResult)
      requires fs.Ready()
      modifies this`clust, this`sect, fs.drive, fs.drive.buf
      ensures fs.Ready() && |fs.drive.log| <= |old(fs.drive.log)| + 1
      ensures var d := FatEntry(fs.drive.image, fs.vol, old(clust));
        if InRange(fs.vol, d) then res == FR_OK && clust == d && sect == ClusterSector(fs.vol, d) % TWO_32
        else res == if d <= 1 then FR_DISK_ERR else FR_NO_FILE
    {
      hide FatEntry, Sound, Drive.Valid;
      var c := fs.GetFat(clust);
      if c <= 1 { return FR_DISK_ERR; }
      if c >= fs.vol.nFatent { return FR_NO_FILE; }
      clust := c;
      sect := fs.Clust2Sect(c);
      Small(sect, TWO_32);
      return FR_OK;
    }

    /** dir_find: the first entry, before the end of the directory, with the name. */
    method Find(fs: FatFs, dir: array<Byte>) returns (res: FResult)
      requires fs.Ready() && RootInPlace(fs.vol) && fs.vol.csize > 0
      requires fn.Length == 12 && dir.Length == 32 && dir != fs.drive.buf && fn != fs.drive.buf && fn != dir
      modifies this`index, this`clust, this`sect, fs.drive, fs.drive.buf, dir
      ensures fs.Ready() && |fs.drive.log| <= |old(fs.drive.log)| + 2 * 0x1_0000
      ensures Answers(res, dir[..], FindIn(fs.drive.image, fs.vol, sclust, fn[..11]))
      ensures if sclust == 1 || sclust >= fs.vol.nFatent then res == FR_DISK_ERR
              else exists n, l ::
                0 <= n <= 0x1_0000 && Answers(res, dir[..], l) &&
                EndsAt(fs.drive.image, fs.vol, StartOf(fs.vol, sclust), fn[..11], n, l)
    {
      SearchInBytes(fs.drive.image, fs.vol, StartOf(fs.vol, sclust), fn[..11]);
      hide FatEntry, Nth, ClusterSector, Sound, DirCluster, PlaceOf, RootInPlace, Passed, Verdict, EndsAt, Search,
        Answers, StartOf;
      ghost var start, n, log0 := StartOf(fs.vol, sclust), 0, |fs.drive.log|;
      res := Rewind(fs);
      if res != FR_OK { return; }
      ghost var l := FindIn(fs.drive.image, fs.vol, sclust, fn[..11]);
      var more := true;
      while more
        invariant fs.Ready() && n <= 0x1_0000 && |fs.drive.log| <= log0 + 2 * n
        invariant more ==>
          && n < 0x1_0000 && Stands(fs.drive.image, fs.vol, start, n)
          && l == Search(fs.drive.image, fs.vol, start, fn[..11], n)
        invariant !more ==> Answers(res, dir[..], l)
        decreases more, 0x1_0000 - n
      {
        more, res := FindRound(fs, dir, start, fn[..11]);
        n := n + 1;
      }
    }

    method FindRound(fs: FatFs, dir: array<Byte>, ghost start: Word, ghost name: Name)
      returns (more: bool, res: FResult)
      requires fs.Ready() && RootInPlace(fs.vol) && fs.vol.csize > 0
      requires fn.Length == 12 && dir.Length == 32 && dir != fs.drive.buf && fn != fs.drive.buf && fn != dir
      requires name == fn[..11] && Stands(fs.drive.image, fs.vol, start, index)
      modifies this`index, this`clust, this`sect, fs.drive, fs.drive.buf, dir
      ensures fs.Ready() && |fs.drive.log| <= |old(fs.drive.log)| + 2
      ensures more ==>
        && old(index) < 0xFFFF && Stands(fs.drive.image, fs.vol, start, old(index) + 1)
        && Search(fs.drive.image, fs.vol, start, name, old(index)) ==
           Search(fs.drive.image, fs.vol, start, name, old(index) + 1)
      ensures !more ==> Answers(res, dir[..], Search(fs.drive.image, fs.vol, start, name, old(index)))
    {
      hide FatEntry, Nth, ClusterSector, Sound, DirCluster, PlaceOf, RootInPlace;
      ghost var img, v, i := fs.drive.image, fs.vol, index;
      var dr := Peek(fs.drive, dir, sect, index % 16 * 32, 32);
      assert dir[..] == dir[..32] == EntryIn(img, sect, i);
      if dr != RES_OK { return false, FR_DISK_ERR; }
      var c := dir[0];
      if c == 0 { return false, FR_NO_FILE; }
      if And(dir[11], AM_VOL) == 0 && dir[..11] == fn[..11] { return false, FR_OK; }
      assert Passed(img, v, start, name, i);
      res := Next(fs, start);
      more := res == FR_OK;
      if !more { SearchEnds(img, v, start, name, i); }
    }

    /** create_name on the path from p on. */
    method CreateName(path: seq<Byte>, p: nat) returns (res: FResult, next: nat)
      requires p < |path| && CString(path[p..]) && fn.Length == 12
      modifies fn
      ensures var g := FirstSegment(path[p..]);
        && res == FR_OK && next == p + g.used
        && fn[..11] == g.name && fn[11] == if g.last then 1 else 0
    {
      ghost var s, n := path[p..], 0;
      forall k | 0 <= k < 11 { fn[k] := SPACE; }
      assert fn[..11] == Pad(s[..0], 8) + Pad([], 3);
      hide Pad, Run, CString, FirstSegment, Plain, AllPlain;
      var si, i, ni := 0, 0, 8;
      var c: Byte := 0;
      var going := true;
      while going
        invariant p + si <= |path|
        invariant going ==> Scanning(s, fn[..11], i, ni, si, n)
        invariant !going ==> FirstSegment(s) == Segment(fn[..11], si, c <= SPACE)
        decreases going, |s| - si
      {
        c := path[p + si];
        going, i, ni, n := Scan(s, c, i, ni, si, n);
        si := si + 1;
      }
      next := p + si;
      ghost var stored := fn[..11];
      fn[11] := if c <= SPACE then 1 else 0;
      assert fn[..11] == stored;
      res := FR_OK;
    }

    // One character of the name
    method Scan(ghost s: seq<Byte>, c: Byte, i0: nat, ni0: nat, ghost si: nat, ghost n0: nat)
      returns (going: bool, i: nat, ni: nat, ghost n: nat)
      requires fn.Length == 12 && CString(s) && Scanning(s, fn[..11], i0, ni0, si, n0) && c == s[si]
      modifies fn
      ensures going ==> Scanning(s, fn[..11], i, ni, si + 1, n)
      ensures !going ==> FirstSegment(s) == Segment(fn[..11], si + 1, c <= SPACE)
    {
      hide Pad, Run, CString, FirstSegment, AllPlain, InBody, InExt;
      going, i, ni, n := true, i0, ni0, n0;
      ghost var stored := fn[..11];
      if c <= SPACE || c == SLASH {
        going := false;
        if ni == 8 { BodyStops(s, stored, i); } else { ExtStops(s, stored, n, i - 8); }
      } else if c == DOT || i >= ni {
        if ni != 8 || c != DOT {
          going := false;
          if ni == 8 { BodyStops(s, stored, i); } else { ExtStops(s, stored, n, i - 8); }
        } else {
          DotFound(s, stored, i);
          n := i;
          i, ni := 8, 11;
        }
      } else {
        if ni == 8 { StoreBody(s, stored, i); } else { StoreExt(s, stored, n, i - 8); }
        fn[i] := c;
        assert fn[..11] == stored[i := c];
        i := i + 1;
      }
    }

    /** follow_path. */
    method FollowPath(fs: FatFs, dir: array<Byte>, path: seq<Byte>) returns (res: FResult)
      requires fs.Ready() && RootInPlace(fs.vol) && fs.vol.csize > 0 && CString(path)
      requires fn.Length == 12 && dir.Length == 32 && dir != fs.drive.buf && fn != fs.drive.buf && fn != dir
      modifies this, fn, dir, fs.drive, fs.drive.buf
      ensures fs.Ready()
      ensures Relative(path)[0] < SPACE ==> res == FR_OK && dir[0] == 0
      ensures Relative(path)[0] >= SPACE ==>
        Answers(res, dir[..], Walk(fs.drive.image, fs.vol, 0, Names(Relative(path))))
    {
      assert 2 <= fs.vol.nFatent;
      var p := SkipTo(path);
      hide Sound, RootInPlace, Walk, Names, CString, Relative, FatFs.Ready;
      sclust := 0;
      if path[p] < SPACE {
        res := Rewind(fs);
        dir[0] := 0;
        return;
      }
      ghost var img, v, l := fs.drive.image, fs.vol, Walk(fs.drive.image, fs.vol, 0, Names(Relative(path)));
      var going := true;
      res := FR_OK;
      while going
        invariant fs.Ready() && v.csize > 0
        invariant going ==>
          && p < |path| && CString(path[p..])
          && l == Walk(img, v, sclust, Names(path[p..]))
        invariant !going ==> Answers(res, dir[..], l)
        decreases going, |path| - p
      {
        going, res, p := FollowRound(fs, dir, path, p);
      }
    }

    // One segment of the path
    method FollowRound(fs: FatFs, dir: array<Byte>, path: seq<Byte>, p: nat)
      returns (going: bool, res: FResult, next: nat)
      requires fs.Ready() && RootInPlace(fs.vol) && fs.vol.csize > 0 && p < |path| && CString(path[p..])
      requires fn.Length == 12 && dir.Length == 32 && dir != fs.drive.buf && fn != fs.drive.buf && fn != dir
      modifies this, fn, dir, fs.drive, fs.drive.buf
      ensures fs.Ready()
      ensures going ==>
        && p < next < |path| && CString(path[next..])
        && Walk(fs.drive.image, fs.vol, old(sclust), Names(path[p..])) ==
           Walk(fs.drive.image, fs.vol, sclust, Names(path[next..]))
      ensures !going ==>
        Answers(res, dir[..], Walk(fs.drive.image, fs.vol, old(sclust), Names(path[p..])))
    {
      hide Sound, RootInPlace, Walk, Names, CString, FindIn, FirstSegment, GetClust, FatFs.Ready;
      ghost var s, img, v, sclust0 := path[p..], fs.drive.image, fs.vol, sclust;
      ghost var g := FirstSegment(s);
      res, next := CreateName(path, p);
      WalkStep(img, v, sclust0, s);
      ghost var stored := fn[..11];
      res := Find(fs, dir);
      if res != FR_OK || fn[11] != 0 { return false, res, next; }
      if And(dir[11], AM_DIR) == 0 { return false, FR_NO_FILE, next; }
      assert s[g.used..] == path[next..];
      sclust := GetClust(fs.vol, dir[..]);
      return true, FR_OK, next;
    }
  }

  // The directory entry of the file that the path names
  method Target(fs: FatFs, dir: array<Byte>, path: seq<Byte>) returns (res: FResult)
    requires fs.Ready() && RootInPlace(fs.vol) && CString(path) && dir.Length == 32 && dir != fs.drive.buf
    modifies dir, fs.drive, fs.drive.buf
    ensures fs.Ready() && fs.vol.csize > 0
    ensures Answers(res, dir[..], FileAt(fs.drive.image, fs.vol, path))
  {
    assert fs.vol.csize > 0;
    hide Sound, RootInPlace, Walk, Names, CString, Relative, FatFs.Ready, Answers, FileAt;
    var sp := new Byte[12];
    var dj := new Dir(sp);
    res := dj.FollowPath(fs, dir, path);
    FollowedTo(fs.drive.image, fs.vol, path, res, dir[..]);
    if res != FR_OK { return; }
    if dir[0] == 0 || And(dir[11], AM_DIR) != 0 { return FR_NO_FILE; }
  }

  /** pf_open.  It opens the file that the path names, at its first byte. */
  method Open(fs: FatFs, path: seq<Byte>) returns (res: FResult)
    requires fs.mounted ==> fs.Valid() && RootInPlace(fs.vol)
    requires CString(path)
    modifies fs`isOpen, fs`orgClust, fs`fsize, fs`fptr, fs.drive, fs.drive.buf
    ensures !fs.mounted ==> res == FR_NOT_ENABLED
    ensures fs.mounted ==> fs.Valid() && fs.vol.csize > 0 && fs.isOpen == (res == FR_OK)
    ensures fs.mounted ==>
      match FileAt(fs.drive.image, fs.vol, path)
      case Found(e) =>
        && res == FR_OK && fs.orgClust == GetClust(fs.vol, e) && fs.fsize == FileSize(e) && fs.fptr == 0
        && IsFile(e, fs.fsize)
      case NotFound => res == FR_NO_FILE
      case Failed => res == FR_DISK_ERR
  {
    hide Sound, RootInPlace, FileAt, CString, GetClust, FileSize, IsFile, CursorOk, FatFs.Ready;
    if !fs.mounted { return FR_NOT_ENABLED; }
    ghost var img := fs.drive.image;
    fs.isOpen := false;
    var dir := new Byte[32];
    res := Target(fs, dir, path);
    FoundIsFile(img, fs.vol, path);
    if res != FR_OK { return; }
    fs.orgClust := GetClust(fs.vol, dir[..]);
    fs.fsize := FileSize(dir[..]);
    fs.fptr := 0;
    fs.isOpen := true;
    TopOfFile(fs.drive.image, fs.vol, fs.orgClust, fs.fsize, fs.currClust, fs.dsect);
  }
}
