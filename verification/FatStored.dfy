/** A file on a formatted volume: the disk is described by what was written to it, without
    any of the reader's arithmetic, and the reader finds the file and its bytes. */
module FatStored {
  import opened Bits
  import opened Disk
  import opened FatSpec
  import opened FatFile
  import opened FatMount
  import opened FatNames
  import opened FatDir
  import opened FatFormat
  import opened FatSession

  // ---------- the volume ----------

  /** The record h, t is where the volume starts. */
  ghost predicate Formatted(img: Image, h: Header, t: Tail, start: Word) {
    && FieldsFit(h, t) && (t.Tail16? ==> h.fatSz16 > 0) && t.fsType[0] == 0x46 && t.fsType[1] == 0x41
    && VolumeStart(img) == start && img(start) == BootRecord(h, t)
  }

  /** The volume that is mounted, in terms of the fields of the record. */
  lemma VolumeOfRecord(img: Image, h: Header, t: Tail, start: Word)
    requires Formatted(img, h, t, start) && h.secPerClus > 0 && Consistent(BpbOf(img(start)), start)
    ensures var fats := FatSize(h, t) * h.numFats;
            var clusters := (TotalSectors(h) - h.rsvd - fats - h.rootEnts / 16) / h.secPerClus;
            && (OnDisk(img).Supported? <==> clusters > 4085)
            && (OnDisk(img).Supported? ==>
                  var v := OnDisk(img).vol;
                  && v.fsType == (if clusters < 65525 then Fat16 else Fat32)
                  && v.csize == h.secPerClus && v.nRootdir == h.rootEnts && v.nFatent == clusters + 2
                  && v.fatbase == start + h.rsvd
                  && v.database == start + h.rsvd + fats + h.rootEnts / 16
                  && (v.fsType == Fat16 ==> v.dirbase == start + h.rsvd + fats)
                  && (v.fsType == Fat32 && t.Tail32? ==> v.dirbase == t.rootClus))
  {
    BootKindBack(h, t);
    BootRecordBack(h, t);
    var b := BpbOf(img(start));
    TypeByCount(b, start);
    if Derive(b, start).Supported? { Layout(b, start); }
    hide BootRecord, BpbOf, Derive, BootKind, VolumeStart, Sound, RootInPlace, FatSectors;
  }

  // ---------- chains of clusters ----------

  /** The table links these clusters. */
  ghost predicate ChainOf(v: Volume, fat: seq<Word>, cs: seq<Word>) {
    && |cs| > 0 && |fat| == v.nFatent
    && (forall i :: 0 <= i < |cs| ==> InRange(v, cs[i]))
    && (forall i :: 0 <= i < |cs| - 1 ==> fat[cs[i]] % Capacity(v) == cs[i + 1])
  }

  /** Cluster c, the i-th of its chain, holds its share of the data: sector after sector, from
      the first sector of the cluster on; cluster 2 is the first of the data area. */
  ghost predicate HoldsShare(img: Image, v: Volume, c: Word, data: seq<Byte>, i: nat)
    requires v.csize > 0
  {
    forall k :: 0 <= k < v.csize * 512 && i * (v.csize * 512) + k < |data| ==>
      img((v.database + (c - 2) * v.csize + k / 512) % TWO_32)[k % 512] == data[i * (v.csize * 512) + k]
  }

  ghost predicate StoredIn(img: Image, v: Volume, cs: seq<Word>, data: seq<Byte>)
    requires v.csize > 0
  {
    |data| <= |cs| * (v.csize * 512) && forall i :: 0 <= i < |cs| ==> HoldsShare(img, v, cs[i], data, i)
  }

  lemma {:induction false} NthOfChain(img: Image, v: Volume, fat: seq<Word>, cs: seq<Word>, i: nat)
    requires FatHolds(img, v, fat) && ChainOf(v, fat, cs) && i < |cs|
    ensures Nth(img, v, cs[0], i) == cs[i]
  {
    if i > 0 {
      hide FatHolds, FatEntry;
      NthOfChain(img, v, fat, cs, i - 1);
      TableBack(img, v, fat, cs[i - 1]);
      assert fat[cs[i - 1]] % Capacity(v) == cs[i];
    }
  }

  lemma IndexInChain(v: Volume, n: nat, q: nat)
    requires v.csize > 0 && q < n * (v.csize * 512)
    ensures ClusterIndex(v, q) < n && ClusterIndex(v, q) * (v.csize * 512) <= q
    ensures var k := q - ClusterIndex(v, q) * (v.csize * 512);
            k < v.csize * 512 && k / 512 == q / 512 % v.csize && k % 512 == q % 512
  {
    var b := v.csize * 512;
    IndexByBytes(v, q);
    var k := q / b;
    assert q == b * k + q % b;
    if k >= n { Mul(n, k, b); }
    SectorInCluster(v, q, k, q % b);
  }

  lemma ChainReaches(img: Image, v: Volume, fat: seq<Word>, cs: seq<Word>, i: nat)
    requires FatHolds(img, v, fat) && ChainOf(v, fat, cs) && i < |cs|
    ensures Reaches(img, v, cs[0], i)
  {
    forall j | 0 <= j <= i
      ensures InRange(v, Nth(img, v, cs[0], j))
    {
      NthOfChain(img, v, fat, cs, j);
    }
  }

  /** What was stored in the clusters of a chain is the contents of the chain. */
  lemma ContentBack(img: Image, v: Volume, fat: seq<Word>, cs: seq<Word>, data: seq<Byte>)
    requires Sound(v) && FatHolds(img, v, fat) && ChainOf(v, fat, cs) && StoredIn(img, v, cs, data)
    ensures Content(img, v, cs[0], |data|) == data
    ensures forall q: nat :: q < |data| ==> Reaches(img, v, cs[0], ClusterIndex(v, q))
  {
    var s := Content(img, v, cs[0], |data|);
    forall q: nat | q < |data|
      ensures Reaches(img, v, cs[0], ClusterIndex(v, q)) && s[q] == data[q]
    {
      ByteBack(img, v, fat, cs, data, q);
    }
  }

  lemma ByteBack(img: Image, v: Volume, fat: seq<Word>, cs: seq<Word>, data: seq<Byte>, q: nat)
    requires Sound(v) && FatHolds(img, v, fat) && ChainOf(v, fat, cs) && StoredIn(img, v, cs, data) && q < |data|
    ensures Reaches(img, v, cs[0], ClusterIndex(v, q))
    ensures Content(img, v, cs[0], |data|)[q] == data[q]
  {
    var i, b := ClusterIndex(v, q), v.csize * 512;
    IndexInChain(v, |cs|, q);
    var k := q - i * b;
    ChainReaches(img, v, fat, cs, i);
    NthOfChain(img, v, fat, cs, i);
    hide FatHolds, Reaches, Content, Nth, ClusterIndex;
    ContentAt(img, v, cs[0], |data|, q);
    assert HoldsShare(img, v, cs[i], data, i);
    hide Sound, StoredIn;
    assert i * b + k == q;
    Small(ByteSector(img, v, cs[0], q), TWO_32);
  }

  // ---------- the root directory ----------

  /** The root directory is in its own area on FAT16, in a chain on FAT32. */
  ghost predicate RootHolds(img: Image, v: Volume, fat: seq<Word>, rootCs: seq<Word>, dir: seq<Byte>)
    requires v.csize > 0
  {
    if v.fsType == Fat16 then |dir| <= 32 * v.nRootdir && LiesAt(img, v.dirbase, dir)
    else ChainOf(v, fat, rootCs) && rootCs[0] == v.dirbase && StoredIn(img, v, rootCs, dir)
  }

  lemma RootEntry(img: Image, v: Volume, fat: seq<Word>, rootCs: seq<Word>, dir: seq<Byte>, i: nat)
    requires Sound(v) && FatHolds(img, v, fat) && RootHolds(img, v, fat, rootCs, dir)
    requires 32 * i + 32 <= |dir| && i <= 0xFFFF
    ensures PlaceOf(img, v, StartOf(v, 0), i).At?
    ensures EntryIn(img, PlaceOf(img, v, StartOf(v, 0), i).sector, i) == dir[32 * i..32 * i + 32]
  {
    if v.fsType == Fat16 {
      hide FatHolds;
      FixedEntry(img, v.dirbase, dir, i);
    } else {
      ContentBack(img, v, fat, rootCs, dir);
      assert 32 * i / 512 == i / 16;
      assert Reaches(img, v, v.dirbase, ClusterIndex(v, 32 * i));
      hide FatHolds, Reaches, Content, ChainOf, StoredIn;
      EntryIsContent(img, v, v.dirbase, i, |dir|);
    }
  }

  lemma FixedEntry(img: Image, first: Word, dir: seq<Byte>, i: nat)
    requires LiesAt(img, first, dir) && 32 * i + 32 <= |dir|
    ensures EntryIn(img, (first + i / 16) % TWO_32, i) == dir[32 * i..32 * i + 32]
  {
    var e, d := EntryIn(img, (first + i / 16) % TWO_32, i), dir[32 * i..32 * i + 32];
    forall j | 0 <= j < 32
      ensures e[j] == d[j]
    {
      DivModUnique(32 * i + j, 512, i / 16, i % 16 * 32 + j);
    }
  }

  // ---------- the file ----------

  /** Entry n of the root directory is a file with this name, and the first with it. */
  ghost predicate FirstFile(ds: seq<DirFields>, n: nat, name: Name) {
    && n < |ds| && n <= 0xFFFF
    && ds[n].name == name && ds[n].attr / 8 % 2 == 0 && ds[n].attr / 16 % 2 == 0
    && forall j :: 0 <= j < n ==> ds[j].name[0] != 0 && (ds[j].name != name || ds[j].attr / 8 % 2 == 1)
  }

  lemma EntryRead(img: Image, v: Volume, fat: seq<Word>, rootCs: seq<Word>, ds: seq<DirFields>, i: nat)
    requires Sound(v) && FatHolds(img, v, fat) && RootHolds(img, v, fat, rootCs, DirBytes(ds))
    requires i < |ds| && i <= 0xFFFF
    ensures PlaceOf(img, v, StartOf(v, 0), i).At?
    ensures EntryIn(img, PlaceOf(img, v, StartOf(v, 0), i).sector, i) == EntryBytes(ds[i])
  {
    hide FatHolds, RootHolds, EntryBytes, PlaceOf, EntryIn, DirBytes, Sound, StartOf;
    RootEntry(img, v, fat, rootCs, DirBytes(ds), i);
    DirBytesAt(ds, i);
  }

  /** The search in the root directory finds that entry. */
  lemma RootSearch(img: Image, v: Volume, fat: seq<Word>, rootCs: seq<Word>, ds: seq<DirFields>, n: nat, name: Name)
    requires Sound(v) && FatHolds(img, v, fat) && RootHolds(img, v, fat, rootCs, DirBytes(ds))
    requires FirstFile(ds, n, name) && name[0] != 0
    ensures FindIn(img, v, 0, name) == Found(EntryBytes(ds[n]))
  {
    var start := StartOf(v, 0);
    hide FatHolds, RootHolds, EntryBytes, DirBytes, PlaceOf, EntryIn, Matches;
    forall j | 0 <= j < n
      ensures Passed(img, v, start, name, j)
    {
      EntryRead(img, v, fat, rootCs, ds, j);
      EntryBack(v, ds[j], name);
    }
    EntryRead(img, v, fat, rootCs, ds, n);
    EntryBack(v, ds[n], name);
    FirstMatch(img, v, start, name, n, PlaceOf(img, v, start, n).sector);
  }

  /** A path of one 8.3 name. */
  lemma OneName(b: seq<Byte>)
    requires IsComponent(b) && Fits(b) && |b| > 0
    ensures CString(b + [0]) && Relative(b + [0]) == b + [0] && Names(b + [0]) == [Padded(b)]
    ensures (b + [0])[0] > SPACE && Padded(b)[0] != 0
  {
    var s := b + [0];
    assert s[0] == b[0] > SPACE && s[0] != SLASH;
    FittingSegment(b, s, [0]);
    hide FirstSegment, Padded, Fits, IsComponent;
    PaddedStarts(b);
  }

  lemma PaddedStarts(b: seq<Byte>)
    requires IsComponent(b) && Fits(b) && |b| > 0
    ensures Padded(b)[0] != 0
  {
    var n := Stem(b);
    if n > 0 { assert Padded(b)[0] == b[0]; } else { assert Padded(b)[0] == SPACE; }
  }

  /** A disk that was formatted with h, t and holds the file data under the 8.3 name b. */
  ghost predicate DiskWith(img: Image, v: Volume, fat: seq<Word>, rootCs: seq<Word>, ds: seq<DirFields>, n: nat,
                           b: seq<Byte>, cs: seq<Word>, data: seq<Byte>)
    requires v.csize > 0
  {
    && IsComponent(b) && Fits(b) && |b| > 0
    && FatHolds(img, v, fat) && RootHolds(img, v, fat, rootCs, DirBytes(ds)) && FirstFile(ds, n, Padded(b))
    && ChainOf(v, fat, cs) && StoredIn(img, v, cs, data)
    && ds[n].cluster == cs[0] && ds[n].size == |data|
  }

  /** The path names the entry. */
  lemma NameBack(img: Image, v: Volume, fat: seq<Word>, rootCs: seq<Word>, ds: seq<DirFields>, n: nat, b: seq<Byte>)
    requires Sound(v) && IsComponent(b) && Fits(b) && |b| > 0
    requires FatHolds(img, v, fat) && RootHolds(img, v, fat, rootCs, DirBytes(ds)) && FirstFile(ds, n, Padded(b))
    ensures CString(b + [0]) && FileAt(img, v, b + [0]) == Found(EntryBytes(ds[n]))
  {
    hide FatHolds, RootHolds, EntryBytes, DirBytes, FindIn, GetClust, FileSize, IsDirectory, FileAt, CString,
      Relative, Names, Padded, Fits, IsComponent, Matches, FirstFile;
    OneName(b);
    RootSearch(img, v, fat, rootCs, ds, n, Padded(b));
    PlainEntry(ds, n, Padded(b));
    EntryBack(v, ds[n], Padded(b));
    FoundByName(img, v, b + [0], Padded(b), EntryBytes(ds[n]));
  }

  /** The entry's cluster and size lead to the data. */
  lemma DataBack(img: Image, v: Volume, fat: seq<Word>, d: DirFields, cs: seq<Word>, data: seq<Byte>)
    requires Sound(v) && (v.fsType == Fat16 ==> v.nFatent <= 0x1_0000)
    requires FatHolds(img, v, fat) && ChainOf(v, fat, cs) && StoredIn(img, v, cs, data)
    requires d.cluster == cs[0] && d.size == |data|
    ensures var e: Entry := EntryBytes(d);
            && GetClust(v, e) == cs[0] && FileSize(e) == |data| && Intact(img, v, e)
            && Content(img, v, GetClust(v, e), FileSize(e)) == data
  {
    assert InRange(v, cs[0]);
    Small(cs[0], if cs[0] < 0x1_0000 then 0x1_0000 else TWO_32);
    EntryBack(v, d, d.name);
    ContentBack(img, v, fat, cs, data);
    hide FatHolds, EntryBytes, GetClust, FileSize, Content, Reaches, ChainOf, StoredIn, Matches, IsDirectory, Sound;
  }

  lemma PlainEntry(ds: seq<DirFields>, n: nat, name: Name)
    requires FirstFile(ds, n, name)
    ensures n < |ds| && ds[n].attr / 16 % 2 == 0
  {}

  lemma FoundByName(img: Image, v: Volume, path: seq<Byte>, name: Name, e: Entry)
    requires v.csize > 0 && CString(path) && Relative(path) == path && path[0] > SPACE && Names(path) == [name]
    requires FindIn(img, v, 0, name) == Found(e) && !IsDirectory(e)
    ensures FileAt(img, v, path) == Found(e)
  {
    hide FindIn, CString, Relative, Names, IsDirectory, Matches;
  }

  /** From a formatted disk to the bytes of the file: mount, open by name, read all of it. */
  method Load(fs: FatFs, ghost fat: seq<Word>, ghost rootCs: seq<Word>, ghost ds: seq<DirFields>, ghost n: nat,
              b: seq<Byte>, ghost cs: seq<Word>, ghost data: seq<Byte>, size: nat)
    returns (res: FResult, out: seq<seq<Byte>>)
    requires fs.drive.Valid() && OnDisk(fs.drive.image).Supported? && OnDisk(fs.drive.image).vol.csize > 0
    requires DiskWith(fs.drive.image, OnDisk(fs.drive.image).vol, fat, rootCs, ds, n, b, cs, data) && size == |data|
    modifies fs, fs.drive, fs.drive.buf
    ensures res == FR_OK && out == [data]
  {
    ghost var img := fs.drive.image;
    ghost var v := OnDisk(img).vol;
    SoundOnDisk(img);
    NameBack(img, v, fat, rootCs, ds, n, b);
    DataBack(img, v, fat, ds[n], cs, data);
    hide DiskWith, OnDisk, FileAt, Content, Intact, GetClust, FileSize, CString, EntryBytes, FatFs.Valid;
    var ok;
    res, ok, out := FromDisk(fs, b + [0], [DoRead(size)]);
    WholeFile(data);
  }

  lemma WholeFile(data: seq<Byte>)
    ensures Ideal(data, 0, [DoRead(|data|)]) == [data]
  {
    assert data[0..|data|] == data;
    assert Ideal(data, |data|, [DoRead(|data|)][1..]) == [];
  }

  lemma SoundOnDisk(img: Image)
    requires OnDisk(img).Supported?
    ensures var v := OnDisk(img).vol; Sound(v) && (v.fsType == Fat16 ==> v.nFatent <= 0x1_0000)
  {
    OnDiskIs(img);
    var start := VolumeStart(img);
    var b := BpbOf(img(start));
    hide OnDisk, BootKind, BpbOf, VolumeStart, Derive, Sound;
    Layout(b, start);
    TypeByCount(b, start);
  }
}
