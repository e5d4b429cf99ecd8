/** Mounting: finding the FAT volume on the disk and deriving its geometry
    (stage2/pff3a/source/pff.c). */
module FatMount {
  import opened Bits
  import opened Disk
  import opened FatSpec
  import opened FatFile

  // A divide exception is not an answer of pf_mount: the processor traps
  datatype Outcome = Answer(res: FResult) | DivideError

  datatype Geometry = Unsupported | Supported(vol: Volume)

  /** The fields of the boot record that pf_mount reads. */
  datatype Bpb = Bpb(secPerClus: Byte, rsvd: nat, numFats: Byte, rootEnts: nat, totSec: Word, fatSz: Word,
                     rootClus: Word)

  const SIGNATURE := 0xAA55
  const FA := 0x4146        // "FA", the first letters of the file system type

  // The check of a sector: 0 a FAT boot record, 1 another boot record, 2 no boot record
  function BootKind(s: Sector): (k: int)
    ensures 0 <= k <= 2
  {
    if LdWord(s[510..512]) != SIGNATURE then 2
    else if LdWord(s[54..56]) == FA || LdWord(s[82..84]) == FA then 0
    else 1
  }

  /** The signature 55 AA, and the letters "FA" in either place. */
  lemma KindInBytes(s: Sector)
    ensures BootKind(s) ==
      if s[510] != 0x55 || s[511] != 0xAA then 2
      else if (s[54] == 0x46 && s[55] == 0x41) || (s[82] == 0x46 && s[83] == 0x41) then 0
      else 1
  {
    assert s[510..512][0] == s[510] && s[510..512][1] == s[511];
    assert s[54..56][0] == s[54] && s[54..56][1] == s[55];
    assert s[82..84][0] == s[82] && s[82..84][1] == s[83];
  }

  /** Where the volume starts: sector 0, or the first partition when sector 0 is a boot
      record of another kind whose first partition entry is in use. */
  function VolumeStart(img: Image): Word {
    var mbr := img(0);
    if BootKind(mbr) == 1 && mbr[450] != 0 then LdDword(mbr[454..458]) else 0
  }

  function NonZero(a: Word, b: Word): Word { if a == 0 then b else a }

  function BpbOf(s: Sector): Bpb {
    Bpb(s[13], LdWord(s[14..16]), s[16], LdWord(s[17..19]), NonZero(LdWord(s[19..21]), LdDword(s[32..36])),
        NonZero(LdWord(s[22..24]), LdDword(s[36..40])), LdDword(s[44..48]))
  }

  // Unsigned subtraction
  function Sub(a: int, b: int): Word { (a - b) % TWO_32 }

  /** The geometry in 32-bit arithmetic, as pf_mount computes it. */
  function Derive(b: Bpb, bsect: Word): Geometry
    requires b.secPerClus > 0
  {
    var fats: Word := b.fatSz * b.numFats % TWO_32;
    var fatbase: Word := (bsect + b.rsvd) % TWO_32;
    var mclst: Word :=
      (Sub(Sub(Sub(b.totSec, b.rsvd), fats), b.rootEnts / 16) / b.secPerClus + 2) % TWO_32;
    var database: Word := (fatbase + fats + b.rootEnts / 16) % TWO_32;
    if 0xFF8 <= mclst < 0xFFF7 then
      Supported(Volume(Fat16, b.secPerClus, b.rootEnts, mclst, fatbase, (fatbase + fats) % TWO_32, database))
    else if mclst >= 0xFFF7 then
      Supported(Volume(Fat32, b.secPerClus, b.rootEnts, mclst, fatbase, b.rootClus, database))
    else Unsupported
  }

  // ---------- what the geometry means ----------

  // Sectors of all the copies of the FAT
  function FatArea(b: Bpb): nat { b.fatSz * b.numFats }

  function MetaSectors(b: Bpb): nat { b.rsvd + FatArea(b) + b.rootEnts / 16 }

  /** The count of clusters (FAT specification, section 3.5). */
  function Clusters(b: Bpb): nat
    requires b.secPerClus > 0 && MetaSectors(b) <= b.totSec
  {
    (b.totSec - MetaSectors(b)) / b.secPerClus
  }

  /** A boot record whose fields agree with one another (sections 3.1 to 3.5). */
  predicate Consistent(b: Bpb, bsect: Word) {
    && PowerOfTwo(b.secPerClus) && b.rsvd > 0 && b.numFats > 0
    && b.rootEnts < 0x1_0000 && b.rootEnts % 16 == 0
    && MetaSectors(b) <= b.totSec && bsect + b.totSec <= TWO_32
    && Clusters(b) < 0x0FFF_FFF5
    && (if Clusters(b) < 65525 then Clusters(b) + 2 <= b.fatSz * 256
        else Clusters(b) + 2 <= b.fatSz * 128 && b.rootEnts == 0)
  }

  /** pf_mount accepts a consistent volume exactly when it has more than 4085 clusters,
      with the type that the specification gives this count.  The specification makes the
      volume with exactly 4085 clusters FAT16; pf_mount refuses it. */
  lemma TypeByCount(b: Bpb, bsect: Word)
    requires Consistent(b, bsect)
    ensures var g, n := Derive(b, bsect), Clusters(b);
            && (g.Supported? <==> n > 4085)
            && (g.Supported? ==> g.vol.nFatent == n + 2 && g.vol.fsType == if n < 65525 then Fat16 else Fat32)
  {
    NoWrap(b, bsect);
  }

  /** The smallest FAT16 volume is refused; with one cluster more it is accepted. */
  lemma SmallestFat16Refused()
    ensures var b := Bpb(1, 1, 1, 512, 4134, 16, 0);
            Consistent(b, 0) && Clusters(b) == 4085 && Derive(b, 0) == Unsupported
    ensures var b := Bpb(1, 1, 1, 512, 4135, 16, 0);
            Consistent(b, 0) && Clusters(b) == 4086 && Derive(b, 0).Supported?
  {}

  // None of the 32-bit operations wraps
  lemma NoWrap(b: Bpb, bsect: Word)
    requires Consistent(b, bsect)
    ensures FatArea(b) < TWO_32 && FatArea(b) % TWO_32 == FatArea(b)
    ensures (bsect + b.rsvd) % TWO_32 == bsect + b.rsvd
    ensures Sub(Sub(Sub(b.totSec, b.rsvd), FatArea(b)), b.rootEnts / 16) == b.totSec - MetaSectors(b)
    ensures (Clusters(b) + 2) % TWO_32 == Clusters(b) + 2
  {
    DataSectors(b);
    hide FatArea, Clusters, PowerOfTwo, Sub;
    InOneWord(bsect + b.rsvd);
    InOneWord(Clusters(b) + 2);
    Subtractions(b.totSec, b.rsvd, FatArea(b), b.rootEnts / 16);
  }

  lemma InOneWord(x: int)
    requires 0 <= x < TWO_32
    ensures x % TWO_32 == x
  {}

  lemma Subtractions(x: Word, a: nat, b: nat, c: nat)
    requires a + b + c <= x
    ensures b % TWO_32 == b && Sub(Sub(Sub(x, a), b), c) == x - (a + b + c)
  {
    InOneWord(b);
    InOneWord(x - a);
    InOneWord(x - a - b);
    InOneWord(x - a - b - c);
  }

  lemma DataSectors(b: Bpb)
    requires PowerOfTwo(b.secPerClus) && MetaSectors(b) <= b.totSec
    ensures Clusters(b) * b.secPerClus <= b.totSec - MetaSectors(b)
    ensures Clusters(b) <= b.totSec
  {
    var d, c := b.totSec - MetaSectors(b), b.secPerClus;
    hide MetaSectors;
    assert d == c * (d / c) + d % c;
    Mul(1, c, d / c);
  }

  /** In the geometry of a FAT16 volume the root directory ends where the clusters begin. */
  predicate RootInPlace(v: Volume) {
    v.fsType == Fat16 ==> 0 < v.dirbase && v.dirbase + v.nRootdir / 16 == v.database
  }

  /** The areas of a mounted consistent volume follow one another: reserved sectors, FAT
      copies, root directory (FAT16), clusters; and they end inside the volume.  The first
      copy of the FAT holds the entry of every cluster. */
  lemma Layout(b: Bpb, bsect: Word)
    requires Consistent(b, bsect) && Derive(b, bsect).Supported?
    ensures var v := Derive(b, bsect).vol;
            && Sound(v) && RootInPlace(v)
            && v.csize == b.secPerClus && v.nRootdir == b.rootEnts && (v.fsType == Fat32 ==> v.dirbase == b.rootClus)
            && bsect < v.fatbase == bsect + b.rsvd && v.fatbase + FatSectors(v) <= v.fatbase + b.fatSz
            && v.fatbase + FatArea(b) + v.nRootdir / 16 == v.database
            && (v.fsType == Fat16 ==> v.dirbase == v.fatbase + FatArea(b))
            && v.database + (v.nFatent - 2) * v.csize <= bsect + b.totSec
  {
    AreasAt(b, bsect);
    FirstCopyHolds(b, bsect);
    ClustersFit(b, bsect);
    hide FatArea, Derive, Clusters, FatSectors, MetaSectors;
  }

  /** The sector of a FAT entry, the root directory and the sectors of a cluster lie in
      this order, apart from one another and inside the volume. */
  lemma SectorsApart(b: Bpb, bsect: Word, c: Word, d: Word, s: int)
    requires Consistent(b, bsect) && Derive(b, bsect).Supported?
    requires var v := Derive(b, bsect).vol; InRange(v, c) && InRange(v, d) && 0 <= s < v.csize
    ensures var v := Derive(b, bsect).vol;
            && bsect < FatSector(v, c) < v.database - v.nRootdir / 16
            && v.database <= ClusterSector(v, d) + s < bsect + b.totSec
  {
    Layout(b, bsect);
    AreasAt(b, bsect);
    FirstCopyHolds(b, bsect);
    var v := Derive(b, bsect).vol;
    hide Derive, FatArea;
    EntryInFat(v, c);
    ClusterInVolume(v, d, s);
  }

  // The first copy of the FAT holds the entry of every cluster
  lemma FirstCopyHolds(b: Bpb, bsect: Word)
    requires Consistent(b, bsect) && Derive(b, bsect).Supported?
    ensures FatSectors(Derive(b, bsect).vol) <= b.fatSz <= FatArea(b)
  {
    TypeByCount(b, bsect);
    Mul(1, b.numFats, b.fatSz);
    var v := Derive(b, bsect).vol;
    assert v.nFatent <= b.fatSz * PerSector(v);
    hide Derive, Clusters, FatArea, MetaSectors;
    assert v.nFatent + PerSector(v) - 1 < (b.fatSz + 1) * PerSector(v);
  }

  // The clusters end inside the volume
  lemma ClustersFit(b: Bpb, bsect: Word)
    requires Consistent(b, bsect) && Derive(b, bsect).Supported?
    ensures var v := Derive(b, bsect).vol;
            && PowerOfTwo(v.csize) && v.nRootdir == b.rootEnts && 4088 <= v.nFatent < 0x0FFF_FFF7
            && MetaSectors(b) + (v.nFatent - 2) * v.csize <= b.totSec
            && (v.nFatent - 2) * v.csize >= 0
  {
    TypeByCount(b, bsect);
    DataSectors(b);
    var v := Derive(b, bsect).vol;
    assert v.csize == b.secPerClus;
    hide Derive, Clusters, MetaSectors;
    Mul(1, v.csize, v.nFatent - 2);
  }

  lemma AreasAt(b: Bpb, bsect: Word)
    requires Consistent(b, bsect) && Derive(b, bsect).Supported?
    ensures var v := Derive(b, bsect).vol;
            && v.fatbase == bsect + b.rsvd
            && (v.fsType == Fat16 ==> v.dirbase == v.fatbase + FatArea(b))
            && v.database == v.fatbase + FatArea(b) + b.rootEnts / 16
  {
    NoWrap(b, bsect);
    DataSectors(b);
    assert bsect + MetaSectors(b) < TWO_32 by {
      TypeByCount(b, bsect);
      Mul(1, b.secPerClus, Clusters(b));
    }
    Small(bsect + b.rsvd + FatArea(b), TWO_32);
    Small(bsect + b.rsvd + FatArea(b) + b.rootEnts / 16, TWO_32);
  }

  // ---------- check_fs, pf_mount ----------

  /** disk_readp into the start of a buffer. */
  method Peek(drive: Drive, buf: array<Byte>, sect: Word, offset: nat, count: nat) returns (res: DResult)
    requires drive.Valid() && buf != drive.buf && count <= buf.Length && offset < 512 && offset + count <= 512
    requires drive.primed || sect != NO_SECTOR
    modifies drive, drive.buf, buf
    ensures drive.Valid() && drive.primed && res == RES_OK && |drive.log| == |old(drive.log)| + 1
    ensures buf[..count] == drive.image(sect)[offset..offset + count]
  {
    ghost var s := drive.image(sect);
    assert drive.Served(sect) == s;
    res := drive.ReadP(buf, 0, sect, offset, count);
    assert |s[offset..offset + count]| == count;
  }

  method CheckFs(drive: Drive, buf: array<Byte>, sect: Word) returns (fmt: int)
    requires drive.Valid() && buf != drive.buf && buf.Length >= 2
    requires drive.primed || sect != NO_SECTOR
    modifies drive, drive.buf, buf
    ensures drive.Valid() && drive.primed && fmt == BootKind(drive.image(sect))
    ensures var s := drive.image(sect);
      fmt == (if s[510] != 0x55 || s[511] != 0xAA then 2
              else if (s[54] == 0x46 && s[55] == 0x41) || (s[82] == 0x46 && s[83] == 0x41) then 0
              else 1)
  {
    KindInBytes(drive.image(sect));
    hide Drive.Valid, LdWord;
    var res := Peek(drive, buf, sect, 510, 2);
    if res != RES_OK { return 3; }
    if LdWord(buf[..2]) != SIGNATURE { return 2; }
    res := Peek(drive, buf, sect, 54, 2);
    if res == RES_OK && LdWord(buf[..2]) == FA { return 0; }
    res := Peek(drive, buf, sect, 82, 2);
    if res == RES_OK && LdWord(buf[..2]) == FA { return 0; }
    return 1;
  }

  /** pf_mount; `initialized` is the answer of disk_initialize.  It succeeds exactly when a
      FAT boot record with supported geometry is found; a boot record of 0 sectors per
      cluster divides by zero.  On a consistent volume the file system is then ready. */
  method Mount(fs: FatFs, initialized: bool) returns (out: Outcome)
    requires fs.drive.Valid()
    modifies fs`mounted, fs`isOpen, fs`vol, fs.drive, fs.drive.buf
    ensures fs.drive.Valid() && fs.mounted == (out == Answer(FR_OK))
    ensures !initialized ==> out == Answer(FR_NOT_READY)
    ensures initialized ==>
      var start := VolumeStart(fs.drive.image);
      var b := BpbOf(fs.drive.image(start));
      if BootKind(fs.drive.image(start)) != 0 then out == Answer(FR_NO_FILESYSTEM)
      else if b.secPerClus == 0 then out == DivideError
      else
        match Derive(b, start)
        case Unsupported => out == Answer(FR_NO_FILESYSTEM)
        case Supported(v) =>
          && out == Answer(FR_OK) && fs.vol == v && !fs.isOpen
          && (Consistent(b, start) ==> fs.Valid() && RootInPlace(v))
  {
    hide Drive.Valid, BootKind, LdWord, LdDword, Sound, RootInPlace, Consistent;
    fs.mounted := false;
    ghost var start := VolumeStart(fs.drive.image);
    if !initialized { return Answer(FR_NOT_READY); }
    var buf := new Byte[36];
    var bsect: Word := 0;
    var fmt := CheckFs(fs.drive, buf, bsect);
    if fmt == 1 {
      var res := Peek(fs.drive, buf, bsect, 446, 16);
      if res != RES_OK {
        fmt := 3;
      } else {
        ghost var mbr := fs.drive.image(0);
        Slice(mbr, 446, 462, 8, 12);
        assert buf[4] == buf[..16][4] && buf[8..12] == buf[..16][8..12];
        if buf[4] != 0 {
          bsect := LdDword(buf[8..12]);
          fmt := CheckFs(fs.drive, buf, bsect);
        }
      }
    }
    if fmt == 3 { return Answer(FR_DISK_ERR); }
    if fmt != 0 { return Answer(FR_NO_FILESYSTEM); }
    var res := Peek(fs.drive, buf, bsect, 13, 36);
    if res != RES_OK { return Answer(FR_DISK_ERR); }
    var b := LoadBpb(buf[..], fs.drive.image(bsect));
    if b.secPerClus == 0 { return DivideError; }
    var g := Derive(b, bsect);
    if g.Unsupported? { return Answer(FR_NO_FILESYSTEM); }
    fs.vol := g.vol;
    fs.isOpen := false;
    fs.mounted := true;
    if Consistent(b, bsect) { Layout(b, bsect); }
    return Answer(FR_OK);
  }

  // The fields, from the 36 bytes at offset 13
  method LoadBpb(buf: seq<Byte>, ghost s: Sector) returns (b: Bpb)
    requires |buf| == 36 && buf == s[13..49]
    ensures b == BpbOf(s)
  {
    hide LdWord, LdDword;
    var fsize := LdWord(buf[9..11]);
    if fsize == 0 { fsize := LdDword(buf[23..27]); }
    var tsect := LdWord(buf[6..8]);
    if tsect == 0 { tsect := LdDword(buf[19..23]); }
    b := Bpb(buf[0], LdWord(buf[1..3]), buf[3], LdWord(buf[4..6]), tsect, fsize, LdDword(buf[31..35]));
    Slice(s, 13, 49, 9, 11);
    Slice(s, 13, 49, 23, 27);
    Slice(s, 13, 49, 6, 8);
    Slice(s, 13, 49, 19, 23);
    Slice(s, 13, 49, 1, 3);
    Slice(s, 13, 49, 4, 6);
    Slice(s, 13, 49, 31, 35);
  }

  lemma Slice(s: seq<Byte>, a: nat, b: nat, i: nat, j: nat)
    requires i <= j <= b - a && b <= |s|
    ensures s[a..b][i..j] == s[a + i..a + j]
  {
    var x, y := s[a..b][i..j], s[a + i..a + j];
    assert |x| == |y| && forall k :: 0 <= k < |x| ==> x[k] == y[k];
  }
}
