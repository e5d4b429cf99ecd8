/** The file system object of Petit FatFs and the reading and seeking of an open file
    (stage2/pff3a/source/pff.c). */
module FatFile {
  import opened Bits
  import opened Disk
  import opened FatSpec

  datatype FResult = FR_OK | FR_DISK_ERR | FR_NOT_READY | FR_NO_FILE | FR_NOT_OPENED | FR_NOT_ENABLED
                   | FR_NO_FILESYSTEM

  function Min(a: int, b: int): int { if a <= b then a else b }

  /** The lazy cursor of an open file: the current cluster is that of the last byte before
      the file pointer, and inside a sector the current sector is that of the next byte. */
  ghost predicate CursorOk(img: Image, v: Volume, org: Word, fsize: Word, fptr: Word, curr: Word, dsect: Word)
    requires v.csize > 0
  {
    && fptr <= fsize
    && (fptr > 0 ==> Reaches(img, v, org, ClusterIndex(v, fptr - 1))
                     && curr == Nth(img, v, org, ClusterIndex(v, fptr - 1)))
    && (fptr % 512 != 0 ==> dsect == ByteSector(img, v, org, fptr))
  }

  /** Reading on within the sector of byte p keeps the cursor in order. */
  lemma CursorAdvances(img: Image, v: Volume, org: Word, fsize: Word, p: Word, n: nat, curr: Word, dsect: Word)
    requires v.csize > 0 && 0 < n <= fsize - p && p % 512 + n <= 512
    requires Reaches(img, v, org, ClusterIndex(v, p)) && curr == Nth(img, v, org, ClusterIndex(v, p))
    requires dsect == ByteSector(img, v, org, p)
    ensures CursorOk(img, v, org, fsize, p + n, curr, dsect)
    ensures ClusterIndex(v, p + n - 1) == ClusterIndex(v, p)
  {
    hide Reaches, Nth, ByteSector, ClusterIndex;
    SameSector(img, v, org, p, n - 1);
    if p % 512 + n < 512 {
      SameSector(img, v, org, p, n);
    } else {
      assert (p + n) % 512 == 0;
    }
  }

  /** The cluster of the next byte, on a sector boundary: the current one inside a
      cluster, the first of the chain at the top of the file, else the next of the chain. */
  lemma AtBoundary(img: Image, v: Volume, org: Word, fsize: Word, fptr: Word, curr: Word, dsect: Word)
    requires v.csize > 0 && fptr % 512 == 0 && CursorOk(img, v, org, fsize, fptr, curr, dsect)
    ensures var c := Nth(img, v, org, ClusterIndex(v, fptr));
            && c == (if fptr / 512 % v.csize != 0 then curr else if fptr == 0 then org else FatEntry(img, v, curr))
            && (Reaches(img, v, org, ClusterIndex(v, fptr)) <==> InRange(v, c))
            && (fptr / 512 % v.csize != 0 ==> InRange(v, c))
  {
    hide FatEntry, InRange;
    if fptr > 0 {
      IndexBefore(v, fptr);
      assert Reaches(img, v, org, ClusterIndex(v, fptr - 1));
    } else {
      DivModUnique(0, v.csize, 0, 0);
    }
  }

  /** Inside a sector the cursor stands where the next byte is. */
  lemma MidSector(img: Image, v: Volume, org: Word, fsize: Word, fptr: Word, curr: Word, dsect: Word)
    requires v.csize > 0 && CursorOk(img, v, org, fsize, fptr, curr, dsect)
    ensures fptr % 512 != 0 ==>
      && Reaches(img, v, org, ClusterIndex(v, fptr)) && curr == Nth(img, v, org, ClusterIndex(v, fptr))
      && dsect == ByteSector(img, v, org, fptr)
  {
    hide Reaches, Nth, ByteSector;
    if fptr > 0 { IndexBefore(v, fptr); }
  }

  lemma LocatedSector(img: Image, v: Volume, org: Word, p: nat, c: Word)
    requires v.csize > 0 && c == Nth(img, v, org, ClusterIndex(v, p))
    ensures ByteSector(img, v, org, p) == ClusterSector(v, c) + p / 512 % v.csize
  {}

  lemma LowNotInRange(v: Volume, c: Word)
    ensures c <= 1 ==> !InRange(v, c)
  {}

  // ---------- the requests that reach the disk ----------

  /** Within one sector, and that sector is in the FAT or in the data area. */
  ghost predicate GoodRequest(v: Volume, r: Request) {
    && r.offset + r.count <= 512
    && (IsDataSector(v, r.sector) || v.fatbase <= r.sector < v.fatbase + FatSectors(v))
  }

  ghost predicate Traffic(v: Volume, before: seq<Request>, after: seq<Request>) {
    && before <= after
    && forall k :: |before| <= k < |after| ==> GoodRequest(v, after[k])
  }

  lemma NoTraffic(v: Volume, log: seq<Request>)
    ensures Traffic(v, log, log)
  {}

  lemma Then(v: Volume, a: seq<Request>, b: seq<Request>, c: seq<Request>)
    requires Traffic(v, a, b) && Traffic(v, b, c)
    ensures Traffic(v, a, c)
  {}

  /** `after` is `before` with its first k bytes replaced by the k file bytes from p on. */
  ghost predicate Delivered(file: seq<Byte>, p: nat, k: nat, before: seq<Byte>, after: seq<Byte>) {
    && p + k <= |file| && k <= |before|
    && after == file[p..p + k] + before[k..]
  }

  // ... with k bytes at position `at` replaced
  ghost predicate Placed(file: seq<Byte>, p: nat, k: nat, at: nat, before: seq<Byte>, after: seq<Byte>) {
    && p + k <= |file| && at + k <= |before|
    && after == before[..at] + file[p..p + k] + before[at + k..]
  }

  // ---------- lemmas for pf_lseek ----------

  /** The cluster following loop stands at cluster k, with ofs bytes to go to offset o. */
  ghost predicate SeekAt(img: Image, v: Volume, org: Word, o: nat, fptr: nat, ofs: nat, clst: Word, k: nat) {
    && v.csize > 0 && o > 0 && ofs > 0 && fptr + ofs == o && fptr == k * ClusterBytes(v)
    && clst == Nth(img, v, org, k) && (k > 0 ==> Reaches(img, v, org, k))
  }

  lemma IndexAt(v: Volume, o: nat, fptr: nat, ofs: nat, k: nat)
    requires v.csize > 0 && ofs > 0 && fptr + ofs == o && fptr == k * ClusterBytes(v)
    ensures ofs <= ClusterBytes(v) ==> ClusterIndex(v, o - 1) == k
    ensures ofs > ClusterBytes(v) ==>
      ClusterIndex(v, o - 1) >= k + 1 && fptr + ClusterBytes(v) == (k + 1) * ClusterBytes(v)
  {
    var b := ClusterBytes(v);
    IndexByBytes(v, o - 1);
    if ofs <= b {
      DivModUnique(o - 1, b, k, ofs - 1);
    } else {
      DivModUnique((k + 1) * b, b, k + 1, 0);
      DivMonotone((k + 1) * b, o - 1, b);
    }
  }

  lemma SeekNext(img: Image, v: Volume, org: Word, o: nat, fptr: nat, ofs: nat, clst: Word, k: nat)
    requires SeekAt(img, v, org, o, fptr, ofs, clst, k) && ofs > ClusterBytes(v)
    ensures v.csize > 0 && o > 0 && fptr + ofs == o
    ensures var c := FatEntry(img, v, clst);
            && (InRange(v, c) ==> SeekAt(img, v, org, o, fptr + ClusterBytes(v), ofs - ClusterBytes(v), c, k + 1))
            && (!InRange(v, c) ==> !Reaches(img, v, org, ClusterIndex(v, o - 1)))
  {
    IndexAt(v, o, fptr, ofs, k);
    hide ClusterBytes, ClusterIndex;
    var c := FatEntry(img, v, clst);
    assert c == Nth(img, v, org, k + 1);
    if InRange(v, c) {
      assert InRange(v, clst);
      assert Reaches(img, v, org, k);
    }
  }

  lemma SeekEnd(img: Image, v: Volume, org: Word, o: nat, fptr: nat, ofs: nat, clst: Word, k: nat)
    requires SeekAt(img, v, org, o, fptr, ofs, clst, k) && ofs <= ClusterBytes(v)
    ensures k == ClusterIndex(v, o - 1) && fptr + ofs == o && clst == Nth(img, v, org, k)
    ensures Reaches(img, v, org, k) <==> InRange(v, clst)
  {
    IndexAt(v, o, fptr, ofs, k);
  }

  lemma StartAtTop(img: Image, v: Volume, org: Word, o: nat)
    requires v.csize > 0 && o > 0
    ensures SeekAt(img, v, org, o, 0, o, org, 0)
  {}

  lemma StartHere(img: Image, v: Volume, org: Word, fsize: Word, fptr: Word, curr: Word, dsect: Word, o: nat)
    requires PowerOfTwo(v.csize) && CursorOk(img, v, org, fsize, fptr, curr, dsect) && fptr > 0 && o > 0
    requires (o - 1) / (v.csize * 512) >= (fptr - 1) / (v.csize * 512)
    ensures var start := ClusterStart(fptr - 1, v.csize);
            start < o && SeekAt(img, v, org, o, start, o - start, curr, ClusterIndex(v, fptr - 1))
  {
    IndexByBytes(v, fptr - 1);
    StartBefore(fptr - 1, o - 1, v.csize);
    hide ClusterIndex, Reaches, Nth, ClusterStart;
  }

  // The start of the cluster of byte q, when byte p is in the same or a later one
  lemma StartBefore(q: Word, p: nat, c: int)
    requires PowerOfTwo(c) && p / (c * 512) >= q / (c * 512)
    ensures ClusterStart(q, c) == q / (c * 512) * (c * 512) <= p
  {
    assert c * 512 > 0 && ClusterStart(q, c) == q - q % (c * 512);
    hide PowerOfTwo, ClusterStart;
    Floors(q, p, c * 512);
  }

  lemma Floors(q: nat, p: nat, b: nat)
    requires b > 0 && p / b >= q / b
    ensures q - q % b == q / b * b <= p
  {
    assert q == b * (q / b) + q % b && p == b * (p / b) + p % b;
    Mul(q / b, p / b, b);
  }

  /** The sector pf_lseek leaves in dsect. */
  function SeekSector(img: Image, v: Volume, org: Word, o: nat): int
    requires v.csize > 0 && o > 0
  {
    ClusterSector(v, Nth(img, v, org, ClusterIndex(v, o - 1))) + o / 512 % v.csize
  }

  lemma SeekSectorOf(img: Image, v: Volume, org: Word, o: nat)
    requires v.csize > 0 && o > 0
    ensures SeekSector(img, v, org, o) ==
      ClusterSector(v, Nth(img, v, org, ClusterIndex(v, o - 1))) + o / 512 % v.csize
  {}

  lemma SeekInvariant(img: Image, v: Volume, org: Word, fsize: Word, o: Word, curr: Word, dsect: Word)
    requires v.csize > 0 && 0 < o <= fsize && Reaches(img, v, org, ClusterIndex(v, o - 1))
    requires curr == Nth(img, v, org, ClusterIndex(v, o - 1)) && dsect == SeekSector(img, v, org, o)
    ensures CursorOk(img, v, org, fsize, o, curr, dsect)
  {
    IndexBefore(v, o);
  }

  // A chunk of r bytes after the first k
  lemma JoinChunks(file: seq<Byte>, data: seq<Byte>, before: seq<Byte>, after: seq<Byte>, p: nat, k: nat, r: nat)
    requires p + k + r <= |file| && k + r <= |data|
    requires Delivered(file, p, k, data, before) && Placed(file, p + k, r, k, before, after)
    ensures Delivered(file, p, k + r, data, after)
  {}

  lemma FatRequest(v: Volume, log: seq<Request>, r: Request)
    requires r.offset + r.count <= 512 && v.fatbase <= r.sector < v.fatbase + FatSectors(v)
    ensures Traffic(v, log, log + [r])
  {}

  lemma DataRequest(v: Volume, log: seq<Request>, r: Request)
    requires r.offset + r.count <= 512 && IsDataSector(v, r.sector)
    ensures Traffic(v, log, log + [r])
  {}

  lemma PlacedIs(file: seq<Byte>, p: nat, n: nat, at: nat, before: seq<Byte>, piece: seq<Byte>)
    requires p + n <= |file| && at + n <= |before| && piece == file[p..p + n]
    ensures Placed(file, p, n, at, before, before[..at] + piece + before[at + n..])
  {}

  class FatFs {
    const drive: Drive
    var mounted: bool      // FatFs != 0
    var isOpen: bool       // flag & FA_OPENED
    var vol: Volume        // fs_type, csize, n_rootdir, n_fatent, fatbase, dirbase, database
    var fptr: Word
    var fsize: Word
    var orgClust: Word
    var currClust: Word
    var dsect: Word

    constructor (drive: Drive)
      ensures this.drive == drive && !mounted && !isOpen
    {
      this.drive := drive;
      mounted, isOpen, vol := false, false, Volume(Fat16, 0, 0, 0, 0, 0, 0);
      fptr, fsize, orgClust, currClust, dsect := 0, 0, 0, 0, 0;
    }

    /** A mounted volume with sound geometry, behind a cache that holds a sector. */
    ghost predicate Ready()
      reads this`vol, this`mounted, drive, drive.buf
    {
      mounted && drive.Valid() && drive.primed && Sound(vol)
    }

    ghost predicate Valid()
      reads this, drive, drive.buf
    {
      Ready() && (isOpen ==> CursorOk(drive.image, vol, orgClust, fsize, fptr, currClust, dsect))
    }

    /** The contents of the open file. */
    ghost function Bytes(): (s: seq<Byte>)
      requires vol.csize > 0
      reads this
      ensures |s| == fsize
    {
      Content(drive.image, vol, orgClust, fsize)
    }

    // ---------- get_fat, clust2sect ----------

    method GetFat(clst: Word) returns (r: Word)
      requires Ready()
      modifies drive, drive.buf
      ensures Ready() && r == FatEntry(drive.image, vol, clst)
      ensures r == if 2 <= clst < vol.nFatent then RawEntry(drive.image, vol, clst) else 1
      ensures Traffic(vol, old(drive.log), drive.log) && |drive.log| <= |old(drive.log)| + 1
    {
      EntryInBytes(drive.image, vol, clst);
      hide Sound, Traffic, FatEntry, RawEntry;
      NoTraffic(vol, drive.log);
      if clst < 2 || clst >= vol.nFatent { return 1; }
      match vol.fsType {
        case Fat16 => r := LoadEntry16(clst);
        case Fat32 => r := LoadEntry32(clst);
      }
    }

    method LoadEntry16(clst: Word) returns (r: Word)
      requires Ready() && InRange(vol, clst) && vol.fsType == Fat16
      modifies drive, drive.buf
      ensures Ready() && r == FatEntry(drive.image, vol, clst)
      ensures Traffic(vol, old(drive.log), drive.log) && |drive.log| == |old(drive.log)| + 1
    {
      EntryInFat(vol, clst);
      hide Sound, Traffic, FatSectors, LdWord, Ready;
      var buf := new Byte[4];
      LoadFat(buf, (vol.fatbase + clst / 256) % TWO_32, clst % 256 * 2, 2);
      r := LdWord(buf[..2]);
    }

    method LoadEntry32(clst: Word) returns (r: Word)
      requires Ready() && InRange(vol, clst) && vol.fsType == Fat32
      modifies drive, drive.buf
      ensures Ready() && r == FatEntry(drive.image, vol, clst)
      ensures Traffic(vol, old(drive.log), drive.log) && |drive.log| == |old(drive.log)| + 1
    {
      EntryInFat(vol, clst);
      hide Sound, Traffic, FatSectors, LdDword, Low28, Ready;
      var buf := new Byte[4];
      LoadFat(buf, (vol.fatbase + clst / 128) % TWO_32, clst % 128 * 4, 4);
      r := Low28(LdDword(buf[..4]));
    }

    // A request inside the FAT
    method LoadFat(buf: array<Byte>, sector: Word, offset: nat, n: nat)
      requires Ready() && buf != drive.buf && n <= buf.Length && offset + n <= 512 && offset < 512
      requires vol.fatbase <= sector < vol.fatbase + FatSectors(vol)
      modifies drive, drive.buf, buf
      ensures Ready() && buf[..n] == drive.image(sector)[offset..offset + n]
      ensures Traffic(vol, old(drive.log), drive.log) && |drive.log| == |old(drive.log)| + 1
    {
      FatRequest(vol, drive.log, Request(sector, offset, n));
      hide Sound, Traffic, FatSectors;
      ghost var s := drive.image(sector);
      assert drive.Served(sector) == s;
      var res := drive.ReadP(buf, 0, sector, offset, n);
      assert |s[offset..offset + n]| == n;
    }

    /** The first sector of a cluster; 0 exactly for a number that is not a cluster. */
    function Clust2Sect(clst: Word): (r: Word)
      reads this`vol
      requires Sound(vol)
      ensures r == if InRange(vol, clst) then ClusterSector(vol, clst) else 0
      ensures InRange(vol, clst) <==> r != 0
    {
      var c := (clst - 2 + TWO_32) % TWO_32;
      if c >= vol.nFatent - 2 then 0
      else
        ClusterInVolume(vol, clst, 0);
        (c * vol.csize + vol.database) % TWO_32
    }

    /** The first cluster lies at the start of the data area, and each one csize sectors
        behind the one before. */
    lemma ClustersInOrder(c: Word)
      requires Sound(vol) && 2 <= c < vol.nFatent
      ensures Clust2Sect(2) == vol.database
      ensures c + 1 < vol.nFatent ==> Clust2Sect(c + 1) == Clust2Sect(c) + vol.csize
    {
      hide Sound;
    }

    // ---------- pf_read ----------

    /** On a sector boundary: finds the sector of the next byte.  It exists exactly when
        the chain reaches the byte's cluster. */
    method Locate() returns (ok: bool)
      requires Valid() && isOpen && fptr % 512 == 0
      modifies this`currClust, this`dsect, drive, drive.buf
      ensures Ready() && Traffic(vol, old(drive.log), drive.log)
      ensures ok <==> Reaches(drive.image, vol, orgClust, ClusterIndex(vol, fptr))
      ensures ok ==>
        && currClust == Nth(drive.image, vol, orgClust, ClusterIndex(vol, fptr))
        && dsect == ByteSector(drive.image, vol, orgClust, fptr)
    {
      assert PowerOfTwo(vol.csize);
      hide Sound, Traffic, ClusterSector, IsDataSector, Nth, Reaches, ByteSector, ClusterIndex, CursorOk, InRange;
      NoTraffic(vol, drive.log);
      ghost var v, k := vol, ClusterIndex(vol, fptr);
      AtBoundary(drive.image, v, orgClust, fsize, fptr, currClust, dsect);
      var cs := ClusterMask(fptr / 512, vol.csize);
      if cs == 0 {
        var clst;
        if fptr == 0 {
          clst := orgClust;
        } else {
          clst := GetFat(currClust);
        }
        LowNotInRange(v, clst);
        if clst <= 1 { return false; }
        currClust := clst;
      }
      assert currClust == Nth(drive.image, v, orgClust, k);
      var sect := Clust2Sect(currClust);
      if sect == 0 { return false; }
      ClusterInVolume(v, currClust, cs);
      LocatedSector(drive.image, v, orgClust, fptr, currClust);
      dsect := sect + cs;
      return true;
    }

    // One round of the loop of pf_read, up to the end of the sector or of the request
    method ReadChunk(buff: array?<Byte>, at: nat, btr: nat) returns (ok: bool, rcnt: nat)
      requires Valid() && isOpen && 0 < btr <= fsize - fptr
      requires buff != drive.buf && (buff != null ==> at + btr <= buff.Length)
      modifies this`fptr, this`currClust, this`dsect, drive, drive.buf, buff
      ensures Ready() && Traffic(vol, old(drive.log), drive.log)
      ensures ok <==> buff != null && Reaches(drive.image, vol, orgClust, ClusterIndex(vol, old(fptr)))
      ensures ok ==>
        && Valid() && 0 < rcnt <= btr && fptr == old(fptr) + rcnt
        && Placed(Bytes(), old(fptr), rcnt, at, old(buff[..]), buff[..])
      ensures !ok ==> fptr == old(fptr) && (buff != null ==> buff[..] == old(buff[..]))
    {
      assert vol.csize > 0;
      hide Sound, Traffic, ClusterSector, IsDataSector, FatSectors, Nth, Reaches, ByteSector, Content, ClusterIndex,
        CursorOk, Placed;
      ghost var v, p := vol, fptr;
      NoTraffic(v, drive.log);
      rcnt := 0;
      MidSector(drive.image, v, orgClust, fsize, fptr, currClust, dsect);
      if fptr % 512 == 0 {
        ok := Locate();
        if !ok { return; }
      }
      ghost var log1 := drive.log;
      rcnt := Min(512 - fptr % 512, btr);
      ok := Transfer(buff, at, rcnt);
      Then(v, old(drive.log), log1, drive.log);
    }

    // The copy out of the located sector
    method Transfer(buff: array?<Byte>, at: nat, n: nat) returns (ok: bool)
      requires Ready() && 0 < n <= fsize - fptr && fptr % 512 + n <= 512
      requires Reaches(drive.image, vol, orgClust, ClusterIndex(vol, fptr))
      requires currClust == Nth(drive.image, vol, orgClust, ClusterIndex(vol, fptr))
      requires dsect == ByteSector(drive.image, vol, orgClust, fptr)
      requires buff != drive.buf && (buff != null ==> at + n <= buff.Length)
      modifies this`fptr, drive, drive.buf, buff
      ensures Ready() && Traffic(vol, old(drive.log), drive.log)
      ensures ok <==> buff != null
      ensures ok ==>
        && CursorOk(drive.image, vol, orgClust, fsize, fptr, currClust, dsect)
        && fptr == old(fptr) + n
        && Placed(Bytes(), old(fptr), n, at, old(buff[..]), buff[..])
      ensures !ok ==> fptr == old(fptr)
    {
      assert vol.csize > 0;
      hide Sound, Traffic, ClusterSector, IsDataSector, FatSectors, Nth, Reaches, ByteSector, Content, ClusterIndex,
        CursorOk;
      ghost var v, p := vol, fptr;
      ContentRun(drive.image, v, orgClust, fsize, p, n);
      DataRequest(v, drive.log, Request(dsect, p % 512, n));
      CursorAdvances(drive.image, v, orgClust, fsize, p, n, currClust, dsect);
      ghost var file, piece := Bytes(), drive.image(dsect)[p % 512..p % 512 + n];
      hide Placed, Min, Drive.Valid;
      assert drive.Served(dsect) == drive.image(dsect);
      hide Drive.Served;
      var res := drive.ReadP(buff, at, dsect, fptr % 512, n);
      if res != RES_OK { return false; }
      PlacedIs(file, p, n, at, old(buff[..]), piece);
      fptr := fptr + n;
      return true;
    }

    /** pf_read.  n bytes are due: those asked for, or those left in the file.  They are
        delivered exactly when there is a buffer and the chain reaches the last of them;
        otherwise the bytes before the break are delivered and the file is closed. */
    method Read(buff: array?<Byte>, btr: nat) returns (res: FResult, br: nat)
      requires mounted ==> Valid()
      requires buff != drive.buf
      requires buff != null && mounted && isOpen ==> Min(btr, fsize - fptr) <= buff.Length
      modifies this`isOpen, this`fptr, this`currClust, this`dsect, drive, drive.buf, buff
      ensures !mounted ==> res == FR_NOT_ENABLED && br == 0
      ensures mounted && !old(isOpen) ==> res == FR_NOT_OPENED && br == 0 && !isOpen
      ensures mounted ==> Valid() && Traffic(vol, old(drive.log), drive.log)
      ensures mounted && old(isOpen) ==>
        var p, n := old(fptr), Min(btr, fsize - old(fptr));
        && br <= n && fptr == p + br
        && (buff != null ==> Delivered(Bytes(), p, br, old(buff[..]), buff[..]))
        && (res == FR_OK <==> br == n) && isOpen == (res == FR_OK)
        && (res == FR_OK || res == FR_DISK_ERR)
        && (res == FR_OK <==>
             n == 0 || (buff != null && Reaches(drive.image, vol, orgClust, ClusterIndex(vol, p + n - 1))))
    {
      hide Sound, Traffic, Reaches, Nth, ByteSector, Content, ClusterIndex, CursorOk, Delivered, Ready;
      br := 0;
      if !mounted { return FR_NOT_ENABLED, 0; }
      NoTraffic(vol, drive.log);
      if !isOpen { return FR_NOT_OPENED, 0; }
      var remain := Remaining();
      br := ReadBytes(buff, Min(btr, remain), if buff != null then buff[..] else []);
      res := if isOpen then FR_OK else FR_DISK_ERR;
    }

    // Bytes of the open file that are left
    method Remaining() returns (n: nat)
      requires Valid() && isOpen
      ensures vol.csize > 0 && fptr <= fsize && n == fsize - fptr
    {
      n := fsize - fptr;
    }

    // pf_read for n bytes that the file still has
    method ReadBytes(buff: array?<Byte>, n: nat, ghost data0: seq<Byte>) returns (br: nat)
      requires Valid() && isOpen && vol.csize > 0 && n <= fsize - fptr
      requires buff != drive.buf && (buff != null ==> n <= buff.Length && data0 == buff[..])
      modifies this`isOpen, this`fptr, this`currClust, this`dsect, drive, drive.buf, buff
      ensures Valid() && Transferred(buff, br, n, old(fptr), data0, old(drive.log))
    {
      hide Sound, Traffic, Reaches, Nth, ByteSector, Content, ClusterIndex, CursorOk, Progress, Delivered, Missing,
        Ready, Transferred;
      ghost var p, log0 := fptr, drive.log;
      Began(buff, data0);
      br := ReadLoop(buff, n, data0, log0);
      Stopped(buff, br, n, p, data0, log0);
    }

    /** What pf_read has done: br of the n bytes from p on are delivered, and the file stays
        open exactly when they are all, which they are when the chain reaches the last. */
    ghost predicate Transferred(buff: array?<Byte>, br: nat, n: nat, p: nat, data0: seq<Byte>, log0: seq<Request>)
      reads this, drive, buff
    {
      && vol.csize > 0 && Traffic(vol, log0, drive.log)
      && br <= n && fptr == p + br && isOpen == (br == n)
      && (buff != null ==> Delivered(Bytes(), p, br, data0, buff[..]))
      && (isOpen == (n == 0 || (buff != null && Reaches(drive.image, vol, orgClust, ClusterIndex(vol, p + n - 1)))))
    }

    // The loop of pf_read, for n bytes that the file still has
    method ReadLoop(buff: array?<Byte>, n: nat, ghost data0: seq<Byte>, ghost log0: seq<Request>) returns (br: nat)
      requires Valid() && isOpen && n <= fsize - fptr
      requires buff != drive.buf && (buff != null ==> n <= buff.Length == |data0|)
      requires Progress(buff, 0, fptr, data0, log0)
      modifies this`isOpen, this`fptr, this`currClust, this`dsect, drive, drive.buf, buff
      ensures Valid() && Progress(buff, br, old(fptr), data0, log0)
      ensures br <= n && fptr == old(fptr) + br
      ensures isOpen ==> br == n
      ensures !isOpen ==> br < n && Missing(buff)
    {
      hide Progress, Traffic, Delivered, Reaches, Nth, CursorOk, ClusterIndex, Sound, Ready, Missing;
      ghost var p := fptr;
      br := 0;
      var left := n;
      while isOpen && left > 0
        invariant Progress(buff, br, p, data0, log0) && br + left == n
        invariant Valid() && fptr == p + br
        invariant !isOpen ==> left > 0 && Missing(buff)
        decreases isOpen, left
      {
        var rcnt := ReadRound(buff, br, left, p, data0, log0);
        left := left - rcnt;
        br := br + rcnt;
      }
    }

    // There is nowhere to copy the next byte to, or no cluster that holds it
    ghost predicate Missing(buff: array?<Byte>)
      reads this
    {
      && vol.csize > 0
      && (buff == null || !Reaches(drive.image, vol, orgClust, ClusterIndex(vol, fptr)))
    }

    lemma BrokenBefore(buff: array?<Byte>, q: nat)
      requires vol.csize > 0 && Missing(buff) && fptr <= q
      ensures buff == null || !Reaches(drive.image, vol, orgClust, ClusterIndex(vol, q))
    {
      if Reaches(drive.image, vol, orgClust, ClusterIndex(vol, q)) {
        ReachesMonotone(drive.image, vol, orgClust, fptr, q);
      }
    }

    /** br bytes from p on have been delivered; data0 and log0 are the buffer and the
        requests before. */
    ghost predicate Progress(buff: array?<Byte>, br: nat, p: nat, data0: seq<Byte>, log0: seq<Request>)
      reads this, drive, buff
    {
      && vol.csize > 0 && Traffic(vol, log0, drive.log)
      && (buff != null ==> Delivered(Bytes(), p, br, data0, buff[..]))
      && (buff == null ==> br == 0)
    }

    lemma Began(buff: array?<Byte>, data0: seq<Byte>)
      requires vol.csize > 0 && fptr <= fsize && (buff != null ==> data0 == buff[..])
      ensures Progress(buff, 0, fptr, data0, drive.log)
    {
      hide Content;
    }

    // What is known when the loop ends
    lemma Stopped(buff: array?<Byte>, br: nat, n: nat, p: nat, data0: seq<Byte>, log0: seq<Request>)
      requires Valid() && Progress(buff, br, p, data0, log0) && br <= n && fptr == p + br
      requires isOpen ==> br == n
      requires !isOpen ==> br < n && Missing(buff)
      ensures Transferred(buff, br, n, p, data0, log0)
    {
      hide Ready, Traffic, Delivered, Reaches, Nth, ByteSector, ClusterIndex, Content;
      if !isOpen {
        hide Missing;
        BrokenBefore(buff, p + n - 1);
      }
    }

    // One round of the loop; a failure closes the file
    method ReadRound(buff: array?<Byte>, br: nat, left: nat, ghost p: nat, ghost data0: seq<Byte>,
                     ghost log0: seq<Request>)
      returns (rcnt: nat)
      requires Valid() && isOpen && 0 < left <= fsize - fptr && fptr == p + br
      requires buff != drive.buf && (buff != null ==> br + left <= buff.Length == |data0|)
      requires Progress(buff, br, p, data0, log0)
      modifies this`isOpen, this`fptr, this`currClust, this`dsect, drive, drive.buf, buff
      ensures Valid() && fptr == old(fptr) + rcnt && Progress(buff, br + rcnt, p, data0, log0)
      ensures isOpen ==> 0 < rcnt <= left
      ensures !isOpen ==> rcnt == 0 && Missing(buff)
    {
      hide Sound, Traffic, Reaches, Nth, ByteSector, Content, ClusterIndex, CursorOk, Delivered, Placed, Ready;
      ghost var log1, data1 := drive.log, if buff != null then buff[..] else [];
      var ok;
      ok, rcnt := ReadChunk(buff, br, left);
      Then(vol, log0, log1, drive.log);
      if ok {
        JoinChunks(Bytes(), data0, data1, buff[..], p, br, rcnt);
      } else {
        isOpen := false;
        rcnt := 0;
      }
    }

    // ---------- pf_lseek ----------

    /** pf_lseek.  The cursor it leaves is a function of the (clipped) offset alone, also
        when it starts from the current cluster instead of the first; it exists exactly
        when the chain reaches the byte before the offset, and otherwise the file is
        closed. */
    method Lseek(offset: Word) returns (res: FResult)
      requires mounted ==> Valid()
      modifies this`isOpen, this`fptr, this`currClust, this`dsect, drive, drive.buf
      ensures !mounted ==> res == FR_NOT_ENABLED
      ensures mounted && !old(isOpen) ==> res == FR_NOT_OPENED && !isOpen
      ensures mounted ==> Valid() && Traffic(vol, old(drive.log), drive.log)
      ensures mounted && old(isOpen) ==>
        var o := Min(offset, fsize);
        && isOpen == (res == FR_OK) && (res == FR_OK || res == FR_DISK_ERR)
        && (res == FR_OK <==> o == 0 || Reaches(drive.image, vol, orgClust, ClusterIndex(vol, o - 1)))
        && (res == FR_OK ==> fptr == o)
        && (res == FR_OK && o > 0 ==>
              && currClust == Nth(drive.image, vol, orgClust, ClusterIndex(vol, o - 1))
              && dsect == SeekSector(drive.image, vol, orgClust, o))
    {
      if !mounted { return FR_NOT_ENABLED; }
      NoTraffic(vol, drive.log);
      if !isOpen { return FR_NOT_OPENED; }
      var ofs := Min(offset, fsize);
      if ofs == 0 {
        fptr := 0;
        return FR_OK;
      }
      var ok := SeekTo(ofs);
      if !ok { isOpen := false; return FR_DISK_ERR; }
      SeekInvariant(drive.image, vol, orgClust, fsize, ofs, currClust, dsect);
      return FR_OK;
    }

    // The body of pf_lseek for an offset above 0
    method SeekTo(o: Word) returns (ok: bool)
      requires Valid() && isOpen && 0 < o <= fsize
      modifies this`fptr, this`currClust, this`dsect, drive, drive.buf
      ensures Ready() && vol.csize > 0 && Traffic(vol, old(drive.log), drive.log)
      ensures ok <==> Reaches(drive.image, vol, orgClust, ClusterIndex(vol, o - 1))
      ensures ok ==>
        && fptr == o
        && currClust == Nth(drive.image, vol, orgClust, ClusterIndex(vol, o - 1))
        && dsect == SeekSector(drive.image, vol, orgClust, o)
    {
      assert vol.csize > 0;
      hide Sound, Traffic, Reaches, Nth, ClusterIndex, ClusterSector, SeekSector, CursorOk, SeekAt;
      var ofs, clst;
      ghost var k;
      ofs, clst, k := SeekStart(o);
      ok, ofs, clst, k := FollowChain(o, ofs, clst, k);
      if ok {
        ok := Arrive(o, ofs, clst, k);
      }
    }

    // The start: the current cluster for the same or a following one, else the first
    method SeekStart(o: Word) returns (ofs: nat, clst: Word, ghost k: nat)
      requires Valid() && isOpen && 0 < o <= fsize
      modifies this`fptr, this`currClust
      ensures Ready() && vol.csize > 0 && currClust == clst
      ensures SeekAt(drive.image, vol, orgClust, o, fptr, ofs, clst, k)
    {
      assert PowerOfTwo(vol.csize);
      hide Sound, Reaches, Nth, ClusterIndex, CursorOk, SeekAt;
      k := 0;
      var bcs := vol.csize * 512;
      var ifptr := fptr;
      ofs := o;
      fptr := 0;
      if ifptr > 0 && (o - 1) / bcs >= (ifptr - 1) / bcs {
        fptr := ClusterStart(ifptr - 1, vol.csize);
        k := ClusterIndex(vol, ifptr - 1);
        StartHere(drive.image, vol, orgClust, fsize, ifptr, currClust, dsect, o);
        ofs := ofs - fptr;
        clst := currClust;
      } else {
        clst := orgClust;
        currClust := clst;
        StartAtTop(drive.image, vol, orgClust, o);
      }
    }

    // The end: the offset is in the cluster reached
    method Arrive(ghost o: Word, ofs: nat, clst: Word, ghost k: nat) returns (ok: bool)
      requires Ready() && vol.csize > 0 && o > 0
      requires SeekAt(drive.image, vol, orgClust, o, fptr, ofs, clst, k) && ofs <= ClusterBytes(vol)
      modifies this`fptr, this`dsect
      ensures Ready() && (ok <==> Reaches(drive.image, vol, orgClust, ClusterIndex(vol, o - 1)))
      ensures clst == Nth(drive.image, vol, orgClust, ClusterIndex(vol, o - 1))
      ensures ok ==> fptr == o && dsect == SeekSector(drive.image, vol, orgClust, o)
    {
      assert PowerOfTwo(vol.csize);
      hide Sound, Reaches, Nth, ClusterIndex, ClusterSector, InRange, IsDataSector, ClusterBytes, SeekAt;
      SeekEnd(drive.image, vol, orgClust, o, fptr, ofs, clst, k);
      fptr := fptr + ofs;
      var sect := Clust2Sect(clst);
      if sect == 0 { return false; }
      ClusterInVolume(vol, clst, ClusterMask(fptr / 512, vol.csize));
      SeekSectorOf(drive.image, vol, orgClust, o);
      dsect := sect + ClusterMask(fptr / 512, vol.csize);
      return true;
    }

    // The cluster following loop
    method FollowChain(ghost o: Word, ofs0: nat, clst0: Word, ghost k0: nat)
      returns (ok: bool, ofs: nat, clst: Word, ghost k: nat)
      requires Ready() && vol.csize > 0 && o > 0 && currClust == clst0
      requires SeekAt(drive.image, vol, orgClust, o, fptr, ofs0, clst0, k0)
      modifies this`fptr, this`currClust, drive, drive.buf
      ensures Ready() && Traffic(vol, old(drive.log), drive.log)
      ensures ok ==>
        && SeekAt(drive.image, vol, orgClust, o, fptr, ofs, clst, k)
        && ofs <= ClusterBytes(vol) && currClust == clst
      ensures !ok ==> !Reaches(drive.image, vol, orgClust, ClusterIndex(vol, o - 1))
    {
      hide Sound, Traffic, Reaches, Nth, ClusterIndex, SeekAt, CursorOk, Ready;
      ghost var log0 := drive.log;
      NoTraffic(vol, log0);
      var bcs := vol.csize * 512;
      ok, ofs, clst, k := true, ofs0, clst0, k0;
      while ok && ofs > bcs
        invariant Ready() && Traffic(vol, log0, drive.log)
        invariant ok ==> SeekAt(drive.image, vol, orgClust, o, fptr, ofs, clst, k) && currClust == clst
        invariant !ok ==> !Reaches(drive.image, vol, orgClust, ClusterIndex(vol, o - 1))
        decreases ok, ofs
      {
        ghost var log1 := drive.log;
        ok, ofs, clst := FollowLink(o, ofs, clst, k);
        Then(vol, log0, log1, drive.log);
        k := k + 1;
      }
    }

    // One round of the loop
    method FollowLink(ghost o: Word, ofs0: nat, clst0: Word, ghost k: nat) returns (ok: bool, ofs: nat, clst: Word)
      requires Ready() && vol.csize > 0 && o > 0 && currClust == clst0 && ofs0 > ClusterBytes(vol)
      requires SeekAt(drive.image, vol, orgClust, o, fptr, ofs0, clst0, k)
      modifies this`fptr, this`currClust, drive, drive.buf
      ensures Ready() && Traffic(vol, old(drive.log), drive.log)
      ensures ok ==> SeekAt(drive.image, vol, orgClust, o, fptr, ofs, clst, k + 1) && currClust == clst && ofs < ofs0
      ensures !ok ==> !Reaches(drive.image, vol, orgClust, ClusterIndex(vol, o - 1))
    {
      hide Sound, Traffic, Reaches, Nth, ClusterIndex, SeekAt, CursorOk, FatEntry;
      SeekNext(drive.image, vol, orgClust, o, fptr, ofs0, clst0, k);
      var bcs := vol.csize * 512;
      ofs := ofs0;
      clst := GetFat(clst0);
      ok := !(clst <= 1 || clst >= vol.nFatent);
      if ok {
        currClust := clst;
        fptr := fptr + bcs;
        ofs := ofs - bcs;
      }
    }
  }
}
