/** The one-sector cache in front of the disk (stage2/pff3a/source/diskio.c). */
module Disk {
  import opened Bits

  const SECTOR_SIZE := 512
  const NO_SECTOR: Word := 0xFFFF_FFFF

  type Sector = s: seq<Byte> | |s| == SECTOR_SIZE witness seq<Byte>(SECTOR_SIZE, _ => 0)

  // What readSector delivers for each sector number; it retries until it succeeds
  type Image = Word -> Sector

  datatype DResult = RES_OK | RES_PARERR

  /** A call of disk_readp, for statements about all the requests that are made. */
  datatype Request = Request(sector: Word, offset: nat, count: nat)

  /** The 32-bit range check keeps a request inside the sector exactly when the sum of offset
      and count does not wrap. */
  lemma RangeCheck(offset: Word, count: Word)
    requires offset < 512 && (offset + count) % TWO_32 <= 512
    ensures offset + count <= 512 <==> offset + count < TWO_32
  {}

  class Drive {
    const image: Image
    const buf: array<Byte>
    var currentSector: Word
    ghost var primed: bool         // some sector has been read
    ghost var log: seq<Request>

    constructor (image: Image)
      ensures this.image == image && Valid() && !primed && fresh(buf)
    {
      this.image := image;
      buf := new Byte[SECTOR_SIZE](_ => 0);
      currentSector, primed, log := NO_SECTOR, false, [];
    }

    ghost predicate Valid()
      reads this, buf
    {
      && buf.Length == SECTOR_SIZE
      && (primed ==> buf[..] == image(currentSector))
      && (!primed ==> currentSector == NO_SECTOR && forall i :: 0 <= i < SECTOR_SIZE ==> buf[i] == 0)
    }

    /** The bytes a request for this sector is served from.  Before the first read the
        cache claims to hold sector 0xFFFFFFFF and holds zeros. */
    ghost function Served(sector: Word): Sector
      reads this
    {
      if !primed && sector == NO_SECTOR then seq<Byte>(SECTOR_SIZE, _ => 0) else image(sector)
    }

    /** disk_readp; `at` is how far the caller's pointer stands in its buffer.  The bytes
        delivered are those of the raw disk for every request, in any order, with the one
        exception that Served names. */
    method ReadP(buff: array?<Byte>, at: nat, sector: Word, offset: nat, count: nat) returns (res: DResult)
      requires Valid() && buff != buf
      requires offset < 512 ==> offset + count < TWO_32
      requires buff != null && offset < 512 && offset + count <= 512 ==> at + count <= buff.Length
      modifies this`currentSector, this`primed, this`log, buf, buff
      ensures Valid() && log == old(log) + [Request(sector, offset, count)]
      ensures res == RES_OK <==> buff != null && offset < 512 && offset + count <= 512
      ensures res == RES_OK ==>
        buff[..] == old(buff[..])[..at] + old(Served(sector))[offset..offset + count] + old(buff[..])[at + count..]
      ensures res == RES_PARERR && buff != null ==> buff[..] == old(buff[..])
      ensures primed == (old(primed) || (res == RES_OK && sector != NO_SECTOR))
    {
      log := log + [Request(sector, offset, count)];
      res := RES_OK;
      if buff == null || offset >= 512 || offset + count > 512 {
        res := RES_PARERR;
      } else {
        Fetch(sector);
        CopyOut(buff, at, offset, count);
      }
    }

    // Brings the sector into the cache, unless it is there
    method Fetch(sector: Word)
      requires Valid()
      modifies this`currentSector, this`primed, buf
      ensures Valid() && buf[..] == old(Served(sector))
      ensures primed == (old(primed) || sector != NO_SECTOR)
    {
      if currentSector != sector {
        ReadSector(sector);
        currentSector := sector;
        primed := true;
      }
    }

    // The copy loop
    method CopyOut(buff: array<Byte>, at: nat, offset: nat, count: nat)
      requires buff != buf && at + count <= buff.Length && offset + count <= buf.Length
      modifies buff
      ensures buff[..] == old(buff[..])[..at] + buf[offset..offset + count] + old(buff[..])[at + count..]
    {
      var i := 0;
      while i < count
        invariant 0 <= i <= count
        invariant buff[..at] == old(buff[..at]) && buff[at + count..] == old(buff[at + count..])
        invariant buff[at..at + i] == buf[offset..offset + i]
      {
        buff[at + i] := buf[offset + i];
        i := i + 1;
      }
      assert buff[..] == buff[..at] + buff[at..at + count] + buff[at + count..];
    }

    // The BIOS read of one whole sector into the cache
    method ReadSector(sector: Word)
      requires buf.Length == SECTOR_SIZE
      modifies buf
      ensures buf[..] == image(sector)
    {
      var s := image(sector);
      forall i | 0 <= i < SECTOR_SIZE {
        buf[i] := s[i];
      }
    }
  }
}
