/** What a FAT16/FAT32 volume means: the value of a FAT entry, the sectors of a cluster,
    the cluster chain of a file and the contents of the file. */
module FatSpec {
  import opened Bits
  import opened Disk

  datatype FatType = Fat16 | Fat32

  /** The geometry that pf_mount derives from the boot sector. */
  datatype Volume = Volume(
    fsType: FatType,
    csize: int,       // sectors per cluster
    nRootdir: int,    // entries of the fixed root directory
    nFatent: Word,    // number of clusters + 2
    fatbase: Word,    // first sector of the FAT
    dirbase: Word,    // root directory: first sector (FAT16) or cluster (FAT32)
    database: Word    // first sector of cluster 2
  )

  predicate PowerOfTwo(c: int) {
    c == 1 || c == 2 || c == 4 || c == 8 || c == 16 || c == 32 || c == 64 || c == 128
  }

  /** Geometry under which sector arithmetic does not wrap. */
  predicate Sound(v: Volume) {
    && PowerOfTwo(v.csize) && 0 <= v.nRootdir < 0x1_0000
    && 2 <= v.nFatent < 0x1000_0000
    && 0 < v.database && v.database + (v.nFatent - 2) * v.csize <= TWO_32
    && v.fatbase + FatSectors(v) <= TWO_32
  }

  // The exponent of a cluster size
  function Exponent(c: int): (k: nat)
    requires PowerOfTwo(c)
    ensures k <= 7 && Pow2(k) == c && Pow2(k + 9) == 512 * c
  {
    Pow2Values();
    if c == 1 then 0 else if c == 2 then 1 else if c == 4 then 2 else if c == 8 then 3
    else if c == 16 then 4 else if c == 32 then 5 else if c == 64 then 6 else 7
  }

  /** `x & (csize - 1)`. */
  function ClusterMask(x: nat, c: int): (r: nat)
    requires PowerOfTwo(c)
    ensures r == x % c
  {
    AndLowMask(x, Exponent(c));
    And(x, c - 1)
  }

  /** `x & ~(bcs - 1)`, for a cluster of bcs bytes. */
  function ClusterStart(x: Word, c: int): (r: Word)
    requires PowerOfTwo(c)
    ensures r == x - x % (512 * c)
  {
    Pow2Values();
    AndHighMask(x, 32, Exponent(c) + 9);
    And(x, Not(512 * c - 1))
  }

  // Entries per FAT sector
  function PerSector(v: Volume): int { if v.fsType == Fat16 then 256 else 128 }

  // Sectors that the entries 0 .. n_fatent-1 occupy
  function FatSectors(v: Volume): int { (v.nFatent + PerSector(v) - 1) / PerSector(v) }

  predicate InRange(v: Volume, c: Word) { 2 <= c < v.nFatent }

  // ---------- little-endian loads ----------

  function LdWord(s: seq<Byte>): (r: Word)
    requires |s| >= 2
    ensures r < 0x1_0000
  {
    (s[1] as int) * 0x100 + s[0]
  }

  function LdDword(s: seq<Byte>): Word
    requires |s| >= 4
  {
    (s[3] as int) * 0x100_0000 + (s[2] as int) * 0x1_0000 + (s[1] as int) * 0x100 + s[0]
  }

  /** `ld_dword(buf) & 0x0FFFFFFF`. */
  function Low28(w: Word): (r: Word)
    ensures r == w % 0x1000_0000
  {
    Pow2Values(); AndLowMask(w, 28);
    And(w, 0x0FFF_FFFF)
  }

  // ---------- the FAT ----------

  function FatSector(v: Volume, c: Word): Word { (v.fatbase + c / PerSector(v)) % TWO_32 }

  function FatOffset(v: Volume, c: Word): int { c % PerSector(v) * (512 / PerSector(v)) }

  /** The entry of cluster c; 1 stands for a cluster number outside the table. */
  function FatEntry(img: Image, v: Volume, c: Word): Word {
    if !InRange(v, c) then 1
    else
      var s, o := img(FatSector(v, c)), FatOffset(v, c);
      if v.fsType == Fat16 then LdWord(s[o..o + 2]) else Low28(LdDword(s[o..o + 4]))
  }

  /** Byte k of the FAT, counted from the start of its first sector. */
  function FatByte(img: Image, v: Volume, k: nat): Byte { img((v.fatbase + k / 512) % TWO_32)[k % 512] }

  /** An entry in the bytes of the FAT (FAT specification, section 4): two bytes, or the low
      28 bits of four, the low byte first. */
  function RawEntry(img: Image, v: Volume, c: Word): int {
    if v.fsType == Fat16 then
      FatByte(img, v, 2 * c) + 0x100 * FatByte(img, v, 2 * c + 1)
    else
      (FatByte(img, v, 4 * c) + 0x100 * FatByte(img, v, 4 * c + 1) + 0x1_0000 * FatByte(img, v, 4 * c + 2)
       + 0x100_0000 * FatByte(img, v, 4 * c + 3)) % 0x1000_0000
  }

  lemma EntryInBytes(img: Image, v: Volume, c: Word)
    ensures FatEntry(img, v, c) == if 2 <= c < v.nFatent then RawEntry(img, v, c) else 1
  {
    if InRange(v, c) {
      match v.fsType {
        case Fat16 => Entry16(img, v, c);
        case Fat32 => Entry32(img, v, c);
      }
      hide FatByte, FatEntry;
    }
  }

  lemma Entry16(img: Image, v: Volume, c: Word)
    requires InRange(v, c) && v.fsType == Fat16
    ensures FatEntry(img, v, c) == FatByte(img, v, 2 * c) + 0x100 * FatByte(img, v, 2 * c + 1)
  {
    hide FatByte;
    var o := c % 256 * 2;
    FatByteAt(img, v, 2 * c, c / 256, o);
    FatByteAt(img, v, 2 * c + 1, c / 256, o + 1);
  }

  lemma Entry32(img: Image, v: Volume, c: Word)
    requires InRange(v, c) && v.fsType == Fat32
    ensures FatEntry(img, v, c) ==
      (FatByte(img, v, 4 * c) + 0x100 * FatByte(img, v, 4 * c + 1) + 0x1_0000 * FatByte(img, v, 4 * c + 2)
       + 0x100_0000 * FatByte(img, v, 4 * c + 3)) % 0x1000_0000
  {
    hide FatByte, Low28;
    var o := c % 128 * 4;
    FatByteAt(img, v, 4 * c, c / 128, o);
    FatByteAt(img, v, 4 * c + 1, c / 128, o + 1);
    FatByteAt(img, v, 4 * c + 2, c / 128, o + 2);
    FatByteAt(img, v, 4 * c + 3, c / 128, o + 3);
  }

  lemma FatByteAt(img: Image, v: Volume, k: nat, sector: nat, o: nat)
    requires k == 512 * sector + o && o < 512
    ensures FatByte(img, v, k) == img((v.fatbase + sector) % TWO_32)[o]
  {
    DivModUnique(k, 512, sector, o);
  }

  /** The i-th cluster of the chain that starts at org. */
  function Nth(img: Image, v: Volume, org: Word, i: nat): Word {
    if i == 0 then org else FatEntry(img, v, Nth(img, v, org, i - 1))
  }

  /** Clusters 0..i of the chain are all clusters of the volume. */
  ghost predicate Reaches(img: Image, v: Volume, org: Word, i: int) {
    forall j :: 0 <= j <= i ==> InRange(v, Nth(img, v, org, j))
  }

  // ---------- sectors and bytes ----------

  function ClusterSector(v: Volume, c: Word): int { (c - 2) * v.csize + v.database }

  function ClusterBytes(v: Volume): int { v.csize * 512 }

  // Which cluster of the chain holds byte p of the file
  function ClusterIndex(v: Volume, p: nat): (k: nat)
    requires v.csize > 0
  {
    p / 512 / v.csize
  }

  /** The sector that holds byte p of the file. */
  function ByteSector(img: Image, v: Volume, org: Word, p: nat): int
    requires v.csize > 0
  {
    ClusterSector(v, Nth(img, v, org, ClusterIndex(v, p))) + p / 512 % v.csize
  }

  predicate IsDataSector(v: Volume, s: int) {
    v.database <= s < v.database + (v.nFatent - 2) * v.csize
  }

  lemma ClusterInVolume(v: Volume, c: Word, s: int)
    requires Sound(v) && InRange(v, c) && 0 <= s < v.csize
    ensures IsDataSector(v, ClusterSector(v, c) + s) && 0 < ClusterSector(v, c) + s < TWO_32
  {
    var n := v.nFatent - 2 - (c - 2);
    assert n * v.csize >= v.csize by { Mul(1, n, v.csize); }
    assert (c - 2) * v.csize + n * v.csize == (v.nFatent - 2) * v.csize;
    assert (c - 2) * v.csize >= 0 by { Mul(0, c - 2, v.csize); }
  }

  lemma Mul(a: int, b: int, c: int)
    requires a <= b && c >= 0
    ensures a * c <= b * c
  {}

  /** Different (cluster, sector in cluster) pairs are different sectors. */
  lemma ClustersApart(v: Volume, c: Word, s: int, d: Word, t: int)
    requires v.csize > 0 && 0 <= s < v.csize && 0 <= t < v.csize
    requires ClusterSector(v, c) + s == ClusterSector(v, d) + t
    ensures c == d && s == t
  {
    DivModUnique((c - 2) * v.csize + s, v.csize, c - 2, s);
    DivModUnique((d - 2) * v.csize + t, v.csize, d - 2, t);
  }

  /** A FAT entry lies within one sector, inside the FAT. */
  lemma EntryInFat(v: Volume, c: Word)
    requires Sound(v) && InRange(v, c)
    ensures v.fatbase <= FatSector(v, c) == v.fatbase + c / PerSector(v) < v.fatbase + FatSectors(v)
    ensures 0 <= FatOffset(v, c) && FatOffset(v, c) + 512 / PerSector(v) <= 512
  {}

  // ---------- the contents of a file ----------

  function ClusterData(img: Image, v: Volume, c: Word, n: nat): (s: seq<Byte>)
    ensures |s| == 512 * n
  {
    if n == 0 then []
    else ClusterData(img, v, c, n - 1) + img((ClusterSector(v, c) + n - 1) % TWO_32)
  }

  /** The clusters of the chain, one after the other. */
  function ChainData(img: Image, v: Volume, org: Word, n: nat): (s: seq<Byte>)
    requires v.csize > 0
    ensures |s| == n * ClusterBytes(v)
  {
    if n == 0 then []
    else ChainData(img, v, org, n - 1) + ClusterData(img, v, Nth(img, v, org, n - 1), v.csize)
  }

  function ClusterCount(v: Volume, fsize: nat): nat
    requires v.csize > 0
  {
    (fsize + ClusterBytes(v) - 1) / ClusterBytes(v)
  }

  lemma CountCovers(v: Volume, fsize: nat)
    requires v.csize > 0
    ensures fsize <= ClusterCount(v, fsize) * ClusterBytes(v)
  {
    var b := ClusterBytes(v);
    assert fsize + b - 1 == ClusterCount(v, fsize) * b + (fsize + b - 1) % b;
  }

  /** A file is the data of its chain, cut at the file size. */
  function Content(img: Image, v: Volume, org: Word, fsize: nat): (s: seq<Byte>)
    requires v.csize > 0
    ensures |s| == fsize
  {
    CountCovers(v, fsize);
    ChainData(img, v, org, ClusterCount(v, fsize))[..fsize]
  }

  lemma {:induction false} ClusterDataAt(img: Image, v: Volume, c: Word, n: nat, p: nat)
    requires p < 512 * n
    ensures ClusterData(img, v, c, n)[p] == img((ClusterSector(v, c) + p / 512) % TWO_32)[p % 512]
  {
    if p < 512 * (n - 1) {
      ClusterDataAt(img, v, c, n - 1, p);
    } else {
      assert p / 512 == n - 1;
    }
  }

  lemma {:induction false} ChainDataAt(img: Image, v: Volume, org: Word, n: nat, p: nat)
    requires v.csize > 0 && p < n * ClusterBytes(v)
    ensures ChainData(img, v, org, n)[p] == img(ByteSector(img, v, org, p) % TWO_32)[p % 512]
  {
    var b := ClusterBytes(v);
    assert n * b == (n - 1) * b + b;
    if p < (n - 1) * b {
      ChainDataAt(img, v, org, n - 1, p);
    } else {
      var q := p - (n - 1) * b;
      ClusterDataAt(img, v, Nth(img, v, org, n - 1), v.csize, q);
      SectorInCluster(v, p, n - 1, q);
    }
  }

  // Byte q of cluster k is in sector q / 512 of that cluster
  lemma SectorInCluster(v: Volume, p: nat, k: nat, q: nat)
    requires v.csize > 0 && p == k * ClusterBytes(v) + q && q < ClusterBytes(v)
    ensures p % 512 == q % 512 && p / 512 % v.csize == q / 512 && ClusterIndex(v, p) == k
  {
    var b := ClusterBytes(v);
    DivModUnique(p, b, k, q);
    assert k * b == 512 * (k * v.csize);
    DivModUnique(p, 512, k * v.csize + q / 512, q % 512);
    DivModUnique(p / 512, v.csize, k, q / 512);
  }

  /** Each byte of the contents, as the sector and the offset it is read from. */
  lemma ContentAt(img: Image, v: Volume, org: Word, fsize: nat, p: nat)
    requires Sound(v) && p < fsize && Reaches(img, v, org, ClusterIndex(v, p))
    ensures ByteSector(img, v, org, p) < TWO_32 && IsDataSector(v, ByteSector(img, v, org, p))
    ensures Content(img, v, org, fsize)[p] == img(ByteSector(img, v, org, p))[p % 512]
  {
    var k, s := ClusterIndex(v, p), p / 512 % v.csize;
    var q := ByteSector(img, v, org, p);
    assert q == ClusterSector(v, Nth(img, v, org, k)) + s;
    assert 0 <= k <= ClusterIndex(v, p);
    hide ClusterSector, ByteSector, Nth, IsDataSector, ClusterBytes, InRange;
    ClusterInVolume(v, Nth(img, v, org, k), s);
    hide Sound, Reaches;
    CountCovers(v, fsize);
    var n := ClusterCount(v, fsize);
    assert Content(img, v, org, fsize)[p] == ChainData(img, v, org, n)[p];
    hide Content, ChainData, ClusterCount;
    ChainDataAt(img, v, org, n, p);
    Small(q, TWO_32);
  }

  /** A run of bytes within one sector. */
  lemma ContentRun(img: Image, v: Volume, org: Word, fsize: nat, p: nat, n: nat)
    requires Sound(v) && p < fsize && p % 512 + n <= 512 && p + n <= fsize
    requires Reaches(img, v, org, ClusterIndex(v, p))
    ensures ByteSector(img, v, org, p) < TWO_32 && IsDataSector(v, ByteSector(img, v, org, p))
    ensures Content(img, v, org, fsize)[p..p + n] == img(ByteSector(img, v, org, p))[p % 512..p % 512 + n]
  {
    ContentAt(img, v, org, fsize, p);
    var s := img(ByteSector(img, v, org, p));
    var a, b := Content(img, v, org, fsize)[p..p + n], s[p % 512..p % 512 + n];
    hide Content;
    forall i | 0 <= i < n
      ensures a[i] == b[i]
    {
      assert a[i] == Content(img, v, org, fsize)[p + i] && b[i] == s[p % 512 + i];
      SameSector(img, v, org, p, i);
      ContentAt(img, v, org, fsize, p + i);
    }
  }

  lemma SameSector(img: Image, v: Volume, org: Word, p: nat, i: nat)
    requires v.csize > 0 && p % 512 + i < 512
    ensures (p + i) / 512 == p / 512 && (p + i) % 512 == p % 512 + i
    ensures ClusterIndex(v, p + i) == ClusterIndex(v, p)
    ensures ByteSector(img, v, org, p + i) == ByteSector(img, v, org, p)
  {
    DivModUnique(p + i, 512, p / 512, p % 512 + i);
    hide Nth, ClusterSector;
  }

  /** Cluster indices from byte positions, as pf_lseek computes them. */
  lemma IndexByBytes(v: Volume, p: nat)
    requires v.csize > 0
    ensures p / ClusterBytes(v) == ClusterIndex(v, p)
  {
    var s := p / 512;
    DivModUnique(p, ClusterBytes(v), s / v.csize, s % v.csize * 512 + p % 512) by {
      var b, k, r := ClusterBytes(v), s / v.csize, s % v.csize;
      assert s == v.csize * k + r;
      assert b * k == 512 * (v.csize * k);
      Mul(r + 1, v.csize, 512);
    }
  }

  /** The cluster of the byte before p. */
  lemma IndexBefore(v: Volume, p: nat)
    requires v.csize > 0 && p > 0
    ensures p % 512 != 0 ==> ClusterIndex(v, p - 1) == ClusterIndex(v, p)
    ensures p % 512 == 0 && p / 512 % v.csize != 0 ==> ClusterIndex(v, p - 1) == ClusterIndex(v, p)
    ensures p % 512 == 0 && p / 512 % v.csize == 0 ==> ClusterIndex(v, p - 1) == ClusterIndex(v, p) - 1
  {
    if p % 512 != 0 {
      assert (p - 1) / 512 == p / 512;
    } else {
      var s, c := p / 512, v.csize;
      assert (p - 1) / 512 == s - 1;
      var k, r := s / c, s % c;
      if r == 0 {
        DivModUnique(s - 1, c, k - 1, c - 1);
      } else {
        DivModUnique(s - 1, c, k, r - 1);
      }
    }
  }

  lemma IndexMonotone(v: Volume, p: nat, q: nat)
    requires v.csize > 0 && p <= q
    ensures ClusterIndex(v, p) <= ClusterIndex(v, q)
  {
    var a, b := p / 512, q / 512;
    DivMonotone(a, b, v.csize);
  }

  lemma DivMonotone(a: nat, b: nat, c: nat)
    requires a <= b && c > 0
    ensures a / c <= b / c
  {
    var x, y := a / c, b / c;
    assert a == c * x + a % c && b == c * y + b % c;
    if x > y { Mul(y + 1, x, c); }
  }

  /** The chain reaches byte q only if it reaches every byte before it. */
  lemma ReachesMonotone(img: Image, v: Volume, org: Word, p: nat, q: nat)
    requires v.csize > 0 && p <= q && Reaches(img, v, org, ClusterIndex(v, q))
    ensures Reaches(img, v, org, ClusterIndex(v, p))
  {
    IndexMonotone(v, p, q);
  }
}
