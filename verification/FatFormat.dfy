/** The other side of the format: how a volume is written, field after field, the low byte
    first (FAT specification, sections 3, 4 and 6).  What the code reads back from it. */
module FatFormat {
  import opened Bits
  import opened Disk
  import opened FatSpec
  import opened FatMount
  import opened FatNames
  import opened FatDir

  // ---------- numbers ----------

  /** w in n bytes, the low byte first. */
  function Low(w: nat, n: nat): (s: seq<Byte>)
    ensures |s| == n
  {
    if n == 0 then [] else [w % 0x100] + Low(w / 0x100, n - 1)
  }

  lemma WordBack(w: nat)
    requires w < 0x1_0000
    ensures LdWord(Low(w, 2)) == w
  {
    assert Low(w, 2) == [w % 0x100] + Low(w / 0x100, 1);
    assert Low(w / 0x100, 1) == [w / 0x100 % 0x100] + Low(w / 0x100 / 0x100, 0);
  }

  lemma DwordBack(w: Word)
    ensures LdDword(Low(w, 4)) == w
  {
    var a, b, c := w / 0x100, w / 0x100 / 0x100, w / 0x100 / 0x100 / 0x100;
    assert Low(w, 4) == [w % 0x100] + Low(a, 3);
    assert Low(a, 3) == [a % 0x100] + Low(b, 2);
    assert Low(b, 2) == [b % 0x100] + Low(c, 1);
    assert Low(c, 1) == [c % 0x100] + Low(c / 0x100, 0);
  }

  // ---------- fields ----------

  /** The first n fields, one after the other. */
  function Laid(fields: seq<seq<Byte>>, n: nat): (s: seq<Byte>)
    requires n <= |fields|
  {
    if n == 0 then [] else Laid(fields, n - 1) + fields[n - 1]
  }

  /** Field k is found behind the fields before it. */
  lemma {:induction false} FieldAt(fields: seq<seq<Byte>>, n: nat, k: nat)
    requires k < n <= |fields|
    ensures |Laid(fields, k)| + |fields[k]| <= |Laid(fields, n)|
    ensures Laid(fields, n)[|Laid(fields, k)|..|Laid(fields, k)| + |fields[k]|] == fields[k]
    decreases n
  {
    var o, s := |Laid(fields, k)|, Laid(fields, n - 1);
    assert Laid(fields, n) == s + fields[n - 1];
    hide Laid;
    if k < n - 1 {
      FieldAt(fields, n - 1, k);
      Front(s, fields[n - 1], o, o + |fields[k]|);
    } else {
      Back(s, fields[k], o, o + |fields[k]|);
    }
  }

  lemma Front(a: seq<Byte>, b: seq<Byte>, i: nat, j: nat)
    requires i <= j <= |a|
    ensures (a + b)[i..j] == a[i..j]
  {}

  lemma Back(a: seq<Byte>, b: seq<Byte>, i: nat, j: nat)
    requires |a| <= i <= j <= |a| + |b|
    ensures (a + b)[i..j] == b[i - |a|..j - |a|]
  {}

  // ---------- the boot record (sections 3.1 to 3.3) ----------

  datatype Header = Header(
    jump: seq<Byte>, oem: seq<Byte>, bytsPerSec: nat, secPerClus: Byte, rsvd: nat, numFats: Byte, rootEnts: nat,
    totSec16: nat, media: Byte, fatSz16: nat, secPerTrk: nat, numHeads: nat, hiddSec: Word, totSec32: Word
  )

  // What follows in a FAT12/16 record, and in a FAT32 record
  datatype Tail =
    | Tail16(drive: seq<Byte>, volId: Word, volLab: seq<Byte>, fsType: seq<Byte>, code: seq<Byte>)
    | Tail32(fatSz32: Word, extFlags: nat, fsVer: nat, rootClus: Word, fsInfo: nat, bkBoot: nat, reserved: seq<Byte>,
             drive: seq<Byte>, volId: Word, volLab: seq<Byte>, fsType: seq<Byte>, code: seq<Byte>)

  predicate FieldsFit(h: Header, t: Tail) {
    && |h.jump| == 3 && |h.oem| == 8 && h.rsvd < 0x1_0000 && h.rootEnts < 0x1_0000
    && h.totSec16 < 0x1_0000 && h.fatSz16 < 0x1_0000
    && |t.drive| == 3 && |t.volLab| == 11 && |t.fsType| == 8
    && (if t.Tail16? then |t.code| == 448 else |t.reserved| == 12 && |t.code| == 420)
  }

  function HeaderFields(h: Header): (f: seq<seq<Byte>>)
    ensures |f| == 14
  {
    [h.jump, h.oem, Low(h.bytsPerSec, 2), [h.secPerClus], Low(h.rsvd, 2), [h.numFats], Low(h.rootEnts, 2),
     Low(h.totSec16, 2), [h.media], Low(h.fatSz16, 2), Low(h.secPerTrk, 2), Low(h.numHeads, 2), Low(h.hiddSec, 4),
     Low(h.totSec32, 4)]
  }

  function TailFields(t: Tail): (f: seq<seq<Byte>>)
    ensures |f| == if t.Tail16? then 6 else 13
  {
    match t
    case Tail16(drive, volId, volLab, fsType, code) => [drive, Low(volId, 4), volLab, fsType, code, [0x55, 0xAA]]
    case Tail32(fatSz32, extFlags, fsVer, rootClus, fsInfo, bkBoot, reserved, drive, volId, volLab, fsType, code) =>
      [Low(fatSz32, 4), Low(extFlags, 2), Low(fsVer, 2), Low(rootClus, 4), Low(fsInfo, 2), Low(bkBoot, 2), reserved,
       drive, Low(volId, 4), volLab, fsType, code, [0x55, 0xAA]]
  }

  function BootRecord(h: Header, t: Tail): (s: Sector)
    requires FieldsFit(h, t)
  {
    HeaderSize(h, t);
    TailSize(h, t);
    Laid(HeaderFields(h), 14) + Laid(TailFields(t), |TailFields(t)|)
  }

  lemma HeaderSize(h: Header, t: Tail)
    requires FieldsFit(h, t)
    ensures var f := HeaderFields(h);
            && |Laid(f, 3)| == 13 && |Laid(f, 4)| == 14 && |Laid(f, 5)| == 16 && |Laid(f, 6)| == 17
            && |Laid(f, 7)| == 19 && |Laid(f, 9)| == 22 && |Laid(f, 13)| == 32 && |Laid(f, 14)| == 36
  {
    var f := HeaderFields(h);
    hide Low;
    assert |Laid(f, 1)| == 3;
    assert |Laid(f, 2)| == 11;
    assert |Laid(f, 3)| == 13;
    assert |Laid(f, 4)| == 14;
    assert |Laid(f, 5)| == 16;
    assert |Laid(f, 6)| == 17;
    assert |Laid(f, 7)| == 19;
    assert |Laid(f, 8)| == 21;
    assert |Laid(f, 9)| == 22;
    assert |Laid(f, 10)| == 24;
    assert |Laid(f, 11)| == 26;
    assert |Laid(f, 12)| == 28;
    assert |Laid(f, 13)| == 32;
    assert |Laid(f, 14)| == 36;
  }

  lemma TailSize(h: Header, t: Tail)
    requires FieldsFit(h, t)
    ensures var f := TailFields(t);
            if t.Tail16? then |Laid(f, 3)| == 18 && |Laid(f, 5)| == 474 && |Laid(f, 6)| == 476
            else
              && |Laid(f, 0)| == 0 && |Laid(f, 3)| == 8 && |Laid(f, 10)| == 46
              && |Laid(f, 12)| == 474 && |Laid(f, 13)| == 476
  {
    var f := TailFields(t);
    hide Low;
    if t.Tail16? {
      assert |Laid(f, 1)| == 3;
      assert |Laid(f, 2)| == 7;
      assert |Laid(f, 3)| == 18;
      assert |Laid(f, 4)| == 26;
      assert |Laid(f, 5)| == 474;
      assert |Laid(f, 6)| == 476;
    } else {
      assert |Laid(f, 1)| == 4;
      assert |Laid(f, 2)| == 6;
      assert |Laid(f, 3)| == 8;
      assert |Laid(f, 4)| == 12;
      assert |Laid(f, 5)| == 14;
      assert |Laid(f, 6)| == 16;
      assert |Laid(f, 7)| == 28;
      assert |Laid(f, 8)| == 31;
      assert |Laid(f, 9)| == 35;
      assert |Laid(f, 10)| == 46;
      assert |Laid(f, 11)| == 54;
      assert |Laid(f, 12)| == 474;
      assert |Laid(f, 13)| == 476;
    }
  }

  // Header field k in the record
  lemma HeaderField(h: Header, t: Tail, k: nat, o: nat)
    requires FieldsFit(h, t) && k < 14 && o == |Laid(HeaderFields(h), k)|
    ensures o + |HeaderFields(h)[k]| <= 36
    ensures BootRecord(h, t)[o..o + |HeaderFields(h)[k]|] == HeaderFields(h)[k]
  {
    HeaderSize(h, t);
    FieldAt(HeaderFields(h), 14, k);
    hide Laid, HeaderFields, TailFields;
    Front(Laid(HeaderFields(h), 14), Laid(TailFields(t), |TailFields(t)|), o, o + |HeaderFields(h)[k]|);
  }

  // Tail field k
  lemma TailField(h: Header, t: Tail, k: nat, o: nat)
    requires FieldsFit(h, t) && k < |TailFields(t)| && o == 36 + |Laid(TailFields(t), k)|
    ensures o + |TailFields(t)[k]| <= 512
    ensures BootRecord(h, t)[o..o + |TailFields(t)[k]|] == TailFields(t)[k]
  {
    HeaderSize(h, t);
    TailSize(h, t);
    FieldAt(TailFields(t), |TailFields(t)|, k);
    hide Laid, HeaderFields, TailFields;
    Back(Laid(HeaderFields(h), 14), Laid(TailFields(t), |TailFields(t)|), o, o + |TailFields(t)[k]|);
  }

  function TotalSectors(h: Header): nat { if h.totSec16 > 0 then h.totSec16 else h.totSec32 }

  function FatSize(h: Header, t: Tail): nat {
    if h.fatSz16 > 0 then h.fatSz16 else if t.Tail32? then t.fatSz32 else 0
  }

  /** What the fields of the record say.  A sector count of 16 bits, or a FAT size, that is 0
      leaves the matter to the 32-bit field; the root cluster is a field of FAT32 alone. */
  predicate Says(h: Header, t: Tail, b: Bpb) {
    && b.secPerClus == h.secPerClus && b.rsvd == h.rsvd && b.numFats == h.numFats && b.rootEnts == h.rootEnts
    && b.totSec == TotalSectors(h) && (h.fatSz16 > 0 || t.Tail32? ==> b.fatSz == FatSize(h, t))
    && (t.Tail32? ==> b.rootClus == t.rootClus)
  }

  /** A boot record written field after field gives its fields back. */
  lemma BootRecordBack(h: Header, t: Tail)
    requires FieldsFit(h, t)
    ensures Says(h, t, BpbOf(BootRecord(h, t)))
  {
    HeaderBack(h, t);
    if t.Tail32? {
      TailSize(h, t);
      TailField(h, t, 0, 36);
      TailField(h, t, 3, 44);
      DwordBack(t.fatSz32);
      DwordBack(t.rootClus);
    }
    hide Laid, HeaderFields, Low, LdWord, LdDword, BootRecord;
  }

  lemma HeaderBack(h: Header, t: Tail)
    requires FieldsFit(h, t)
    ensures var s := BootRecord(h, t);
            && s[13] == h.secPerClus && LdWord(s[14..16]) == h.rsvd && s[16] == h.numFats
            && LdWord(s[17..19]) == h.rootEnts && LdWord(s[19..21]) == h.totSec16 && LdWord(s[22..24]) == h.fatSz16
            && LdDword(s[32..36]) == h.totSec32
  {
    HeaderSize(h, t);
    HeaderField(h, t, 3, 13);
    HeaderField(h, t, 4, 14);
    HeaderField(h, t, 5, 16);
    HeaderField(h, t, 6, 17);
    HeaderField(h, t, 7, 19);
    HeaderField(h, t, 9, 22);
    HeaderField(h, t, 13, 32);
    WordBack(h.rsvd);
    WordBack(h.rootEnts);
    WordBack(h.totSec16);
    WordBack(h.fatSz16);
    DwordBack(h.totSec32);
    hide Laid, Low, LdWord, LdDword, BootRecord;
    var s := BootRecord(h, t);
    assert s[13..14][0] == s[13] && s[16..17][0] == s[16];
  }

  /** A record whose type field begins with "FA" is a FAT boot record. */
  lemma BootKindBack(h: Header, t: Tail)
    requires FieldsFit(h, t) && t.fsType[0] == 0x46 && t.fsType[1] == 0x41
    ensures BootKind(BootRecord(h, t)) == 0
  {
    var s := BootRecord(h, t);
    TailSize(h, t);
    hide Laid, HeaderFields, Low, BootRecord, BootKind;
    KindInBytes(s);
    if t.Tail16? {
      TailField(h, t, 3, 54);
      TailField(h, t, 5, 510);
      SliceByte(s, 54, 62, 0);
      SliceByte(s, 54, 62, 1);
    } else {
      TailField(h, t, 10, 82);
      TailField(h, t, 12, 510);
      SliceByte(s, 82, 90, 0);
      SliceByte(s, 82, 90, 1);
    }
    SliceByte(s, 510, 512, 0);
    SliceByte(s, 510, 512, 1);
  }

  lemma SliceByte(s: seq<Byte>, i: nat, j: nat, k: nat)
    requires i + k < j <= |s|
    ensures s[i..j][k] == s[i + k]
  {}

  // ---------- the partition table ----------

  datatype Partition =
    Partition(status: Byte, first: seq<Byte>, kind: Byte, last: seq<Byte>, start: Word, sectors: Word)

  function PartitionFields(code: seq<Byte>, p: Partition, others: seq<Byte>): (f: seq<seq<Byte>>)
    ensures |f| == 9
  {
    [code, [p.status], p.first, [p.kind], p.last, Low(p.start, 4), Low(p.sectors, 4), others, [0x55, 0xAA]]
  }

  predicate PartitionFits(code: seq<Byte>, p: Partition, others: seq<Byte>) {
    |code| == 446 && |p.first| == 3 && |p.last| == 3 && |others| == 48
  }

  function PartitionTable(code: seq<Byte>, p: Partition, others: seq<Byte>): (s: Sector)
    requires PartitionFits(code, p, others)
  {
    TableSize(code, p, others);
    Laid(PartitionFields(code, p, others), 9)
  }

  lemma TableSize(code: seq<Byte>, p: Partition, others: seq<Byte>)
    requires PartitionFits(code, p, others)
    ensures var f := PartitionFields(code, p, others);
            && |Laid(f, 0)| == 0 && |Laid(f, 3)| == 450 && |Laid(f, 5)| == 454
            && |Laid(f, 8)| == 510 && |Laid(f, 9)| == 512
  {
    var f := PartitionFields(code, p, others);
    hide Low;
    assert |Laid(f, 1)| == 446;
    assert |Laid(f, 2)| == 447;
    assert |Laid(f, 3)| == 450;
    assert |Laid(f, 4)| == 451;
    assert |Laid(f, 5)| == 454;
    assert |Laid(f, 6)| == 458;
    assert |Laid(f, 7)| == 462;
    assert |Laid(f, 8)| == 510;
    assert |Laid(f, 9)| == 512;
  }

  /** The volume starts where the first partition does, if it is in use; the boot code must
      not have the letters "FA" where a FAT boot record has them. */
  lemma PartitionBack(img: Image, code: seq<Byte>, p: Partition, others: seq<Byte>)
    requires PartitionFits(code, p, others) && img(0) == PartitionTable(code, p, others)
    requires !(code[54] == 0x46 && code[55] == 0x41) && !(code[82] == 0x46 && code[83] == 0x41)
    ensures VolumeStart(img) == if p.kind != 0 then p.start else 0
  {
    var s, f := img(0), PartitionFields(code, p, others);
    TableSize(code, p, others);
    hide Laid, Low, BootKind, LdDword;
    FieldAt(f, 9, 0);
    FieldAt(f, 9, 3);
    FieldAt(f, 9, 5);
    FieldAt(f, 9, 8);
    TableBytesAt(s, code, p.kind);
    KindInBytes(s);
    DwordBack(p.start);
  }

  lemma TableBytesAt(s: Sector, code: seq<Byte>, kind: Byte)
    requires |code| == 446 && s[0..446] == code && s[450..451] == [kind] && s[510..512] == [0x55, 0xAA]
    ensures s[54] == code[54] && s[55] == code[55] && s[82] == code[82] && s[83] == code[83]
    ensures s[450] == kind && s[510] == 0x55 && s[511] == 0xAA
  {
    SliceByte(s, 0, 446, 54);
    SliceByte(s, 0, 446, 55);
    SliceByte(s, 0, 446, 82);
    SliceByte(s, 0, 446, 83);
    SliceByte(s, 450, 451, 0);
    SliceByte(s, 510, 512, 0);
    SliceByte(s, 510, 512, 1);
  }

  // ---------- the FAT (section 4) ----------

  function EntryWidth(v: Volume): nat { if v.fsType == Fat16 then 2 else 4 }

  /** The entries of the table, in order. */
  function TableBytes(width: nat, fat: seq<Word>): (s: seq<Byte>)
    ensures |s| == |fat| * width
  {
    if |fat| == 0 then [] else TableBytes(width, fat[..|fat| - 1]) + Low(fat[|fat| - 1], width)
  }

  lemma {:induction false} TableByte(width: nat, fat: seq<Word>, c: nat, j: nat)
    requires c < |fat| && j < width
    ensures c * width + j < |fat| * width
    ensures TableBytes(width, fat)[c * width + j] == Low(fat[c], width)[j]
    decreases |fat|
  {
    var n := |fat| - 1;
    var t, i := TableBytes(width, fat[..n]), c * width + j;
    assert TableBytes(width, fat) == t + Low(fat[n], width);
    hide Low, TableBytes;
    Mul(c + 1, |fat|, width);
    if c < n {
      TableByte(width, fat[..n], c, j);
    }
  }

  /** These bytes lie on the disk from the start of a sector on. */
  ghost predicate LiesAt(img: Image, first: Word, data: seq<Byte>) {
    forall k :: 0 <= k < |data| ==> img((first + k / 512) % TWO_32)[k % 512] == data[k]
  }

  ghost predicate FatHolds(img: Image, v: Volume, fat: seq<Word>) {
    |fat| == v.nFatent && LiesAt(img, v.fatbase, TableBytes(EntryWidth(v), fat))
  }

  // What an entry holds: 16 bits, or 28
  function Capacity(v: Volume): nat { if v.fsType == Fat16 then 0x1_0000 else 0x1000_0000 }

  /** A table written entry after entry gives its entries back. */
  lemma TableBack(img: Image, v: Volume, fat: seq<Word>, c: Word)
    requires FatHolds(img, v, fat) && InRange(v, c)
    ensures |fat| == v.nFatent && FatEntry(img, v, c) == fat[c] % Capacity(v)
  {
    EntryInBytes(img, v, c);
    assert |fat| == v.nFatent;
    hide FatEntry, FatHolds, RawEntry;
    if v.fsType == Fat16 { Table16(img, v, fat, c); } else { Table32(img, v, fat, c); }
  }

  lemma Table16(img: Image, v: Volume, fat: seq<Word>, c: Word)
    requires FatHolds(img, v, fat) && InRange(v, c) && v.fsType == Fat16
    ensures RawEntry(img, v, c) == fat[c] % 0x1_0000
  {
    hide FatByte, Low, TableBytes;
    Written(img, v, fat, c, 0);
    Written(img, v, fat, c, 1);
    LowTwo(fat[c]);
  }

  lemma Table32(img: Image, v: Volume, fat: seq<Word>, c: Word)
    requires FatHolds(img, v, fat) && InRange(v, c) && v.fsType == Fat32
    ensures RawEntry(img, v, c) == fat[c] % 0x1000_0000
  {
    hide FatByte, Low, TableBytes;
    Written(img, v, fat, c, 0);
    Written(img, v, fat, c, 1);
    Written(img, v, fat, c, 2);
    Written(img, v, fat, c, 3);
    LowFour(fat[c]);
  }

  lemma Written(img: Image, v: Volume, fat: seq<Word>, c: Word, j: nat)
    requires FatHolds(img, v, fat) && InRange(v, c) && j < EntryWidth(v)
    ensures FatByte(img, v, c * EntryWidth(v) + j) == Low(fat[c], EntryWidth(v))[j]
  {
    TableByte(EntryWidth(v), fat, c, j);
    hide TableBytes, Low;
  }

  lemma LowTwo(w: Word)
    ensures (Low(w, 2)[1] as int) * 0x100 + Low(w, 2)[0] == w % 0x1_0000
  {
    var a := w / 0x100;
    assert Low(w, 2) == [w % 0x100] + Low(a, 1);
    assert Low(a, 1) == [a % 0x100] + Low(a / 0x100, 0);
    Halves(w);
  }

  lemma Halves(w: nat)
    ensures w % 0x1_0000 == w / 0x100 % 0x100 * 0x100 + w % 0x100
  {
    DivModUnique(w, 0x1_0000, w / 0x100 / 0x100, w / 0x100 % 0x100 * 0x100 + w % 0x100);
  }

  lemma LowFour(w: Word)
    ensures var s := Low(w, 4);
            (s[3] as int) * 0x100_0000 + (s[2] as int) * 0x1_0000 + (s[1] as int) * 0x100 + s[0] == w
  {
    DwordBack(w);
  }

  // ---------- directory entries (section 6) ----------

  datatype DirFields = DirFields(name: Name, attr: Byte, ntRes: Byte, tenth: Byte, crtTime: nat, crtDate: nat,
                                 accDate: nat, cluster: Word, wrtTime: nat, wrtDate: nat, size: Word)

  // The cluster is kept in two halves
  function EntryFields(d: DirFields): (f: seq<seq<Byte>>)
    ensures |f| == 12
  {
    [d.name, [d.attr], [d.ntRes], [d.tenth], Low(d.crtTime, 2), Low(d.crtDate, 2), Low(d.accDate, 2),
     Low(d.cluster / 0x1_0000, 2), Low(d.wrtTime, 2), Low(d.wrtDate, 2), Low(d.cluster % 0x1_0000, 2), Low(d.size, 4)]
  }

  function EntryBytes(d: DirFields): (e: Entry) {
    EntrySize(d);
    Laid(EntryFields(d), 12)
  }

  lemma EntrySize(d: DirFields)
    ensures var f := EntryFields(d);
            && |Laid(f, 0)| == 0 && |Laid(f, 1)| == 11 && |Laid(f, 7)| == 20 && |Laid(f, 10)| == 26
            && |Laid(f, 11)| == 28 && |Laid(f, 12)| == 32
  {
    var f := EntryFields(d);
    hide Low;
    assert |Laid(f, 1)| == 11;
    assert |Laid(f, 2)| == 12;
    assert |Laid(f, 3)| == 13;
    assert |Laid(f, 4)| == 14;
    assert |Laid(f, 5)| == 16;
    assert |Laid(f, 6)| == 18;
    assert |Laid(f, 7)| == 20;
    assert |Laid(f, 8)| == 22;
    assert |Laid(f, 9)| == 24;
    assert |Laid(f, 10)| == 26;
    assert |Laid(f, 11)| == 28;
    assert |Laid(f, 12)| == 32;
  }

  /** An entry written field after field gives its name, kind, cluster and size back. */
  lemma EntryBack(v: Volume, d: DirFields, name: Name)
    ensures var e := EntryBytes(d);
            && e[0] == d.name[0]
            && (Matches(e, name) <==> name == d.name && d.attr / 8 % 2 == 0)
            && (IsDirectory(e) <==> d.attr / 16 % 2 == 1)
            && GetClust(v, e) == (if v.fsType == Fat32 then d.cluster else d.cluster % 0x1_0000)
            && FileSize(e) == d.size
  {
    var e, f := EntryBytes(d), EntryFields(d);
    EntrySize(d);
    FieldAt(f, 12, 0);
    FieldAt(f, 12, 1);
    FieldAt(f, 12, 7);
    FieldAt(f, 12, 10);
    FieldAt(f, 12, 11);
    hide Laid, Low, Matches, IsDirectory, LdWord, LdDword, EntryBytes;
    assert e[0..11] == d.name && e[11..12] == [d.attr];
    NameAndKind(e, d.name, d.attr, name);
    WordBack(d.cluster / 0x1_0000);
    WordBack(d.cluster % 0x1_0000);
    DwordBack(d.size);
  }

  lemma NameAndKind(e: Entry, written: Name, attr: Byte, name: Name)
    requires e[0..11] == written && e[11..12] == [attr]
    ensures e[0] == written[0]
    ensures Matches(e, name) <==> name == written && attr / 8 % 2 == 0
    ensures IsDirectory(e) <==> attr / 16 % 2 == 1
  {
    assert e[0..11][0] == e[0] && e[11..12][0] == e[11] && e[..11] == e[0..11];
    DirectoryBit(e);
    Pow2Values();
    BitIs(e[11], 3);
    hide And, Pow2, IsDirectory;
  }

  /** A directory: its entries one after the other. */
  function DirBytes(ds: seq<DirFields>): (s: seq<Byte>)
    ensures |s| == 32 * |ds|
  {
    if |ds| == 0 then [] else DirBytes(ds[..|ds| - 1]) + EntryBytes(ds[|ds| - 1])
  }

  lemma {:induction false} DirBytesAt(ds: seq<DirFields>, i: nat)
    requires i < |ds|
    ensures DirBytes(ds)[32 * i..32 * i + 32] == EntryBytes(ds[i])
    decreases |ds|
  {
    var n := |ds| - 1;
    var t := DirBytes(ds[..n]);
    assert DirBytes(ds) == t + EntryBytes(ds[n]);
    hide DirBytes, EntryBytes;
    if i < n {
      DirBytesAt(ds[..n], i);
      Front(t, EntryBytes(ds[n]), 32 * i, 32 * i + 32);
    } else {
      Back(t, EntryBytes(ds[n]), 32 * i, 32 * i + 32);
    }
  }
}
