/** Whole runs: any sequence of seeks and reads on an open file against an ideal file, a
    byte string with a position. */
module FatSession {
  import opened Bits
  import opened Disk
  import opened FatSpec
  import opened FatFile
  import opened FatMount
  import opened FatNames
  import opened FatDir

  datatype Op = DoRead(count: nat) | DoSeek(offset: Word)

  datatype Effect = Effect(data: seq<Byte>, pos: nat)

  /** One operation on the ideal file. */
  function Step(file: seq<Byte>, pos: nat, op: Op): (e: Effect)
    requires pos <= |file|
    ensures e.pos <= |file|
  {
    match op
    case DoRead(count) =>
      var n := Min(count, |file| - pos);
      Effect(file[pos..pos + n], pos + n)
    case DoSeek(offset) => Effect([], Min(offset, |file|))
  }

  /** What the ideal file delivers, operation by operation. */
  function Ideal(file: seq<Byte>, pos: nat, ops: seq<Op>): (out: seq<seq<Byte>>)
    requires pos <= |file|
    ensures |out| == |ops|
    decreases |ops|
  {
    if |ops| == 0 then []
    else
      var e := Step(file, pos, ops[0]);
      [e.data] + Ideal(file, e.pos, ops[1..])
  }

  /** The chain reaches the last byte of the file. */
  ghost predicate Complete(fs: FatFs)
    requires fs.vol.csize > 0
    reads fs
  {
    forall q: nat :: q < fs.fsize ==> Reaches(fs.drive.image, fs.vol, fs.orgClust, ClusterIndex(fs.vol, q))
  }

  lemma CompleteFromLast(fs: FatFs)
    requires fs.vol.csize > 0
    requires fs.fsize > 0 ==> Reaches(fs.drive.image, fs.vol, fs.orgClust, ClusterIndex(fs.vol, fs.fsize - 1))
    ensures Complete(fs)
  {
    forall q: nat | q < fs.fsize
      ensures Reaches(fs.drive.image, fs.vol, fs.orgClust, ClusterIndex(fs.vol, q))
    {
      ReachesMonotone(fs.drive.image, fs.vol, fs.orgClust, q, fs.fsize - 1);
    }
  }

  /** The chain of the file that the entry describes reaches every byte of it. */
  ghost predicate Intact(img: Image, v: Volume, e: Entry)
    requires v.csize > 0
  {
    forall q: nat :: q < FileSize(e) ==> Reaches(img, v, GetClust(v, e), ClusterIndex(v, q))
  }

  lemma IntactIsComplete(fs: FatFs, e: Entry)
    requires fs.vol.csize > 0 && fs.orgClust == GetClust(fs.vol, e) && fs.fsize == FileSize(e)
    ensures Intact(fs.drive.image, fs.vol, e) == Complete(fs)
  {
    hide GetClust, FileSize, Reaches;
  }

  /** A read of `count` bytes at p: the result, the position afterwards, and the data if it
      succeeds. */
  ghost predicate DidRead(img: Image, v: Volume, org: Word, size: Word, p: nat, count: nat, res: FResult, pos: nat,
                          data: seq<Byte>)
    requires v.csize > 0
  {
    p <= size &&
    var n := Min(count, size - p);
    && res == (if n == 0 || Reaches(img, v, org, ClusterIndex(v, p + n - 1)) then FR_OK else FR_DISK_ERR)
    && (if res == FR_OK then pos == p + n && data == Content(img, v, org, size)[p..p + n] else data == [])
  }

  lemma DeliveredTo(img: Image, v: Volume, org: Word, size: Word, p: nat, count: nat, res: FResult, br: nat,
                    before: seq<Byte>, after: seq<Byte>)
    requires v.csize > 0 && p <= size && br <= Min(count, size - p) && br <= |after|
    requires var n := Min(count, size - p);
      && (res == FR_OK || res == FR_DISK_ERR) && (res == FR_OK <==> br == n)
      && (res == FR_OK <==> n == 0 || Reaches(img, v, org, ClusterIndex(v, p + n - 1)))
      && Delivered(Content(img, v, org, size), p, br, before, after)
    ensures DidRead(img, v, org, size, p, count, res, p + br, if res == FR_OK then after[..br] else [])
  {
    hide Reaches, ClusterIndex, Content;
  }

  // pf_read into a buffer of its own
  method ReadData(fs: FatFs, count: nat) returns (res: FResult, data: seq<Byte>)
    requires fs.Valid() && fs.vol.csize > 0 && (fs.isOpen ==> fs.fptr <= fs.fsize)
    modifies fs`isOpen, fs`fptr, fs`currClust, fs`dsect, fs.drive, fs.drive.buf
    ensures fs.Valid() && Traffic(fs.vol, old(fs.drive.log), fs.drive.log)
    ensures fs.isOpen == (res == FR_OK)
    ensures !old(fs.isOpen) ==> res == FR_NOT_OPENED && data == []
    ensures old(fs.isOpen) ==>
      DidRead(fs.drive.image, fs.vol, fs.orgClust, fs.fsize, old(fs.fptr), count, res, fs.fptr, data)
  {
    assert fs.mounted;
    hide Sound, Traffic, Reaches, Nth, ByteSector, Content, ClusterIndex, CursorOk, FatFs.Ready, FatFs.Valid,
      Delivered, DidRead, Min;
    ghost var p, open := fs.fptr, fs.isOpen;
    var buff := new Byte[count](_ => 0);
    ghost var before := buff[..];
    var br;
    res, br := fs.Read(buff, count);
    if open {
      DeliveredTo(fs.drive.image, fs.vol, fs.orgClust, fs.fsize, p, count, res, br, before, buff[..]);
    }
    data := if res == FR_OK then buff[..br] else [];
  }

  method ReadOp(fs: FatFs, count: nat) returns (ok: bool, data: seq<Byte>)
    requires fs.Valid() && fs.isOpen && fs.vol.csize > 0
    modifies fs`isOpen, fs`fptr, fs`currClust, fs`dsect, fs.drive, fs.drive.buf
    ensures fs.Valid() && fs.isOpen == ok && Traffic(fs.vol, old(fs.drive.log), fs.drive.log)
    ensures old(Complete(fs)) ==> ok
    ensures old(fs.fptr) <= fs.fsize
    ensures ok ==> Effect(data, fs.fptr) == Step(fs.Bytes(), old(fs.fptr), DoRead(count))
  {
    assert fs.fptr <= fs.fsize;
    hide Sound, Traffic, Reaches, Nth, Content, ClusterIndex, CursorOk, FatFs.Ready, FatFs.Valid;
    var res;
    res, data := ReadData(fs, count);
    ok := res == FR_OK;
  }

  method SeekOp(fs: FatFs, offset: Word) returns (ok: bool)
    requires fs.Valid() && fs.isOpen && fs.vol.csize > 0
    modifies fs`isOpen, fs`fptr, fs`currClust, fs`dsect, fs.drive, fs.drive.buf
    ensures fs.Valid() && fs.isOpen == ok && Traffic(fs.vol, old(fs.drive.log), fs.drive.log)
    ensures old(Complete(fs)) ==> ok
    ensures ok ==> fs.fptr == Min(offset, fs.fsize)
  {
    hide Sound, Traffic, Reaches, Nth, ByteSector, Content, ClusterIndex, CursorOk;
    var res := fs.Lseek(offset);
    ok := res == FR_OK;
  }

  /** Any sequence of operations delivers what the ideal file delivers, as long as none
      fails; and none fails when the chain reaches the end of the file. */
  method Run(fs: FatFs, ops: seq<Op>) returns (ok: bool, out: seq<seq<Byte>>)
    requires fs.Valid() && fs.isOpen && fs.vol.csize > 0
    modifies fs`isOpen, fs`fptr, fs`currClust, fs`dsect, fs.drive, fs.drive.buf
    ensures fs.Valid() && Traffic(fs.vol, old(fs.drive.log), fs.drive.log)
    ensures old(Complete(fs)) ==> ok
    ensures fs.isOpen == ok
    ensures old(fs.fptr) <= fs.fsize
    ensures ok ==> out == Ideal(fs.Bytes(), old(fs.fptr), ops)
    decreases |ops|
  {
    assert fs.fptr <= fs.fsize;
    hide Sound, Traffic, Reaches, Nth, ByteSector, Content, ClusterIndex, CursorOk, FatFs.Ready, Complete;
    if |ops| == 0 {
      NoTraffic(fs.vol, fs.drive.log);
      return true, [];
    }
    var data: seq<Byte> := [];
    match ops[0] {
      case DoRead(count) =>
        ok, data := ReadOp(fs, count);
      case DoSeek(offset) =>
        ok := SeekOp(fs, offset);
    }
    out := [data];
    if !ok { return; }
    ghost var log1 := fs.drive.log;
    var rest;
    ok, rest := Run(fs, ops[1..]);
    out := out + rest;
    Then(fs.vol, old(fs.drive.log), log1, fs.drive.log);
  }

  /** Where a seek above 0 ends, and whether it succeeds. */
  ghost predicate Sought(fs: FatFs, o: nat, res: FResult)
    requires o > 0
    reads fs
  {
    && fs.vol.csize > 0 && fs.isOpen == (res == FR_OK) && (res == FR_OK || res == FR_DISK_ERR)
    && (res == FR_OK <==> Reaches(fs.drive.image, fs.vol, fs.orgClust, ClusterIndex(fs.vol, o - 1)))
    && (res == FR_OK ==>
          && fs.fptr == o && fs.currClust == Nth(fs.drive.image, fs.vol, fs.orgClust, ClusterIndex(fs.vol, o - 1))
          && fs.dsect == SeekSector(fs.drive.image, fs.vol, fs.orgClust, o))
  }

  method SeekAbove(fs: FatFs, offset: Word) returns (res: FResult)
    requires fs.Valid() && fs.isOpen && offset > 0 && fs.fsize > 0
    modifies fs`isOpen, fs`fptr, fs`currClust, fs`dsect, fs.drive, fs.drive.buf
    ensures Sought(fs, Min(offset, fs.fsize), res)
  {
    assert fs.vol.csize > 0;
    hide Sound, Traffic, Reaches, Nth, SeekSector, ClusterIndex, CursorOk, FatFs.Ready;
    res := fs.Lseek(offset);
  }

  lemma SameSought(a: FatFs, b: FatFs, o: nat, ra: FResult, rb: FResult)
    requires o > 0 && Sought(a, o, ra) && Sought(b, o, rb)
    requires a.drive.image == b.drive.image && a.vol == b.vol && a.orgClust == b.orgClust
    ensures ra == rb && a.isOpen == b.isOpen
    ensures ra == FR_OK ==> a.fptr == b.fptr && a.currClust == b.currClust && a.dsect == b.dsect
  {
    hide Reaches, Nth, SeekSector, ClusterIndex;
  }

  /** From any two cursors in the same file, one of them perhaps at the top, a seek to an
      offset above 0 gives the same answer and, when it succeeds, the same cursor. */
  method SeekTwoWays(a: FatFs, b: FatFs, offset: Word) returns (ra: FResult, rb: FResult)
    requires a != b && a.drive != b.drive && a.drive.buf != b.drive.buf
    requires a.Valid() && a.isOpen && b.Valid() && b.isOpen
    requires a.drive.image == b.drive.image && a.vol == b.vol && a.orgClust == b.orgClust && a.fsize == b.fsize
    requires offset > 0 && a.fsize > 0
    modifies a`isOpen, a`fptr, a`currClust, a`dsect, a.drive, a.drive.buf
    modifies b`isOpen, b`fptr, b`currClust, b`dsect, b.drive, b.drive.buf
    ensures ra == rb && a.isOpen == b.isOpen
    ensures ra == FR_OK ==> a.fptr == b.fptr && a.currClust == b.currClust && a.dsect == b.dsect
  {
    hide Sound, Traffic, Reaches, Nth, SeekSector, ClusterIndex, CursorOk, Sought;
    ra := SeekAbove(a, offset);
    rb := SeekAbove(b, offset);
    hide FatFs.Valid;
    SameSought(a, b, Min(offset, a.fsize), ra, rb);
  }

  /** The geometry of a consistent volume on the disk. */
  function OnDisk(img: Image): Geometry {
    var start := VolumeStart(img);
    var b := BpbOf(img(start));
    if BootKind(img(start)) == 0 && Consistent(b, start) then Derive(b, start) else Unsupported
  }

  lemma OnDiskIs(img: Image)
    requires OnDisk(img).Supported?
    ensures var start := VolumeStart(img);
            var b := BpbOf(img(start));
            && BootKind(img(start)) == 0 && Consistent(b, start) && b.secPerClus > 0 && Derive(b, start) == OnDisk(img)
  {
    hide BootKind, BpbOf, VolumeStart, Derive;
  }

  /** The whole way from the disk: mount, open by path, then any operations.  The disk image
      alone determines the outcome: which file the path names or why it names none, that
      every operation succeeds when the chain of its entry is intact, and that what they
      deliver is the bytes of that chain, cut at the size in the entry. */
  method FromDisk(fs: FatFs, path: seq<Byte>, ops: seq<Op>) returns (res: FResult, ok: bool, out: seq<seq<Byte>>)
    requires fs.drive.Valid() && CString(path) && OnDisk(fs.drive.image).Supported?
    modifies fs, fs.drive, fs.drive.buf
    ensures fs.Valid() && fs.vol == OnDisk(fs.drive.image).vol && fs.vol.csize > 0
    ensures match FileAt(fs.drive.image, fs.vol, path)
      case Found(e) =>
        && res == FR_OK && fs.orgClust == GetClust(fs.vol, e) && fs.fsize == FileSize(e)
        && (Intact(fs.drive.image, fs.vol, e) ==> ok)
        && (ok ==> fs.isOpen
                   && out == Ideal(Content(fs.drive.image, fs.vol, GetClust(fs.vol, e), FileSize(e)), 0, ops))
      case NotFound => res == FR_NO_FILE && !fs.isOpen
      case Failed => res == FR_DISK_ERR && !fs.isOpen
  {
    hide BootKind, LdWord, LdDword, Sound, RootInPlace, Consistent, Content, FileAt, GetClust, CString, Intact,
      FatFs.Ready, CursorOk, Traffic, Ideal, OnDisk, Derive, BpbOf, VolumeStart, Complete;
    OnDiskIs(fs.drive.image);
    ok, out := false, [];
    var m := Mount(fs, true);
    res := Open(fs, path);
    if res == FR_OK {
      IntactIsComplete(fs, FileAt(fs.drive.image, fs.vol, path).entry);
      ok, out := Run(fs, ops);
    }
  }

  // ---------- many files on one mounted volume ----------

  datatype Cmd = OpenFile(path: seq<Byte>) | ReadFrom(count: nat) | SeekTo(offset: Word)

  /** The file that is open: where its chain starts, its size, and the position in it. */
  datatype Current = Closed | Opened(org: Word, size: Word, pos: nat)

  /** The result code, and the data of a read that succeeds. */
  datatype Reply = Reply(res: FResult, data: seq<Byte>)

  ghost predicate Ready(cur: Current) { cur.Opened? ==> cur.pos <= cur.size }

  /** The chain reaches the byte before `end`, if there is one. */
  ghost predicate Within(img: Image, v: Volume, org: Word, end: nat)
    requires v.csize > 0
  {
    end == 0 || Reaches(img, v, org, ClusterIndex(v, end - 1))
  }

  ghost predicate Usable(cmd: Cmd) { cmd.OpenFile? ==> CString(cmd.path) }

  /** What a command answers, by the disk image and the file that is open. */
  ghost function Answer(img: Image, v: Volume, cur: Current, cmd: Cmd): (r: Reply)
    requires v.csize > 0 && Ready(cur) && Usable(cmd)
  {
    match cmd
    case OpenFile(path) =>
      (match FileAt(img, v, path)
       case Found(_) => Reply(FR_OK, [])
       case NotFound => Reply(FR_NO_FILE, [])
       case Failed => Reply(FR_DISK_ERR, []))
    case ReadFrom(count) =>
      if cur.Closed? then Reply(FR_NOT_OPENED, [])
      else
        var n := Min(count, cur.size - cur.pos);
        if n == 0 || Within(img, v, cur.org, cur.pos + n)
        then Reply(FR_OK, Content(img, v, cur.org, cur.size)[cur.pos..cur.pos + n])
        else Reply(FR_DISK_ERR, [])
    case SeekTo(offset) =>
      if cur.Closed? then Reply(FR_NOT_OPENED, [])
      else Reply(if Within(img, v, cur.org, Min(offset, cur.size)) then FR_OK else FR_DISK_ERR, [])
  }

  /** The file that is open afterwards. */
  ghost function Follow(img: Image, v: Volume, cur: Current, cmd: Cmd): (next: Current)
    requires v.csize > 0 && Ready(cur) && Usable(cmd)
    ensures Ready(next)
  {
    if cmd.OpenFile? then
      match FileAt(img, v, cmd.path)
      case Found(e) => Opened(GetClust(v, e), FileSize(e), 0)
      case NotFound => Closed
      case Failed => Closed
    else if Answer(img, v, cur, cmd).res != FR_OK then Closed
    else if cmd.ReadFrom? then cur.(pos := cur.pos + Min(cmd.count, cur.size - cur.pos))
    else cur.(pos := Min(cmd.offset, cur.size))
  }

  ghost predicate AllUsable(cmds: seq<Cmd>) { forall k :: 0 <= k < |cmds| ==> Usable(cmds[k]) }

  ghost function Replies(img: Image, v: Volume, cur: Current, cmds: seq<Cmd>): (out: seq<Reply>)
    requires v.csize > 0 && Ready(cur) && AllUsable(cmds)
    ensures |out| == |cmds|
    decreases |cmds|
  {
    if |cmds| == 0 then []
    else [Answer(img, v, cur, cmds[0])] + Replies(img, v, Follow(img, v, cur, cmds[0]), cmds[1..])
  }

  ghost function CurrentOf(fs: FatFs): (cur: Current)
    reads fs
  {
    if fs.isOpen then Opened(fs.orgClust, fs.fsize, fs.fptr) else Closed
  }

  method ServeOpen(fs: FatFs, path: seq<Byte>) returns (res: FResult)
    requires fs.Valid() && fs.vol.csize > 0 && RootInPlace(fs.vol) && CString(path) && Ready(CurrentOf(fs))
    modifies fs`isOpen, fs`orgClust, fs`fsize, fs`fptr, fs.drive, fs.drive.buf
    ensures fs.Valid() && Ready(CurrentOf(fs))
    ensures Reply(res, []) == Answer(fs.drive.image, fs.vol, old(CurrentOf(fs)), OpenFile(path))
    ensures CurrentOf(fs) == Follow(fs.drive.image, fs.vol, old(CurrentOf(fs)), OpenFile(path))
  {
    assert fs.mounted;
    hide Sound, CursorOk, FatFs.Ready, FatFs.Valid, RootInPlace, FileAt, GetClust, FileSize, CString;
    res := Open(fs, path);
  }

  lemma ReadAnswers(img: Image, v: Volume, cur: Current, count: nat, res: FResult, pos: nat,
                    data: seq<Byte>)
    requires v.csize > 0 && Ready(cur)
    requires cur.Closed? ==> res == FR_NOT_OPENED && data == []
    requires cur.Opened? ==>
      DidRead(img, v, cur.org, cur.size, cur.pos, count, res, pos, data)
    ensures Reply(res, data) == Answer(img, v, cur, ReadFrom(count))
    ensures Follow(img, v, cur, ReadFrom(count)) ==
      if res == FR_OK then cur.(pos := pos) else Closed
  {
    hide Reaches, ClusterIndex, Content;
  }

  method ServeRead(fs: FatFs, count: nat) returns (res: FResult, data: seq<Byte>)
    requires fs.Valid() && fs.vol.csize > 0 && Ready(CurrentOf(fs))
    modifies fs`isOpen, fs`fptr, fs`currClust, fs`dsect, fs.drive, fs.drive.buf
    ensures fs.Valid() && Ready(CurrentOf(fs))
    ensures Reply(res, data) == Answer(fs.drive.image, fs.vol, old(CurrentOf(fs)), ReadFrom(count))
    ensures CurrentOf(fs) == Follow(fs.drive.image, fs.vol, old(CurrentOf(fs)), ReadFrom(count))
  {
    assert fs.mounted;
    hide Sound, Traffic, Reaches, Nth, Content, ClusterIndex, CursorOk, FatFs.Ready, FatFs.Valid, Answer, Follow,
      DidRead;
    ghost var cur := CurrentOf(fs);
    res, data := ReadData(fs, count);
    ReadAnswers(fs.drive.image, fs.vol, cur, count, res, fs.fptr, data);
  }

  method ServeSeek(fs: FatFs, offset: Word) returns (res: FResult)
    requires fs.Valid() && fs.vol.csize > 0 && Ready(CurrentOf(fs))
    modifies fs`isOpen, fs`fptr, fs`currClust, fs`dsect, fs.drive, fs.drive.buf
    ensures fs.Valid() && Ready(CurrentOf(fs))
    ensures Reply(res, []) == Answer(fs.drive.image, fs.vol, old(CurrentOf(fs)), SeekTo(offset))
    ensures CurrentOf(fs) == Follow(fs.drive.image, fs.vol, old(CurrentOf(fs)), SeekTo(offset))
  {
    assert fs.mounted;
    hide Sound, Traffic, Reaches, Nth, SeekSector, ClusterIndex, CursorOk, FatFs.Ready, FatFs.Valid;
    res := fs.Lseek(offset);
  }

  method ServeOne(fs: FatFs, cmd: Cmd) returns (r: Reply)
    requires fs.Valid() && fs.vol.csize > 0 && RootInPlace(fs.vol) && Usable(cmd) && Ready(CurrentOf(fs))
    modifies fs`isOpen, fs`orgClust, fs`fsize, fs`fptr, fs`currClust, fs`dsect, fs.drive, fs.drive.buf
    ensures fs.Valid() && Ready(CurrentOf(fs))
    ensures r == Answer(fs.drive.image, fs.vol, old(CurrentOf(fs)), cmd)
    ensures CurrentOf(fs) == Follow(fs.drive.image, fs.vol, old(CurrentOf(fs)), cmd)
  {
    hide FatFs.Valid, RootInPlace, CString, Answer, Follow, Ready;
    var res, data := FR_OK, [];
    match cmd {
      case OpenFile(path) => res := ServeOpen(fs, path);
      case ReadFrom(count) => res, data := ServeRead(fs, count);
      case SeekTo(offset) => res := ServeSeek(fs, offset);
    }
    r := Reply(res, data);
  }

  /** Any sequence of opens, reads and seeks on one mounted volume: every answer, failures
      included, is determined by the disk image and the commands before it. */
  method Serve(fs: FatFs, cmds: seq<Cmd>) returns (out: seq<Reply>)
    requires fs.Valid() && fs.vol.csize > 0 && RootInPlace(fs.vol) && AllUsable(cmds) && Ready(CurrentOf(fs))
    modifies fs`isOpen, fs`orgClust, fs`fsize, fs`fptr, fs`currClust, fs`dsect, fs.drive, fs.drive.buf
    ensures fs.Valid() && Ready(CurrentOf(fs))
    ensures out == Replies(fs.drive.image, fs.vol, old(CurrentOf(fs)), cmds)
    decreases |cmds|
  {
    hide Usable, RootInPlace, FatFs.Valid, CurrentOf, Answer, Follow;
    out := [];
    if |cmds| > 0 {
      var r := ServeOne(fs, cmds[0]);
      var rest := Serve(fs, cmds[1..]);
      out := [r] + rest;
    }
  }

  ghost function FollowAll(img: Image, v: Volume, cur: Current, cmds: seq<Cmd>): (next: Current)
    requires v.csize > 0 && Ready(cur) && AllUsable(cmds)
    ensures Ready(next)
    decreases |cmds|
  {
    if |cmds| == 0 then cur else FollowAll(img, v, Follow(img, v, cur, cmds[0]), cmds[1..])
  }

  lemma {:induction false} RepliesSplit(img: Image, v: Volume, cur: Current, a: seq<Cmd>, b: seq<Cmd>)
    requires v.csize > 0 && Ready(cur) && AllUsable(a) && AllUsable(b)
    ensures AllUsable(a + b)
    ensures Replies(img, v, cur, a + b) == Replies(img, v, cur, a) + Replies(img, v, FollowAll(img, v, cur, a), b)
    decreases |a|
  {
    hide Usable, Answer, Follow;
    if |a| == 0 {
      assert a + b == b;
    } else {
      assert (a + b)[1..] == a[1..] + b;
      RepliesSplit(img, v, Follow(img, v, cur, a[0]), a[1..], b);
    }
  }

  lemma Openable(path: seq<Byte>, after: seq<Cmd>)
    requires CString(path) && AllUsable(after)
    ensures AllUsable([OpenFile(path)] + after)
  {}

  /** Opening a file makes what happened before irrelevant: the answers from then on are
      those that a volume with no file open gives. */
  lemma OpenForgets(img: Image, v: Volume, cur: Current, before: seq<Cmd>, path: seq<Byte>, after: seq<Cmd>)
    requires v.csize > 0 && Ready(cur) && AllUsable(before) && CString(path) && AllUsable(after)
    ensures AllUsable([OpenFile(path)] + after) && AllUsable(before + ([OpenFile(path)] + after))
    ensures Replies(img, v, cur, before + ([OpenFile(path)] + after)) ==
            Replies(img, v, cur, before) + Replies(img, v, Closed, [OpenFile(path)] + after)
  {
    Openable(path, after);
    hide AllUsable, CString;
    var rest, now := [OpenFile(path)] + after, FollowAll(img, v, cur, before);
    RepliesSplit(img, v, cur, before, rest);
    assert rest[0] == OpenFile(path);
    assert Follow(img, v, now, rest[0]) == Follow(img, v, Closed, rest[0]);
    assert Answer(img, v, now, rest[0]) == Answer(img, v, Closed, rest[0]);
    hide Answer, Follow;
  }

  function Command(op: Op): Cmd {
    match op
    case DoRead(count) => ReadFrom(count)
    case DoSeek(offset) => SeekTo(offset)
  }

  // Reads and seeks as commands
  function Commands(ops: seq<Op>): (cmds: seq<Cmd>)
    ensures |cmds| == |ops|
    ensures forall k :: 0 <= k < |ops| ==> cmds[k] == Command(ops[k])
  {
    seq(|ops|, i requires 0 <= i < |ops| => Command(ops[i]))
  }

  // FR_OK with these data
  function Succeeding(data: seq<seq<Byte>>): seq<Reply> {
    if |data| == 0 then [] else [Reply(FR_OK, data[0])] + Succeeding(data[1..])
  }

  lemma IntactStep(img: Image, v: Volume, org: Word, size: Word, pos: nat, op: Op)
    requires v.csize > 0 && pos <= size
    requires forall q: nat :: q < size ==> Reaches(img, v, org, ClusterIndex(v, q))
    ensures var e, cur := Step(Content(img, v, org, size), pos, op), Opened(org, size, pos);
            && Answer(img, v, cur, Command(op)) == Reply(FR_OK, e.data)
            && Follow(img, v, cur, Command(op)) == Opened(org, size, e.pos)
  {
    hide Reaches, Content, ClusterIndex;
  }

  /** On a file whose chain is intact the answers are all FR_OK, with the data that the
      ideal file delivers. */
  lemma {:induction false} IntactIsIdeal(img: Image, v: Volume, org: Word, size: Word, pos: nat, ops: seq<Op>)
    requires v.csize > 0 && pos <= size
    requires forall q: nat :: q < size ==> Reaches(img, v, org, ClusterIndex(v, q))
    ensures Replies(img, v, Opened(org, size, pos), Commands(ops)) ==
            Succeeding(Ideal(Content(img, v, org, size), pos, ops))
    decreases |ops|
  {
    if |ops| > 0 {
      hide Reaches, Content, ClusterIndex, Answer, Follow, Step, Command;
      IntactStep(img, v, org, size, pos, ops[0]);
      var file := Content(img, v, org, size);
      var e := Step(file, pos, ops[0]);
      assert Commands(ops)[1..] == Commands(ops[1..]);
      assert Ideal(file, pos, ops)[1..] == Ideal(file, e.pos, ops[1..]);
      IntactIsIdeal(img, v, org, size, e.pos, ops[1..]);
    }
  }
}
