/** The serial port's transmit ring (stage3/x86/serial.c) over the packed head/tail word
    of stage3/mem/ringbuf.cpp, with the UART it feeds. */
module Serials {
  import opened Bits
  import opened Seqs

  const SERIAL_BUFSIZE := 64
  const SERIAL_FIFO := 16
  const MAX_ELEM := 0x7FFF

  // ---------- the packed header ----------

  function HeadOf(hdr: Word): (r: nat)
    ensures r == hdr % 0x8000
  {
    Pow2Values(); AndLowMask(hdr, 15);
    And(hdr, MAX_ELEM)
  }

  function TailOf(hdr: Word): (r: nat)
    ensures r == hdr / 0x1_0000 % 0x8000
  {
    Pow2Values(); AndLowMask(hdr / 0x1_0000, 15);
    And(hdr / 0x1_0000, MAX_ELEM)
  }

  // Unsigned 32-bit arithmetic and its signed reading
  function Wrap(x: int): Word { x % TWO_32 }

  function Signed(x: Word): int { if x < 0x8000_0000 then x else x - TWO_32 }

  /** buf_elements: the unsigned difference, with no mask of its own. */
  function Elements(hdr: Word): Word {
    Wrap(HeadOf(hdr) - TailOf(hdr))
  }

  // x & (SERIAL_BUFSIZE - 1)
  function Slot(x: nat): (r: nat)
    ensures r == x % 64
  {
    Pow2Values(); AndLowMask(x, 6);
    And(x, SERIAL_BUFSIZE - 1)
  }

  /** What buf_write returns for num bytes; the comparison is unsigned. */
  function WriteSlot(hdr: Word, num: Word): int {
    var capacity := Signed(Wrap(SERIAL_BUFSIZE - Elements(hdr) - 1));
    if Wrap(capacity) < num then -capacity else Slot(HeadOf(hdr))
  }

  /** What buf_read returns for num bytes. */
  function ReadSlot(hdr: Word, num: Word): int {
    var elements := Signed(Elements(hdr));
    if Wrap(elements) < num then -elements else Slot(TailOf(hdr))
  }

  // The header after h bytes have been committed and t bytes taken out
  function Header(h: nat, t: nat): Word
    requires t <= h < 0x1_0000
  {
    t * 0x1_0000 + h
  }

  lemma RawFields(h: nat, t: nat)
    requires t <= h < 0x1_0000
    ensures HeadOf(Header(h, t)) == h % 0x8000 && TailOf(Header(h, t)) == t % 0x8000
  {
    hide HeadOf, TailOf;
    var hdr := Header(h, t);
    DivModUnique(hdr, 0x8000, 2 * t + h / 0x8000, h % 0x8000);
    DivModUnique(hdr, 0x1_0000, t, h);
  }

  lemma HeaderFields(h: nat, t: nat)
    requires t <= h < 0x8000
    ensures HeadOf(Header(h, t)) == h && TailOf(Header(h, t)) == t && Elements(Header(h, t)) == h - t
  {
    hide HeadOf, TailOf, Header, Elements;
    RawFields(h, t);
    Small(h, 0x8000);
    Small(t, 0x8000);
    ElementsFrom(Header(h, t), h, t);
  }

  lemma ElementsFrom(hdr: Word, h: nat, t: nat)
    requires HeadOf(hdr) == h && TailOf(hdr) == t && t <= h < 0x8000
    ensures Elements(hdr) == h - t
  {
    hide HeadOf, TailOf, Wrap, Signed;
    Positive(h - t);
  }

  /** ser_write reads the occupancy when t0 bytes have left, and asks for min(n, 64 -
      occupancy) bytes; buf_write finds t1 bytes gone.  The position it then copies to is
      that of the head exactly when a byte left in between, or n leaves one slot free, or
      only the last slot is wanted and it is slot 0. */
  lemma WritePosition(h: nat, t0: nat, t1: nat, n: nat)
    requires t0 <= t1 <= h < 0x8000 && h - t0 <= 63
    ensures var written := if n <= 64 - (h - t0) then n else 64 - (h - t0);
            WriteSlot(Header(h, t1), written) == h % 64
            <==> (t0 < t1 || n <= 63 - (h - t0) || (h - t0 == 63 && h % 64 == 0))
  {
    SlotsOf(h, t1, if n <= 64 - (h - t0) then n else 64 - (h - t0));
    hide WriteSlot, Header;
    assert h % 64 == 0 ==> h % 64 == -(63 - 63);
  }

  /** The number of bytes waiting, as buf_elements gives it and the signed callers read it:
      right as long as the totals are on the same side of 0x8000, negative when the head has
      passed it and the tail has not. */
  lemma ElementsAt(h: nat, t: nat)
    requires t <= h < 0x1_0000 && h - t <= 63
    ensures Signed(Elements(Header(h, t))) == if h < 0x8000 || t >= 0x8000 then h - t else h - 0x8000 - t
  {
    RawFields(h, t);
    Low15(h);
    Low15(t);
    SignedWrap(h % 0x8000 - t % 0x8000);
    hide HeadOf, TailOf, Header, Wrap, Signed;
  }

  // The 15 low bits of a 16-bit total
  lemma Low15(x: nat)
    requires x < 0x1_0000
    ensures x % 0x8000 == if x < 0x8000 then x else x - 0x8000
  {
    DivModUnique(x, 0x8000, x / 0x8000, x % 0x8000);
  }

  lemma SignedWrap(x: int)
    requires -0x8000 < x < 0x8000
    ensures Signed(Wrap(x)) == x
  {}

  /** The bytes of a write can be found again exactly when the total stays below 0x8000;
      otherwise the number of waiting bytes is negative. */
  lemma CommittedTotal(h: nat, t: nat, n: nat)
    requires t <= h < 0x8000 && n <= 63 - (h - t)
    ensures var e := Signed(Elements(Wrap(Header(h, t) + n)));
            (e == h + n - t <==> h + n < 0x8000) && (h + n >= 0x8000 ==> e < 0)
  {
    HeaderPut(h, t, n);
    ElementsAt(h + n, t);
    hide Elements, Header, Signed, Wrap;
  }

  lemma Positive(x: int)
    ensures 0 <= x < 0x8000 ==> Wrap(x) == x && Signed(x) == x
  {}

  // buf_write and buf_read in terms of the totals
  lemma SlotsOf(h: nat, t: nat, num: Word)
    requires t <= h < 0x8000 && h - t <= 63
    ensures WriteSlot(Header(h, t), num) == if num <= 63 - (h - t) then h % 64 else -(63 - (h - t))
    ensures ReadSlot(Header(h, t), num) == if num <= h - t then t % 64 else -(h - t)
  {
    hide Header, HeadOf, TailOf, Elements, Wrap, Signed, Slot, WriteSlot, ReadSlot;
    HeaderFields(h, t);
    SlotsBy(Header(h, t), h, t, num);
  }

  lemma SlotsBy(hdr: Word, h: nat, t: nat, num: Word)
    requires HeadOf(hdr) == h && TailOf(hdr) == t && 0 <= Elements(hdr) == h - t <= 63
    ensures WriteSlot(hdr, num) == if num <= 63 - (h - t) then h % 64 else -(63 - (h - t))
    ensures ReadSlot(hdr, num) == if num <= h - t then t % 64 else -(h - t)
  {
    hide HeadOf, TailOf, Elements, Wrap, Signed, Slot;
    var occ := h - t;
    Positive(occ);
    Positive(63 - occ);
    assert SERIAL_BUFSIZE - occ - 1 == 63 - occ;
  }

  /** With an empty ring a request of 64 bytes or more is copied 63 bytes before the
      buffer. */
  lemma WriteBeforeBuffer()
    ensures WriteSlot(Header(0, 0), 64) == -63
  {
    SlotsOf(0, 0, 64);
  }

  /** n bytes of the ring from position t on, across the wrap. */
  function RingSlice(buf: seq<Byte>, t: nat, n: nat): (s: seq<Byte>)
    requires |buf| == SERIAL_BUFSIZE
    ensures |s| == n
    ensures forall i :: 0 <= i < n ==> s[i] == buf[(t + i) % 64]
  {
    seq<Byte>(n, i requires 0 <= i => buf[(t + i) % 64])
  }

  lemma ZeroHeader()
    ensures Header(0, 0) == 0
  {}

  // ---------- runs ----------

  /** A write, with hardware events in the middle of it, or hardware events alone. */
  datatype Turn = Put(data: seq<Byte>, events: nat) | Hardware(events: nat)

  function BytesOf(turn: Turn): seq<Byte> { if turn.Put? then turn.data else [] }

  function Written(turns: seq<Turn>): seq<Byte> {
    if |turns| == 0 then [] else Written(turns[..|turns| - 1]) + BytesOf(turns[|turns| - 1])
  }

  lemma WrittenMore(before: seq<Byte>, turns: seq<Turn>, n: nat)
    requires n < |turns|
    ensures before + Written(turns[..n + 1]) == before + Written(turns[..n]) + BytesOf(turns[n])
  {
    assert turns[..n + 1][..n] == turns[..n];
  }

  /** data copied into the ring at position `head`, across the wrap. */
  function Copied(buf: seq<Byte>, head: nat, data: seq<Byte>): (s: seq<Byte>)
    requires |buf| == SERIAL_BUFSIZE
    ensures |s| == SERIAL_BUFSIZE
  {
    seq<Byte>(64, k requires 0 <= k < 64 =>
      var j := (k - head) % 64;
      if j < |data| then data[j] else buf[k])
  }

  /** Copying to the head of the ring appends to its contents. */
  lemma RingAppend(buf: seq<Byte>, t: nat, n: nat, data: seq<Byte>)
    requires |buf| == SERIAL_BUFSIZE && n + |data| <= 64
    ensures RingSlice(Copied(buf, (t + n) % 64, data), t, n + |data|) == RingSlice(buf, t, n) + data
  {
    var head := (t + n) % 64;
    var s, b := RingSlice(buf, t, n) + data, Copied(buf, head, data);
    forall i | 0 <= i < n + |data|
      ensures b[(t + i) % 64] == s[i]
    {
      RingOffset(t, n, i);
    }
  }

  lemma RingOffset(t: nat, n: nat, i: nat)
    requires n <= 64 && i < 64
    ensures ((t + i) % 64 - (t + n) % 64) % 64 == if i >= n then i - n else i - n + 64
  {
    var a := t % 64;
    assert (t + i) % 64 == if a + i >= 64 then a + i - 64 else a + i;
    assert (t + n) % 64 == if a + n >= 128 then a + n - 128 else if a + n >= 64 then a + n - 64 else a + n;
  }

  lemma HeaderBit15(h: nat, t: nat)
    requires t <= h < 0x8000
    ensures Header(h, t) / 0x8000 % 2 == 0
  {
    assert Header(h, t) == 0x8000 * (2 * t) + h;
  }

  lemma HeaderTake(h: nat, t: nat, k: nat)
    requires t + k <= h < 0x8000
    ensures Wrap(Header(h, t) + Wrap(k * 0x1_0000)) == Header(h, t + k)
  {}

  lemma HeaderPut(h: nat, t: nat, k: nat)
    requires t <= h && h + k < 0x1_0000
    ensures Wrap(Header(h, t) + k) == Header(h + k, t)
  {}

  lemma Regroup<T>(a: seq<T>, c: seq<T>, k: nat)
    requires k <= |c|
    ensures (a + c[..k]) + c[k..] == a + c
  {}

  // How many of n waiting bytes one flush sends
  function Burst(n: nat): nat {
    if n > 16 then 16 else n
  }

  lemma RingSplit(buf: seq<Byte>, t: nat, n: nat, k: nat)
    requires |buf| == SERIAL_BUFSIZE && k <= n
    ensures RingSlice(buf, t, n)[..k] == RingSlice(buf, t, k)
    ensures RingSlice(buf, t, n)[k..] == RingSlice(buf, t + k, n - k)
  {}

  /** The one or two runs of the buffer that a slice of the ring consists of. */
  lemma RingPieces(buf: seq<Byte>, t: nat, n: nat)
    requires |buf| == SERIAL_BUFSIZE && n <= SERIAL_BUFSIZE
    ensures var at := t % 64;
            RingSlice(buf, t, n) == if at + n > 64 then buf[at..] + buf[..at + n - 64] else buf[at..at + n]
  {
    var at := t % 64;
    var s := RingSlice(buf, t, n);
    forall i | 0 <= i < n
      ensures s[i] == buf[if at + i >= 64 then at + i - 64 else at + i]
    {
    }
  }

  // ---------- the port ----------

  class Serial {
    var fifoEmpty: bool
    var hdr: Word
    const buffer: array<Byte>
    ghost var accepted: seq<Byte>  // every byte ser_write took
    ghost var sent: seq<Byte>      // every byte given to the UART
    // The UART: bytes in its transmit FIFO, and whether its transmit interrupt is raised
    var uart: nat
    var irq: bool

    /** The bytes sent and the bytes in the ring are the bytes accepted, in order. */
    ghost predicate RingValid()
      reads this, buffer
    {
      && buffer.Length == SERIAL_BUFSIZE
      && |sent| <= |accepted| < 0x8000 && |accepted| - |sent| <= 63
      && hdr == Header(|accepted|, |sent|)
      && sent + Contents() == accepted
    }

    /** The flag is set exactly when the UART owes no interrupt, and then the ring is
        empty: while bytes wait, a flush is still to come. */
    ghost predicate Valid()
      reads this, buffer
    {
      && RingValid() && UartValid()
      && (Contents() != [] ==> !fifoEmpty)
    }

    /** An interrupt is raised only by an empty FIFO, and the flag is set exactly when none
        is raised or still to come. */
    ghost predicate UartValid()
      reads this
    {
      uart <= SERIAL_FIFO && (irq ==> uart == 0) && fifoEmpty == (!irq && uart == 0)
    }

    /** The bytes in the ring, oldest first. */
    ghost function Contents(): (s: seq<Byte>)
      requires buffer.Length == SERIAL_BUFSIZE && |sent| <= |accepted|
      reads this, buffer
      ensures |s| == |accepted| - |sent|
    {
      RingSlice(buffer[..], |sent|, |accepted| - |sent|)
    }

    /** ser_init: an empty ring; enabling the transmit interrupt of an idle UART raises it. */
    constructor (memory: array<Byte>)
      requires memory.Length == 64
      ensures Valid() && accepted == [] && buffer == memory
    {
      buffer := memory;
      hide Header, RingSlice;
      ZeroHeader();
      fifoEmpty, hdr := false, 0;
      accepted, sent, uart, irq := [], [], 0, true;
      new;
      ghost var c := Contents();
      assert |c| == 0;
      assert sent + c == accepted;
    }

    // ser_ready
    method Ready() returns (n: nat)
      requires Valid()
      ensures n == |Contents()|
    {
      HeaderFields(|accepted|, |sent|);
      n := Elements(hdr);
    }

    // rep_outsb: the UART has room for 16 bytes when its FIFO is empty
    method Outsb(bytes: seq<Byte>)
      requires uart + |bytes| <= SERIAL_FIFO
      modifies this`sent, this`uart
      ensures sent == old(sent) + bytes && uart == old(uart) + |bytes|
    {
      sent, uart := sent + bytes, uart + |bytes|;
    }

    // buf_write; the clearing of bit 15 expands to an addition (atomic.h:36)
    method BufWrite(num: Word) returns (r: int)
      modifies this`hdr
      ensures r == WriteSlot(old(hdr), num)
      ensures old(hdr) / 0x8000 % 2 == 0 ==> hdr == old(hdr)
    {
      var h := hdr;
      Pow2Values(); AndOneBit(h, 15);
      if And(h, 0x8000) != 0 { hdr := Wrap(hdr + Not(0x8000)); }
      r := WriteSlot(h, num);
    }

    /** The header shows a negative number of waiting bytes. */
    ghost predicate Stuck()
      reads this, buffer
    {
      buffer.Length == SERIAL_BUFSIZE && Signed(Elements(hdr)) < 0
    }

    lemma Waiting()
      requires RingValid()
      ensures Signed(Elements(hdr)) == |Contents()| && !Stuck()
    {
      HeaderFields(|accepted|, |sent|);
      Positive(|accepted| - |sent|);
    }

    /** ser_flush: up to 16 bytes to an idle UART, or the note that there was nothing.  With
        the ring stuck nothing is sent, and the note is made all the same. */
    method Flush()
      requires (RingValid() || Stuck()) && uart == 0 && !irq
      modifies this`fifoEmpty, this`hdr, this`sent, this`uart
      ensures old(RingValid()) ==>
        && Valid()
        && sent == old(sent) + old(Contents())[..Burst(old(|Contents()|))]
        && Contents() == old(Contents())[Burst(old(|Contents()|))..]
        && uart == Burst(old(|Contents()|))
      ensures old(Stuck()) ==> Stuck() && hdr == old(hdr) && sent == old(sent) && uart == 0 && fifoEmpty
    {
      hide RingSlice, Header, HeadOf, TailOf, Elements, Signed;
      if RingValid() { Waiting(); }
      var buflen := Signed(Elements(hdr));
      if buflen > 0 {
        SendBurst(buflen);
      } else {
        fifoEmpty := true;
        assert RingValid() ==> Contents() == [];
      }
    }

    // ... with bytes waiting
    method SendBurst(elements: nat)
      requires RingValid() && uart == 0 && !irq && 0 < elements == |Contents()|
      modifies this`fifoEmpty, this`hdr, this`sent, this`uart
      ensures Valid()
      ensures sent == old(sent) + old(Contents())[..Burst(elements)]
      ensures Contents() == old(Contents())[Burst(elements)..]
      ensures uart == Burst(elements)
    {
      hide WriteSlot, ReadSlot, RingSlice, Header, HeadOf, TailOf, Elements, Wrap, Signed;
      ghost var h, t, c := |accepted|, |sent|, Contents();
      var buflen := elements;
      if buflen > SERIAL_FIFO { buflen := SERIAL_FIFO; }
      SlotsOf(h, t, buflen);
      var tail := ReadSlot(hdr, buflen);
      fifoEmpty := false;
      RingSplit(buffer[..], t, h - t, buflen);
      Regroup(sent, c, buflen);
      HeaderTake(h, t, buflen);
      SendRun(tail, buflen);
      hdr := Wrap(hdr + Wrap(buflen * 0x1_0000));
    }

    // The copy of n bytes at `tail` to the UART, in two pieces across the wrap
    method SendRun(tail: nat, n: nat)
      requires buffer.Length == SERIAL_BUFSIZE && tail == |sent| % 64 && n <= SERIAL_BUFSIZE
      requires uart + n <= SERIAL_FIFO
      modifies this`sent, this`uart
      ensures sent == old(sent) + RingSlice(buffer[..], old(|sent|), n) && uart == old(uart) + n
    {
      RingPieces(buffer[..], |sent|, n);
      if tail + n > SERIAL_BUFSIZE {
        var spaceLeft := SERIAL_BUFSIZE - tail;
        Outsb(buffer[tail..tail + spaceLeft]);
        Outsb(buffer[..n - spaceLeft]);
      } else {
        Outsb(buffer[tail..tail + n]);
      }
    }

    /** com1_isr, when the transmit interrupt is raised. */
    method Com1Isr()
      requires Valid() && irq
      modifies this`fifoEmpty, this`hdr, this`sent, this`uart, this`irq
      ensures Valid()
      ensures sent == old(sent) + old(Contents())[..Burst(old(|Contents()|))]
      ensures Contents() == old(Contents())[Burst(old(|Contents()|))..]
      ensures uart == Burst(old(|Contents()|)) && !irq
    {
      irq := false;
      Flush();
    }

    /** One hardware event, if one is due: the UART runs empty and raises its interrupt,
        or the raised interrupt is taken. */
    method Event()
      requires Valid()
      modifies this`fifoEmpty, this`hdr, this`sent, this`uart, this`irq
      ensures Valid() && old(sent) <= sent
      ensures old(irq) ==>
        && !irq && uart == Burst(old(|Contents()|))
        && Contents() == old(Contents())[Burst(old(|Contents()|))..]
      ensures !old(irq) ==> uart == 0 && irq == (old(uart) > 0) && sent == old(sent)
    {
      if irq {
        Com1Isr();
      } else if uart > 0 {
        uart, irq := 0, true;
      }
    }

    method Events(n: nat)
      requires Valid()
      modifies this`fifoEmpty, this`hdr, this`sent, this`uart, this`irq
      ensures Valid() && old(sent) <= sent
    {
      var e := 0;
      while e < n
        invariant Valid() && old(sent) <= sent
      {
        Event();
        e := e + 1;
      }
    }

    /** The bounds of Write. */
    ghost predicate Fits(data: seq<Byte>)
      requires buffer.Length == SERIAL_BUFSIZE && |sent| <= |accepted|
      reads this, buffer
    {
      |data| <= 63 - |Contents()| && |accepted| + |data| < 0x8000
    }

    /** ser_write, with `events` hardware events between the reading of the occupancy and
        the critical section, for bytes that leave one slot free.  Every byte is accepted;
        exactly while the total stays below 0x8000 the ring is in order afterwards, and with
        the write that reaches 0x8000 it is stuck, with none of its bytes sent. */
    method Write(data: seq<Byte>, events: nat) returns (written: int)
      requires Valid() && |data| <= 63 - |Contents()|
      modifies this, buffer
      ensures written == |data| && accepted == old(accepted) + data && old(sent) <= sent
      ensures |accepted| < 0x8000 ==> Valid()
      ensures |accepted| >= 0x8000 ==> Stuck() && |sent| <= |old(accepted)| && UartValid()
    {
      hide RingSlice, WriteSlot, ReadSlot, Header, Elements, Wrap, Signed, Copied, Burst;
      HeaderFields(|accepted|, |sent|);
      var buflen := Elements(hdr);
      Events(events);
      written := SERIAL_BUFSIZE - buflen;
      if |data| <= written { written := |data|; }
      Append(data);
      if fifoEmpty { Flush(); }
    }

    // buf_write, the copy and buf_write_commit, for bytes that leave one slot free
    method Append(data: seq<Byte>)
      requires RingValid() && |data| <= 63 - |Contents()|
      modifies this`hdr, this`accepted, buffer
      ensures accepted == old(accepted) + data
      ensures |accepted| < 0x8000 ==> RingValid() && Contents() == old(Contents()) + data
      ensures |accepted| >= 0x8000 ==> Stuck()
    {
      hide RingSlice, WriteSlot, ReadSlot, Header, Elements, Wrap, Signed, Copied;
      ghost var h, t := |accepted|, |sent|;
      SlotsOf(h, t, |data|);
      HeaderBit15(h, t);
      var head := BufWrite(|data|);
      RingAppend(buffer[..], t, h - t, data);
      HeaderPut(h, t, |data|);
      CommittedTotal(h, t, |data|);
      Associative(sent, Contents(), data);
      CopyIn(head, data);
      hdr := Wrap(hdr + |data|);
      accepted := accepted + data;
    }

    /** What comes after the ring is stuck: the interrupts still due send nothing, and then
        none is due any more. */
    method Strand()
      requires Stuck() && UartValid()
      modifies this`fifoEmpty, this`hdr, this`sent, this`uart, this`irq
      ensures Stuck() && sent == old(sent) && fifoEmpty && !irq && uart == 0
    {
      if uart > 0 { uart, irq := 0, true; }
      if irq {
        irq := false;
        Flush();
      }
    }

    // The two cases of memcpy into the ring at `head`
    method CopyIn(head: nat, data: seq<Byte>)
      requires buffer.Length == SERIAL_BUFSIZE && head < 64 && |data| <= 64
      modifies buffer
      ensures buffer[..] == Copied(old(buffer[..]), head, data)
    {
      if head + |data| >= SERIAL_BUFSIZE {
        var spaceLeft := SERIAL_BUFSIZE - head;
        Memcpy(head, data[..spaceLeft]);
        Memcpy(0, data[spaceLeft..]);
      } else {
        Memcpy(head, data);
      }
    }

    method Memcpy(at: nat, src: seq<Byte>)
      requires at + |src| <= buffer.Length
      modifies buffer
      ensures forall k :: 0 <= k < buffer.Length ==>
        buffer[k] == if at <= k < at + |src| then src[k - at] else old(buffer[k])
    {
      forall i | 0 <= i < |src| {
        buffer[at + i] := src[i];
      }
    }

    // A turn of a run; a write out of bounds is not made
    method Take(turn: Turn) returns (ok: bool)
      requires Valid()
      modifies this, buffer
      ensures Valid() && old(sent) <= sent
      ensures ok == (turn.Put? ==> old(Fits(turn.data)))
      ensures accepted == old(accepted) + if ok then BytesOf(turn) else []
      ensures !ok ==> hdr == old(hdr) && sent == old(sent)
    {
      hide RingSlice, Header, Elements, HeadOf;
      match turn {
        case Put(data, events) =>
          HeaderFields(|accepted|, |sent|);
          var n := Ready();
          ok := |data| <= 63 - n && HeadOf(hdr) + |data| < 0x8000;
          if ok { var _ := Write(data, events); }
        case Hardware(n) =>
          Events(n);
          ok := true;
      }
    }

    /** Any interleaving of writes and hardware events, as long as each write keeps to the
        bounds: the bytes written are the bytes accepted, in order.  It stops before the
        first write out of bounds. */
    method Run(turns: seq<Turn>) returns (done: nat)
      requires Valid()
      modifies this, buffer
      ensures Valid() && old(sent) <= sent
      ensures done <= |turns| && accepted == old(accepted) + Written(turns[..done])
      ensures done < |turns| ==> turns[done].Put? && !Fits(turns[done].data)
    {
      hide RingSlice, Header, Elements, HeadOf;
      done := 0;
      var going := true;
      while going && done < |turns|
        invariant Valid() && old(sent) <= sent && done <= |turns|
        invariant accepted == old(accepted) + Written(turns[..done])
        invariant !going ==> done < |turns| && turns[done].Put? && !Fits(turns[done].data)
        decreases going, |turns| - done
      {
        WrittenMore(old(accepted), turns, done);
        going := Take(turns[done]);
        if going { done := done + 1; }
      }
    }

    /** Nothing is stranded: with no further writes, hardware events alone send every byte
        that was accepted, and then go quiet. */
    method Quiesce() returns (flushes: nat)
      requires Valid()
      modifies this`fifoEmpty, this`hdr, this`sent, this`uart, this`irq
      ensures Valid() && sent == accepted && fifoEmpty && accepted == old(accepted)
      ensures old(fifoEmpty) ==> flushes == 0
      ensures !old(fifoEmpty) ==> flushes == (old(|Contents()|) + 15) / 16 + 1
    {
      flushes := 0;
      while irq || uart > 0
        invariant Valid() && accepted == old(accepted)
        invariant fifoEmpty == (!irq && uart == 0)
        invariant old(fifoEmpty) ==> flushes == 0 && fifoEmpty
        invariant !old(fifoEmpty) ==>
          flushes + (if fifoEmpty then 0 else (|Contents()| + 15) / 16 + 1) == (old(|Contents()|) + 15) / 16 + 1
        decreases |Contents()|, uart, if irq then 1 else 0
      {
        if irq { flushes := flushes + 1; }
        Event();
      }
      assert Contents() == [];
    }
  }
}
