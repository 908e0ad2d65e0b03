/** The driver's per-device state and the operations on it: the interrupt handler, the
    character-device session (open, release, read, write), the destructive debugfs listing and
    the sysfs register accessors. Each locked region of the driver is one method call. */
module AsicDiag {

  import opened Types
  import opened Events
  import Kfifo
  import Kstrtox
  import Sysfs
  import LittleEndian

  /** The bytes of `u32 status` in memory, as kfifo_in copies them. */
  function StatusBytes(status: U32): (bs: seq<Byte>)
    ensures |bs| == 4
    ensures LittleEndian.Decode(bs) == status
  {
    LittleEndian.Pow256Of4();
    LittleEndian.DecodeEncode(status, 4);
    LittleEndian.Encode(status, 4)
  }

  /** ioread32 of the register window, modelled as plain storage in which an offset never
      written reads as zero. */
  function ReadReg(regs: map<nat, U32>, offset: nat): (v: U32)
  {
    if offset in regs then regs[offset] else 0
  }

  /** A register reads back the last value written to it, and writing one register leaves
      every other register reading as before. */
  lemma ReadAfterWrite(regs: map<nat, U32>, offset: nat, value: U32, other: nat)
    ensures ReadReg(regs[offset := value], offset) == value
    ensures other != offset ==> ReadReg(regs[offset := value], other) == ReadReg(regs, other)
  {
  }

  /** Bit 0 of the status register: an event is pending. */
  function EventPending(status: U32): (pending: bool)
    ensures pending <==> (status as bv32) & 1 == 1
  {
    status % 2 == 1
  }

  class Device {
    var regs: map<nat, U32>
    var fifo: seq<Byte>
    var isOpen: bool

    /** The FIFO never holds more than its capacity, and since only whole status words go in
        and reads take whole records out or empty it, it always holds whole words. */
    ghost predicate Valid()
      reads this
    {
      |fifo| <= EVENT_BUFFER_SIZE && |fifo| % 4 == 0
    }

    /** A freshly allocated, zeroed device with an empty FIFO over the given register window. */
    constructor (window: map<nat, U32>)
      ensures Valid()
      ensures regs == window && fifo == [] && !isOpen
    {
      regs := window;
      fifo := [];
      isOpen := false;
    }

    /** asic_diag_isr. */
    method Isr() returns (r: IrqReturn)
      requires Valid()
      modifies this`regs, this`fifo
      ensures Valid()
      ensures !EventPending(old(ReadReg(regs, ASIC_STATUS_REG))) ==>
                r == IrqNone && regs == old(regs) && fifo == old(fifo)
      ensures EventPending(old(ReadReg(regs, ASIC_STATUS_REG))) ==>
                r == IrqHandled
                && fifo == Kfifo.In(old(fifo), StatusBytes(old(ReadReg(regs, ASIC_STATUS_REG))), EVENT_BUFFER_SIZE).0
                && regs == old(regs)[ASIC_STATUS_REG := 1]
      // The word goes in whole or, on a full FIFO, not at all.
      ensures EventPending(old(ReadReg(regs, ASIC_STATUS_REG))) ==>
                fifo == if |old(fifo)| < EVENT_BUFFER_SIZE
                        then old(fifo) + StatusBytes(old(ReadReg(regs, ASIC_STATUS_REG)))
                        else old(fifo)
    {
      var status := ReadReg(regs, ASIC_STATUS_REG);
      if !EventPending(status) {
        return IrqNone;
      }
      WordPushIsWhole(fifo, status);
      var pushed := Kfifo.In(fifo, StatusBytes(status), EVENT_BUFFER_SIZE);
      fifo := pushed.0;
      regs := regs[ASIC_STATUS_REG := 1];
      return IrqHandled;
    }

    /** asic_diag_open: at most one open session. */
    method Open() returns (ret: int)
      modifies this`isOpen
      ensures old(isOpen) ==> ret == -EBUSY && isOpen
      ensures !old(isOpen) ==> ret == 0 && isOpen
    {
      if isOpen {
        return -EBUSY;
      }
      isOpen := true;
      return 0;
    }

    /** asic_diag_release. */
    method Release() returns (ret: int)
      modifies this`isOpen
      ensures ret == 0 && !isOpen
    {
      isOpen := false;
      return 0;
    }

    /** asic_diag_read: one 12-byte event_entry. `fault` stands for copy_to_user failing. */
    method Read(count: nat, fault: bool) returns (ret: int, entry: Option<EventEntry>)
      requires Valid()
      modifies this`fifo
      ensures Valid()
      ensures count < ENTRY_SIZE ==> ret == -EINVAL && entry == None && fifo == old(fifo)
      ensures count >= ENTRY_SIZE && |old(fifo)| < ENTRY_SIZE ==>
                ret == -EAGAIN && entry == None && fifo == []
      ensures count >= ENTRY_SIZE && |old(fifo)| >= ENTRY_SIZE ==>
                fifo == old(fifo)[ENTRY_SIZE..]
                && (fault ==> ret == -EFAULT && entry == None)
                && (!fault ==> ret == ENTRY_SIZE && entry == Some(DecodeEntry(old(fifo)[..ENTRY_SIZE])))
      ensures entry.Some? ==> old(fifo) == EncodeEntry(entry.value) + fifo
    {
      if count < ENTRY_SIZE {
        return -EINVAL, None;
      }
      var got := Kfifo.Out(fifo, ENTRY_SIZE);
      fifo := got.1;
      if |got.0| != ENTRY_SIZE {
        return -EAGAIN, None;
      }
      if fault {
        return -EFAULT, None;
      }
      return ENTRY_SIZE, Some(DecodeEntry(got.0));
    }

    /** asic_diag_write: a 4-byte value for the control register. `fault` stands for
        copy_from_user failing. */
    method Write(count: nat, value: U32, fault: bool) returns (ret: int)
      modifies this`regs
      ensures count != 4 ==> ret == -EINVAL && regs == old(regs)
      ensures count == 4 && fault ==> ret == -EFAULT && regs == old(regs)
      ensures count == 4 && !fault ==> ret == 4 && regs == old(regs)[ASIC_CONTROL_REG := value]
    {
      if count != 4 {
        return -EINVAL;
      }
      if fault {
        return -EFAULT;
      }
      regs := regs[ASIC_CONTROL_REG := value];
      return 4;
    }

    /** asic_diag_events_show: print every complete record, oldest first, and leave the FIFO
        empty (the last kfifo_out takes a trailing partial record with it). */
    method EventsShow() returns (text: string)
      requires Valid()
      modifies this`fifo
      ensures Valid()
      ensures fifo == []
      ensures text == Listing(Records(old(fifo)))
    {
      ghost var all := fifo;
      ghost var taken: seq<Byte> := [];
      text := "";
      var got := Kfifo.Out(fifo, ENTRY_SIZE);
      fifo := got.1;
      while |got.0| == ENTRY_SIZE
        invariant all == taken + (got.0 + fifo)
        invariant |taken| % ENTRY_SIZE == 0
        invariant |got.0| <= ENTRY_SIZE
        invariant |got.0| < ENTRY_SIZE ==> fifo == []
        invariant text == Listing(Records(taken))
        decreases |fifo| + |got.0|
      {
        DrainStep(all, taken, got.0, fifo);
        ListingOfOneMore(taken, got.0);
        text := text + Line(DecodeEntry(got.0));
        taken := taken + got.0;
        got := Kfifo.Out(fifo, ENTRY_SIZE);
        fifo := got.1;
      }
      assert got.0 + fifo == got.0;
      RecordsIgnorePartial(taken, got.0);
    }

    /** show_register: the attribute name is the register offset in hex. */
    method ShowRegister(name: string) returns (ret: int, text: string)
      ensures Kstrtox.Kstrtoul(name).Err? ==> ret == -EINVAL && text == ""
      ensures Kstrtox.Kstrtoul(name).Ok? ==>
                text == Sysfs.RegisterText(ReadReg(regs, Kstrtox.Kstrtoul(name).value)) && ret == |text| == 11
    {
      var parsed := Kstrtox.Kstrtoul(name);
      if parsed.Err? {
        return -EINVAL, "";
      }
      var value := ReadReg(regs, parsed.value);
      text := Sysfs.RegisterText(value);
      ret := |text|;
    }

    /** store_register: the text written is a hex u32 for the register the name gives. */
    method StoreRegister(name: string, buf: string, count: nat) returns (ret: int)
      modifies this`regs
      ensures Kstrtox.Kstrtoul(name).Err? || Kstrtox.Kstrtou32(buf).Err? ==>
                ret == -EINVAL && regs == old(regs)
      ensures Kstrtox.Kstrtoul(name).Ok? && Kstrtox.Kstrtou32(buf).Ok? ==>
                ret == count
                && regs == old(regs)[Kstrtox.Kstrtoul(name).value := Kstrtox.Kstrtou32(buf).value]
    {
      var offset := Kstrtox.Kstrtoul(name);
      if offset.Err? {
        return -EINVAL;
      }
      var value := Kstrtox.Kstrtou32(buf);
      if value.Err? {
        return -EINVAL;
      }
      regs := regs[offset.value := value.value];
      return count;
    }
  }

  /** Taking one more whole record off the front of what remains keeps the taken part
      record-aligned. */
  lemma DrainStep(all: seq<Byte>, taken: seq<Byte>, chunk: seq<Byte>, rest: seq<Byte>)
    requires all == taken + (chunk + rest)
    requires |taken| % ENTRY_SIZE == 0 && |chunk| == ENTRY_SIZE
    ensures all == (taken + chunk) + rest
    ensures |taken + chunk| % ENTRY_SIZE == 0
  {
    AppendAssoc(taken, chunk, rest);
    var q := |taken| / ENTRY_SIZE;
    assert |taken + chunk| == ENTRY_SIZE * (q + 1);
  }

  /** On a FIFO of whole words with a capacity that is a whole number of words, a status word
      is queued whole or, when the FIFO is full, not at all. */
  lemma WordPushIsWhole(fifo: seq<Byte>, status: U32)
    requires |fifo| <= EVENT_BUFFER_SIZE && |fifo| % 4 == 0
    ensures var r := Kfifo.In(fifo, StatusBytes(status), EVENT_BUFFER_SIZE);
            r.0 == (if |fifo| < EVENT_BUFFER_SIZE then fifo + StatusBytes(status) else fifo)
            && |r.0| % 4 == 0
  {
    if |fifo| < EVENT_BUFFER_SIZE {
      Kfifo.InFits(fifo, StatusBytes(status), EVENT_BUFFER_SIZE);
    } else {
      Kfifo.InFull(fifo, StatusBytes(status), EVENT_BUFFER_SIZE);
    }
  }

  /** The FIFO contents after the interrupt handler has queued the given status words, oldest
      first, into a FIFO that never filled up. */
  function Words(ws: seq<U32>): (bs: seq<Byte>)
    ensures |bs| == 4 * |ws|
  {
    if ws == [] then [] else StatusBytes(ws[0]) + Words(ws[1..])
  }

  /** Queuing one more word appends its four bytes. */
  lemma {:induction false} WordsAppend(ws: seq<U32>, w: U32)
    ensures Words(ws + [w]) == Words(ws) + StatusBytes(w)
    decreases |ws|
  {
    if ws == [] {
      assert [] + [w] == [w];
      assert Words([w][1..]) == [];
    } else {
      assert (ws + [w])[0] == ws[0];
      assert (ws + [w])[1..] == ws[1..] + [w];
      WordsAppend(ws[1..], w);
    }
  }

  /** The records a reader sees when the FIFO holds only whole status words: each group of
      three consecutive words becomes one entry, its timestamp, type and data. */
  function Triples(ws: seq<U32>): (es: seq<EventEntry>)
    requires |ws| % 3 == 0
    ensures |es| == |ws| / 3
  {
    if ws == [] then [] else [EventEntry(ws[0], ws[1], ws[2])] + Triples(ws[3..])
  }

  /** Three status words queued by the handler make up exactly one 12-byte record. */
  lemma ThreeWordsOneRecord(s1: U32, s2: U32, s3: U32)
    ensures Records(StatusBytes(s1) + StatusBytes(s2) + StatusBytes(s3)) == [EventEntry(s1, s2, s3)]
  {
    var e := EventEntry(s1, s2, s3);
    assert EncodeEntry(e) == StatusBytes(s1) + StatusBytes(s2) + StatusBytes(s3);
    RecordsOfOne(EncodeEntry(e));
    EntryRoundTrip(e);
  }

  /** The FIFO contents of a multiple of three status words: one record per three words. */
  lemma {:induction false} RecordsOfWordTriples(ws: seq<U32>)
    requires |ws| % 3 == 0
    ensures Records(Words(ws)) == Triples(ws)
    decreases |ws|
  {
    if ws != [] {
      var head := StatusBytes(ws[0]) + StatusBytes(ws[1]) + StatusBytes(ws[2]);
      assert ws[1..][0] == ws[1] && ws[1..][1..] == ws[2..];
      assert ws[2..][0] == ws[2] && ws[2..][1..] == ws[3..];
      var rest := Words(ws[3..]);
      assert Words(ws[2..]) == StatusBytes(ws[2]) + rest;
      assert Words(ws[1..]) == StatusBytes(ws[1]) + (StatusBytes(ws[2]) + rest);
      assert Words(ws) == head + rest;
      RecordsAppend(head, Words(ws[3..]));
      ThreeWordsOneRecord(ws[0], ws[1], ws[2]);
      RecordsOfWordTriples(ws[3..]);
    }
  }

  /** Queuing two runs of words queues their bytes one after the other. */
  lemma {:induction false} WordsConcat(a: seq<U32>, b: seq<U32>)
    ensures Words(a + b) == Words(a) + Words(b)
    decreases |a|
  {
    if a == [] {
      assert a + b == b;
    } else {
      assert (a + b)[0] == a[0] && (a + b)[1..] == a[1..] + b;
      WordsConcat(a[1..], b);
      AppendAssoc(StatusBytes(a[0]), Words(a[1..]), Words(b));
    }
  }

  /** The full-word part of the FIFO is record-aligned and the one or two trailing words are
      less than a record. */
  lemma WordsSplit(ws: seq<U32>, k: nat)
    requires k == 3 * (|ws| / 3)
    ensures k <= |ws| && ws == ws[..k] + ws[k..] && |ws[..k]| % 3 == 0
    ensures Words(ws) == Words(ws[..k]) + Words(ws[k..])
    ensures |Words(ws[..k])| % ENTRY_SIZE == 0 && |Words(ws[k..])| < ENTRY_SIZE
  {
    assert ws == ws[..k] + ws[k..];
    WordsConcat(ws[..k], ws[k..]);
    assert |Words(ws[..k])| == ENTRY_SIZE * (|ws| / 3);
  }

  /** A FIFO filled only by the handler, with any number of words, yields one record per
      complete group of three status words; the one or two words after the last group form
      no record, which is what read's -EAGAIN and the listing's final kfifo_out discard. So
      the readers report status words as timestamps, types and data. */
  lemma RecordsOfWords(ws: seq<U32>)
    ensures Records(Words(ws)) == Triples(ws[..3 * (|ws| / 3)])
  {
    var k := 3 * (|ws| / 3);
    WordsSplit(ws, k);
    RecordsIgnorePartial(Words(ws[..k]), Words(ws[k..]));
    RecordsOfWordTriples(ws[..k]);
  }
}
