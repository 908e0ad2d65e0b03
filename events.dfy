/** The event record the read paths dequeue (struct event_entry: three u32 fields, 12 bytes,
    little-endian), the complete records a byte string holds, and the text of the debugfs
    listing. */
module Events {

  import opened Types
  import opened Text
  import LittleEndian

  const ENTRY_SIZE := 12

  datatype EventEntry = EventEntry(timestamp: U32, eventType: U32, data: U32)

  /** The 12 bytes of an entry: timestamp, event type, data, each little-endian. */
  function EncodeEntry(e: EventEntry): (bs: seq<Byte>)
    ensures |bs| == ENTRY_SIZE
  {
    LittleEndian.Encode(e.timestamp, 4) + LittleEndian.Encode(e.eventType, 4)
      + LittleEndian.Encode(e.data, 4)
  }

  function Word(bs: seq<Byte>): (v: U32)
    requires |bs| == 4
  {
    LittleEndian.Pow256Of4();
    LittleEndian.Decode(bs)
  }

  /** Four bytes read as a word are that word's bytes. */
  lemma WordEncodes(bs: seq<Byte>)
    requires |bs| == 4
    ensures LittleEndian.Encode(Word(bs), 4) == bs
  {
    LittleEndian.EncodeDecode(bs);
  }

  lemma SplitEntry(bs: seq<Byte>)
    requires |bs| == ENTRY_SIZE
    ensures bs == bs[..4] + bs[4..8] + bs[8..]
  {
  }

  /** The entry that 12 bytes copied out of the FIFO are read as. */
  function DecodeEntry(bs: seq<Byte>): (e: EventEntry)
    requires |bs| == ENTRY_SIZE
    ensures EncodeEntry(e) == bs
  {
    WordEncodes(bs[..4]);
    WordEncodes(bs[4..8]);
    WordEncodes(bs[8..]);
    SplitEntry(bs);
    EventEntry(Word(bs[..4]), Word(bs[4..8]), Word(bs[8..]))
  }

  /** Reading back the bytes of an entry gives the entry. */
  lemma EntryRoundTrip(e: EventEntry)
    ensures DecodeEntry(EncodeEntry(e)) == e
  {
    var bs := EncodeEntry(e);
    LittleEndian.Pow256Of4();
    LittleEndian.DecodeEncode(e.timestamp, 4);
    LittleEndian.DecodeEncode(e.eventType, 4);
    LittleEndian.DecodeEncode(e.data, 4);
    assert bs[..4] == LittleEndian.Encode(e.timestamp, 4);
    assert bs[4..8] == LittleEndian.Encode(e.eventType, 4);
    assert bs[8..] == LittleEndian.Encode(e.data, 4);
  }

  /** The complete records at the front of a byte string, oldest first; a trailing partial
      record is not one. */
  function Records(bs: seq<Byte>): (es: seq<EventEntry>)
    ensures |es| == |bs| / ENTRY_SIZE
    decreases |bs|
  {
    if |bs| < ENTRY_SIZE then [] else [DecodeEntry(bs[..ENTRY_SIZE])] + Records(bs[ENTRY_SIZE..])
  }

  lemma RecordsOfOne(bs: seq<Byte>)
    requires |bs| == ENTRY_SIZE
    ensures Records(bs) == [DecodeEntry(bs)]
  {
    assert bs[..ENTRY_SIZE] == bs;
    assert Records(bs[ENTRY_SIZE..]) == [];
  }

  /** Records of whole records followed by more bytes are the records of each part. */
  lemma {:induction false} RecordsAppend(a: seq<Byte>, b: seq<Byte>)
    requires |a| % ENTRY_SIZE == 0
    ensures Records(a + b) == Records(a) + Records(b)
    decreases |a|
  {
    if a == [] {
      assert a + b == b;
    } else {
      assert |a| >= ENTRY_SIZE;
      assert (a + b)[..ENTRY_SIZE] == a[..ENTRY_SIZE];
      assert (a + b)[ENTRY_SIZE..] == a[ENTRY_SIZE..] + b;
      RecordsAppend(a[ENTRY_SIZE..], b);
    }
  }

  /** Records of concatenated entry encodings are those entries. */
  lemma {:induction false} RecordsOfEncoded(es: seq<EventEntry>, bs: seq<Byte>)
    requires |bs| == ENTRY_SIZE * |es|
    requires forall i | 0 <= i < |es| :: bs[ENTRY_SIZE * i..ENTRY_SIZE * i + ENTRY_SIZE] == EncodeEntry(es[i])
    ensures Records(bs) == es
  {
    if es != [] {
      assert bs[..ENTRY_SIZE] == EncodeEntry(es[0]);
      EntryRoundTrip(es[0]);
      var rest := bs[ENTRY_SIZE..];
      forall i | 0 <= i < |es| - 1
        ensures rest[ENTRY_SIZE * i..ENTRY_SIZE * i + ENTRY_SIZE] == EncodeEntry(es[1..][i])
      {
        assert rest[ENTRY_SIZE * i..ENTRY_SIZE * i + ENTRY_SIZE]
            == bs[ENTRY_SIZE * (i + 1)..ENTRY_SIZE * (i + 1) + ENTRY_SIZE];
      }
      RecordsOfEncoded(es[1..], rest);
    }
  }

  /** One line of the debugfs listing: "Time: %u, Type: %u, Data: 0x%08x\n". */
  function Line(e: EventEntry): (s: string)
    ensures |s| >= 1 && s[|s| - 1] == '\n'
  {
    "Time: " + Decimal(e.timestamp) + ", Type: " + Decimal(e.eventType)
      + ", Data: 0x" + Hex8(e.data) + "\n"
  }

  /** The listing of a sequence of entries: their lines in order. */
  function Listing(es: seq<EventEntry>): (text: string)
    ensures text == "" <==> es == []
  {
    if es == [] then "" else Line(es[0]) + Listing(es[1..])
  }

  function Count(s: string, c: char): (n: nat)
  {
    if s == [] then 0 else (if s[0] == c then 1 else 0) + Count(s[1..], c)
  }

  lemma {:induction false} CountAppend(a: string, b: string, c: char)
    ensures Count(a + b, c) == Count(a, c) + Count(b, c)
  {
    if a == [] {
      assert a + b == b;
    } else {
      assert (a + b)[1..] == a[1..] + b;
      CountAppend(a[1..], b, c);
    }
  }

  /** A character that does not occur is counted zero times. */
  lemma {:induction false} CountAbsent(s: string, c: char)
    requires c !in s
    ensures Count(s, c) == 0
  {
    if s != [] {
      assert s == [s[0]] + s[1..];
      CountAbsent(s[1..], c);
    }
  }

  lemma NoNewlineInDigits(s: string)
    requires forall i | 0 <= i < |s| :: IsHexDigit(s[i])
    ensures '\n' !in s
  {
    assert forall i | 0 <= i < |s| :: s[i] != '\n';
  }

  /** Each entry gives exactly one line: its only newline is the last character. */
  lemma LineHasOneNewline(e: EventEntry)
    ensures Count(Line(e), '\n') == 1
  {
    var t, k, d := Decimal(e.timestamp), Decimal(e.eventType), Hex8(e.data);
    assert forall i | 0 <= i < |t| :: IsHexDigit(t[i]);
    assert forall i | 0 <= i < |k| :: IsHexDigit(k[i]);
    NoNewlineInDigits(t);
    NoNewlineInDigits(k);
    NoNewlineInDigits(d);
    var body := "Time: " + t + ", Type: " + k + ", Data: 0x" + d;
    assert '\n' !in body;
    CountAbsent(body, '\n');
    CountAppend(body, "\n", '\n');
    assert "\n"[1..] == [];
    assert Line(e) == body + "\n";
  }

  /** The listing has one line per entry. */
  lemma {:induction false} ListingLineCount(es: seq<EventEntry>)
    ensures Count(Listing(es), '\n') == |es|
  {
    if es != [] {
      LineHasOneNewline(es[0]);
      CountAppend(Line(es[0]), Listing(es[1..]), '\n');
      ListingLineCount(es[1..]);
    }
  }

  /** One more whole record adds its line to the end of the listing. */
  lemma ListingOfOneMore(taken: seq<Byte>, chunk: seq<Byte>)
    requires |taken| % ENTRY_SIZE == 0 && |chunk| == ENTRY_SIZE
    ensures Listing(Records(taken + chunk)) == Listing(Records(taken)) + Line(DecodeEntry(chunk))
  {
    RecordsAppend(taken, chunk);
    RecordsOfOne(chunk);
    ListingAppend(Records(taken), [DecodeEntry(chunk)]);
    assert Listing([DecodeEntry(chunk)]) == Line(DecodeEntry(chunk)) + Listing([]);
  }

  /** A trailing partial record adds nothing. */
  lemma RecordsIgnorePartial(taken: seq<Byte>, partial: seq<Byte>)
    requires |taken| % ENTRY_SIZE == 0 && |partial| < ENTRY_SIZE
    ensures Records(taken + partial) == Records(taken)
  {
    RecordsAppend(taken, partial);
    assert Records(partial) == [];
    assert Records(taken) + [] == Records(taken);
  }

  lemma {:induction false} ListingAppend(a: seq<EventEntry>, b: seq<EventEntry>)
    ensures Listing(a + b) == Listing(a) + Listing(b)
  {
    if a == [] {
      assert a + b == b;
    } else {
      assert (a + b)[1..] == a[1..] + b;
      ListingAppend(a[1..], b);
    }
  }
}
