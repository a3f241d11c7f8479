/** The bytes of a heap page: a header, then the data with the slot directory laid over its start. */
module PageCodec {
  import opened Bytes
  import opened PageLayout
  import opened PageSlots
  import opened Wrappers

  /** What a page keeps between writing and reading. */
  datatype PageFields = PageFields(numberOfRecords: U16, dataOffset: nat, pageId: I32, slots: seq<Slot>,
                                   data: seq<Byte>) {
    /** Numbers fit their fields, and the directory fits the data. */
    ghost predicate Storable() {
      && |data| <= 0x7ff2 && dataOffset <= |data| && SLOT_SIZE * |slots| <= |data| && InArea(slots, 0, |data|)
    }
  }

  function SlotBytes(s: Slot): (b: seq<Byte>)
    requires s.pageOffset < 0x1_0000_0000
    ensures |b| == SLOT_SIZE
  {
    [if s.deleted then 1 else 0] + U32Bytes(s.pageOffset) + U16Bytes(s.recordLength)
  }

  function SlotFrom(b: seq<Byte>): Slot
    requires |b| == SLOT_SIZE
  {
    Slot(U16From(b[5..7]), U32From(b[1..5]), b[0] == 1)
  }

  lemma SlotRoundTrip(s: Slot)
    requires s.pageOffset < 0x1_0000_0000
    ensures SlotFrom(SlotBytes(s)) == s
  {
    var b := SlotBytes(s);
    assert b[1..5] == U32Bytes(s.pageOffset) && b[5..7] == U16Bytes(s.recordLength);
    U32RoundTrip(s.pageOffset);
    U16RoundTrip(s.recordLength);
  }

  function Directory(slots: seq<Slot>): (b: seq<Byte>)
    requires forall i :: 0 <= i < |slots| ==> slots[i].pageOffset < 0x1_0000_0000
    ensures |b| == SLOT_SIZE * |slots|
  {
    if |slots| == 0 then [] else SlotBytes(slots[0]) + Directory(slots[1..])
  }

  /** Whole slots only; a shorter end is dropped. */
  function SlotsFrom(b: seq<Byte>): seq<Slot> {
    if |b| < SLOT_SIZE then [] else [SlotFrom(b[..SLOT_SIZE])] + SlotsFrom(b[SLOT_SIZE..])
  }

  lemma {:induction false} DirectoryRoundTrip(slots: seq<Slot>)
    requires forall i :: 0 <= i < |slots| ==> slots[i].pageOffset < 0x1_0000_0000
    ensures SlotsFrom(Directory(slots)) == slots
  {
    if |slots| > 0 {
      var b := Directory(slots);
      SlotRoundTrip(slots[0]);
      DirectoryRoundTrip(slots[1..]);
      assert b[..SLOT_SIZE] == SlotBytes(slots[0]) && b[SLOT_SIZE..] == Directory(slots[1..]);
    }
  }

  lemma {:induction false} DirectoryAppend(slots: seq<Slot>, s: Slot)
    requires forall i :: 0 <= i < |slots| ==> slots[i].pageOffset < 0x1_0000_0000
    requires s.pageOffset < 0x1_0000_0000
    ensures Directory(slots + [s]) == Directory(slots) + SlotBytes(s)
  {
    if |slots| > 0 {
      DirectoryAppend(slots[1..], s);
      assert (slots + [s])[1..] == slots[1..] + [s];
    } else {
      assert (slots + [s])[1..] == [];
    }
  }

  function HeaderBytes(f: PageFields): (b: seq<Byte>)
    requires f.Storable()
    ensures |b| == HEADER
  {
    U16Bytes(f.numberOfRecords) + U32Bytes(f.dataOffset) + I32Bytes(f.pageId) + I32Bytes(SLOT_SIZE * |f.slots|)
  }

  function Overlaid(f: PageFields): (d: seq<Byte>)
    requires f.Storable()
    ensures |d| == |f.data|
  {
    Overwrite(f.data, 0, Directory(f.slots))
  }

  function PageBytes(f: PageFields): (b: seq<Byte>)
    requires f.Storable()
    ensures |b| == HEADER + |f.data|
  {
    HeaderBytes(f) + Overlaid(f)
  }

  lemma StorableWhenTiled(f: PageFields)
    requires |f.data| <= 0x7ff2 && Tiled(f.slots, f.dataOffset, |f.data|) && SLOT_SIZE * |f.slots| <= |f.data|
    ensures f.Storable()
  {
  }

  /** The directory grows by one slot. */
  lemma OverlayStep(base: seq<Byte>, slots: seq<Slot>, i: nat)
    requires i < |slots| && HEADER + SLOT_SIZE * |slots| <= |base|
    requires forall h :: 0 <= h < |slots| ==> slots[h].pageOffset < 0x1_0000_0000
    ensures Overwrite(Overwrite(base, HEADER, Directory(slots[..i])), HEADER + i * SLOT_SIZE, SlotBytes(slots[i]))
         == Overwrite(base, HEADER, Directory(slots[..i + 1]))
  {
    assert slots[..i + 1] == slots[..i] + [slots[i]];
    DirectoryAppend(slots[..i], slots[i]);
    OverwriteTwice(base, HEADER, Directory(slots[..i]), SlotBytes(slots[i]));
  }

  lemma OverwriteTwice(base: seq<Byte>, at: nat, a: seq<Byte>, b: seq<Byte>)
    requires at + |a| + |b| <= |base|
    ensures Overwrite(Overwrite(base, at, a), at + |a|, b) == Overwrite(base, at, a + b)
  {
  }

  lemma OverlayDone(f: PageFields)
    requires f.Storable()
    ensures Overwrite(HeaderBytes(f) + f.data, HEADER, Directory(f.slots)) == PageBytes(f)
  {
    hide HeaderBytes, Directory;
  }

  /** A signed number used as a 64-bit size. */
  function AsUsize(n: I32): nat { if n < 0 then (n as int) + 0x1_0000_0000_0000_0000 else n }

  /** The number of 64 bits with the same remainder. */
  lemma AsUsizeIs(n: I32)
    ensures AsUsize(n) < 0x1_0000_0000_0000_0000 && (AsUsize(n) - n) % 0x1_0000_0000_0000_0000 == 0
  {
  }

  /** The directory lies within the data; reading panics otherwise. */
  predicate Readable(b: seq<Byte>) {
    |b| >= HEADER && AsUsize(I32From(b[10..14])) <= |b| - HEADER
  }

  function PageFrom(b: seq<Byte>): PageFields
    requires Readable(b)
  {
    var data := b[HEADER..];
    PageFields(U16From(b[0..2]), AsUsize(I32From(b[2..6])), I32From(b[6..10]),
               SlotsFrom(data[..AsUsize(I32From(b[10..14]))]), data)
  }

  /** A page read back has the same header and slots; its data has the directory laid over it. */
  lemma PageRoundTrip(f: PageFields)
    requires f.Storable()
    ensures Readable(PageBytes(f)) && PageFrom(PageBytes(f)) == f.(data := Overlaid(f))
  {
    var b, h, d := PageBytes(f), HeaderBytes(f), Overlaid(f);
    assert b[0..2] == h[0..2] == U16Bytes(f.numberOfRecords);
    assert b[2..6] == h[2..6] == U32Bytes(f.dataOffset) == I32Bytes(f.dataOffset);
    assert b[6..10] == h[6..10] == I32Bytes(f.pageId);
    assert b[10..14] == h[10..14] == I32Bytes(SLOT_SIZE * |f.slots|);
    assert b[HEADER..] == d;
    U16RoundTrip(f.numberOfRecords);
    I32RoundTrip(f.dataOffset);
    I32RoundTrip(f.pageId);
    I32RoundTrip(SLOT_SIZE * |f.slots|);
    assert d[..SLOT_SIZE * |f.slots|] == Directory(f.slots);
    DirectoryRoundTrip(f.slots);
  }

  // -------- where everything lies --------

  /** A slot at a position of the bytes: its mark, its offset in four bytes, its length in two. */
  ghost predicate SlotAt(b: seq<Byte>, at: nat, s: Slot) {
    && at + 7 <= |b| && (b[at] == 1 <==> s.deleted)
    && Word32(b, at + 1) == s.pageOffset && Holds16(b, at + 5, s.recordLength)
  }

  lemma SlotBytesLie(s: Slot)
    requires s.pageOffset < 0x1_0000_0000
    ensures SlotAt(SlotBytes(s), 0, s) && (SlotBytes(s)[0] == 0 || SlotBytes(s)[0] == 1)
  {
    var b := SlotBytes(s);
    U32BytesHold(s.pageOffset);
    U16BytesHold(s.recordLength);
    assert b[1..5] == U32Bytes(s.pageOffset) && b[5..7] == U16Bytes(s.recordLength);
    var w := U32Bytes(s.pageOffset);
    assert b[1] == w[0] && b[2] == w[1] && b[3] == w[2] && b[4] == w[3];
    assert b[5] == U16Bytes(s.recordLength)[0] && b[6] == U16Bytes(s.recordLength)[1];
  }

  /** The same seven bytes elsewhere. */
  lemma SlotMoves(b: seq<Byte>, at: nat, c: seq<Byte>, from: nat, s: Slot)
    requires at + 7 <= |b| && from + 7 <= |c| && b[at..at + 7] == c[from..from + 7] && SlotAt(c, from, s)
    ensures SlotAt(b, at, s) && b[at] == c[from]
  {
    var x, y := b[at..at + 7], c[from..from + 7];
    assert x[0] == b[at] && x[1] == b[at + 1] && x[2] == b[at + 2] && x[3] == b[at + 3];
    assert x[4] == b[at + 4] && x[5] == b[at + 5] && x[6] == b[at + 6];
    assert y[0] == c[from] && y[1] == c[from + 1] && y[2] == c[from + 2] && y[3] == c[from + 3];
    assert y[4] == c[from + 4] && y[5] == c[from + 5] && y[6] == c[from + 6];
  }

  lemma {:induction false} DirectoryLies(slots: seq<Slot>, i: nat)
    requires i < |slots| && forall h :: 0 <= h < |slots| ==> slots[h].pageOffset < 0x1_0000_0000
    ensures var b := Directory(slots);
            SlotAt(b, 7 * i, slots[i]) && (b[7 * i] == 0 || b[7 * i] == 1)
  {
    hide SlotAt, SlotBytes;
    var head, tail := SlotBytes(slots[0]), Directory(slots[1..]);
    if i == 0 {
      SlotBytesLie(slots[0]);
      SlotMoves(head + tail, 0, head, 0, slots[0]);
    } else {
      DirectoryLies(slots[1..], i - 1);
      var at := 7 * (i - 1);
      assert (head + tail)[7 * i..7 * i + 7] == tail[at..at + 7];
      SlotMoves(head + tail, 7 * i, tail, at, slots[i]);
    }
  }

  /** The bytes of a page: the number of records in bytes 0 and 1, the start of the records from byte 2 on, the
      page id from 6, the length of the directory from 10, the slots from 14 on, and behind them the data. */
  lemma PageBytesLie(f: PageFields)
    requires f.Storable()
    ensures var b := PageBytes(f);
            && |b| == 14 + |f.data| && Holds16(b, 0, f.numberOfRecords) && Holds32(b, 2, f.dataOffset)
            && Holds32(b, 6, f.pageId) && Holds32(b, 10, 7 * |f.slots|)
            && (forall i :: 0 <= i < |f.slots| ==> SlotAt(b, 14 + 7 * i, f.slots[i]) && b[14 + 7 * i] in {0, 1})
            && forall p :: 7 * |f.slots| <= p < |f.data| ==> b[14 + p] == f.data[p]
  {
    hide SlotAt, Directory, HeaderBytes, PageBytes, Holds16, Holds32;
    var b, dir := PageBytes(f), Directory(f.slots);
    HeaderBytesLie(f);
    DirectoryAndData(f);
    forall i | 0 <= i < |f.slots| ensures SlotAt(b, 14 + 7 * i, f.slots[i]) && b[14 + 7 * i] in {0, 1} {
      DirectoryLies(f.slots, i);
      var at := 7 * i;
      assert b[14 + at..14 + at + 7] == b[14..14 + |dir|][at..at + 7];
      SlotMoves(b, 14 + at, dir, at, f.slots[i]);
    }
  }

  lemma DirectoryAndData(f: PageFields)
    requires f.Storable()
    ensures var b := PageBytes(f);
            && |b| == 14 + |f.data| && b[14..14 + 7 * |f.slots|] == Directory(f.slots)
            && forall p :: 7 * |f.slots| <= p < |f.data| ==> b[14 + p] == f.data[p]
  {
    hide Directory, HeaderBytes;
  }

  lemma HeaderBytesLie(f: PageFields)
    requires f.Storable()
    ensures var b := PageBytes(f);
            && Holds16(b, 0, f.numberOfRecords) && Holds32(b, 2, f.dataOffset) && Holds32(b, 6, f.pageId)
            && Holds32(b, 10, 7 * |f.slots|)
  {
    var b, h := PageBytes(f), HeaderBytes(f);
    U16BytesHold(f.numberOfRecords);
    I32BytesHold(f.dataOffset);
    I32BytesHold(f.pageId);
    I32BytesHold(SLOT_SIZE * |f.slots|);
    assert U32Bytes(f.dataOffset) == I32Bytes(f.dataOffset);
    assert b[0..2] == h[0..2] == U16Bytes(f.numberOfRecords);
    assert b[2..6] == h[2..6] == I32Bytes(f.dataOffset);
    assert b[6..10] == h[6..10] == I32Bytes(f.pageId);
    assert b[10..14] == h[10..14] == I32Bytes(SLOT_SIZE * |f.slots|);
    hide PageBytes, HeaderBytes, I32Bytes, U16Bytes;
    HeldThere(b, 0, U16Bytes(f.numberOfRecords), f.numberOfRecords);
    HeldThere(b, 2, I32Bytes(f.dataOffset), f.dataOffset);
    HeldThere(b, 6, I32Bytes(f.pageId), f.pageId);
    HeldThere(b, 10, I32Bytes(SLOT_SIZE * |f.slots|), SLOT_SIZE * |f.slots|);
  }

  lemma {:induction false} SlotsReadLie(b: seq<Byte>, i: nat)
    ensures |SlotsFrom(b)| == |b| / 7
    ensures i < |SlotsFrom(b)| ==> 7 * i + 7 <= |b| && SlotAt(b, 7 * i, SlotsFrom(b)[i])
    decreases |b|
  {
    hide SlotAt, SlotFrom;
    if |b| >= 7 {
      SlotsReadLie(b[7..], if i == 0 then 0 else i - 1);
      SlotReadLies(b[..7]);
      if i == 0 {
        SlotMoves(b, 0, b[..7], 0, SlotFrom(b[..7]));
      } else if i < |SlotsFrom(b)| {
        var at := 7 * (i - 1);
        PieceOfRest(b, 7, at, at + 7);
        SlotMoves(b, 7 * i, b[7..], at, SlotsFrom(b)[i]);
      }
    }
  }

  lemma SlotReadLies(b: seq<Byte>)
    requires |b| == 7
    ensures SlotAt(b, 0, SlotFrom(b))
  {
    U32BytesUnique(b[1..5]);
    U32BytesHold(U32From(b[1..5]));
    U16FromHolds(b[5..7]);
    var w := b[1..5];
    assert b[1] == w[0] && b[2] == w[1] && b[3] == w[2] && b[4] == w[3];
    assert b[5] == b[5..7][0] && b[6] == b[5..7][1];
  }

  /** They are read from the same places. A start of the records below 0 is read as a size of 64 bits. */
  lemma PageFromLies(b: seq<Byte>)
    requires Readable(b) && |b| < 0x8000_0000_0000_0000
    ensures var f := PageFrom(b);
            && Holds16(b, 0, f.numberOfRecords) && Holds32(b, 6, f.pageId) && Holds32(b, 10, I32From(b[10..14]))
            && Holds32(b, 2, if f.dataOffset < 0x8000_0000 then f.dataOffset
                             else f.dataOffset - 0x1_0000_0000_0000_0000)
            && f.data == b[14..] && |f.slots| == I32From(b[10..14]) / 7
            && forall i :: 0 <= i < |f.slots| ==> SlotAt(b, 14 + 7 * i, f.slots[i])
  {
    var f := PageFrom(b);
    U16FromHolds(b[0..2]);
    I32FromHolds(b[2..6]);
    I32FromHolds(b[6..10]);
    I32FromHolds(b[10..14]);
    HeldThere(b, 0, b[0..2], U16From(b[0..2]));
    HeldThere(b, 2, b[2..6], I32From(b[2..6]));
    HeldThere(b, 6, b[6..10], I32From(b[6..10]));
    HeldThere(b, 10, b[10..14], I32From(b[10..14]));
    hide I32From, U16From, U32From, SlotsFrom, SlotFrom, SlotAt;
    var dir := b[14..][..AsUsize(I32From(b[10..14]))];
    SlotsReadLie(dir, 0);
    forall i | 0 <= i < |f.slots| ensures SlotAt(b, 14 + 7 * i, f.slots[i]) {
      SlotsReadLie(dir, i);
      var at := 7 * i;
      PieceOfRest(b, 14, at, at + 7);
      assert dir[at..at + 7] == b[14..][at..at + 7];
      SlotMoves(b, 14 + at, dir, at, f.slots[i]);
    }
  }

  /** Where the directory lies over a live record it agrees with it. */
  ghost predicate HarmlessOverlay(f: PageFields)
    requires f.Storable()
  {
    forall i, p: nat :: 0 <= i < |f.slots| && !f.slots[i].deleted && f.slots[i].Covers(p) && p < SLOT_SIZE * |f.slots|
      ==> f.data[p] == Directory(f.slots)[p]
  }

  /** Every record is read back as it was exactly when the directory does not change a byte of a live one. */
  lemma RecordsSurviveExactlyWhen(f: PageFields)
    requires f.Storable()
    ensures ReadAll(f.slots, Overlaid(f)) == ReadAll(f.slots, f.data) <==> HarmlessOverlay(f)
  {
    hide Directory, Overlaid, ReadAll, HarmlessOverlay;
    if HarmlessOverlay(f) { HarmlessKeeps(f); }
    if ReadAll(f.slots, Overlaid(f)) == ReadAll(f.slots, f.data) { KeptIsHarmless(f); }
  }

  lemma OverlaidAt(f: PageFields, p: nat)
    requires f.Storable() && p < |f.data|
    ensures Overlaid(f)[p] == if p < SLOT_SIZE * |f.slots| then Directory(f.slots)[p] else f.data[p]
  {
    hide Directory;
  }

  lemma HarmlessKeeps(f: PageFields)
    requires f.Storable() && HarmlessOverlay(f)
    ensures ReadAll(f.slots, Overlaid(f)) == ReadAll(f.slots, f.data)
  {
    hide Directory, Overlaid;
    var d := Overlaid(f);
    forall i | 0 <= i < |f.slots| ensures Read(f.slots, d, i) == Read(f.slots, f.data, i) {
      var s := f.slots[i];
      if !s.deleted {
        forall p: nat | s.pageOffset <= p < s.End() ensures d[p] == f.data[p] {
          assert s.Covers(p);
          OverlaidAt(f, p);
        }
        assert ReadData(d, s) == ReadData(f.data, s);
      }
    }
  }

  lemma KeptIsHarmless(f: PageFields)
    requires f.Storable() && ReadAll(f.slots, Overlaid(f)) == ReadAll(f.slots, f.data)
    ensures HarmlessOverlay(f)
  {
    hide Directory, Overlaid;
    var d := Overlaid(f);
    forall i, p: nat | 0 <= i < |f.slots| && !f.slots[i].deleted && f.slots[i].Covers(p) && p < SLOT_SIZE * |f.slots|
      ensures f.data[p] == Directory(f.slots)[p]
    {
      var s := f.slots[i];
      OverlaidAt(f, p);
      assert ReadAll(f.slots, d)[i] == ReadAll(f.slots, f.data)[i];
      assert ReadData(d, s)[p - s.pageOffset] == ReadData(f.data, s)[p - s.pageOffset];
    }
  }

  /** No live record begins below the end of the directory. */
  ghost predicate ClearOfDirectory(slots: seq<Slot>) {
    forall i :: 0 <= i < |slots| && !slots[i].deleted && slots[i].recordLength > 0 ==>
        SLOT_SIZE * |slots| <= slots[i].pageOffset
  }

  /** Slots keep every record, whatever the bytes are, exactly when no live record begins below the end
      of the directory. */
  lemma SlotsKeepRecordsExactlyWhen(f: PageFields)
    requires f.Storable()
    ensures (forall d: seq<Byte> {:trigger f.(data := d)} :: |d| == |f.data| ==>
               ReadAll(f.slots, Overlaid(f.(data := d))) == ReadAll(f.slots, d))
            <==> ClearOfDirectory(f.slots)
  {
    hide Directory, Overlaid, ReadAll;
    if ClearOfDirectory(f.slots) {
      forall d: seq<Byte> {:trigger f.(data := d)} | |d| == |f.data|
        ensures ReadAll(f.slots, Overlaid(f.(data := d))) == ReadAll(f.slots, d)
      {
        var g := f.(data := d);
        assert HarmlessOverlay(g) by { ClearIsHarmless(g); }
        RecordsSurviveExactlyWhen(g);
      }
    } else {
      var i :| 0 <= i < |f.slots| && !f.slots[i].deleted && f.slots[i].recordLength > 0
               && f.slots[i].pageOffset < SLOT_SIZE * |f.slots|;
      var p := f.slots[i].pageOffset;
      var d := f.data[p := if Directory(f.slots)[p] == 0 then 1 else 0];
      var g := f.(data := d);
      assert f.slots[i].Covers(p) && !HarmlessOverlay(g);
      RecordsSurviveExactlyWhen(g);
    }
  }

  lemma ClearIsHarmless(f: PageFields)
    requires f.Storable() && ClearOfDirectory(f.slots)
    ensures HarmlessOverlay(f)
  {
  }

  /** On a page whose directory ends before its records, every record is read back as it was. */
  lemma RecordsSurvive(f: PageFields)
    requires f.Storable() && Tiled(f.slots, f.dataOffset, |f.data|) && SLOT_SIZE * |f.slots| <= f.dataOffset
    ensures ReadAll(f.slots, PageFrom(PageBytes(f)).data) == ReadAll(f.slots, f.data)
    ensures Tiled(f.slots, f.dataOffset, |PageFrom(PageBytes(f)).data|)
  {
    PageRoundTrip(f);
    RecordsSurviveExactlyWhen(f);
  }
}
