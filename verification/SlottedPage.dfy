/** A heap page: records grow down from the end of the data, the slot directory grows up from its start. */
module SlottedPages {
  import opened Bytes
  import opened PageCodec
  import opened PageLayout
  import opened PageSlots
  import opened Wrappers

  datatype PageError = InsertRecord | UpdateRecord

  class Page {
    var data: array<Byte>
    var slots: seq<Slot>
    var numberOfRecords: U16
    var dataOffset: nat
    var slotsOffset: nat
    var pageId: I32

    /** The slots tile the record area. */
    ghost predicate Tiles()
      reads this, data
    {
      data.Length <= 0x7ff2 && Tiled(slots, dataOffset, data.Length)
    }

    /** The slots tile the record area, and the directory ends before it. */
    ghost predicate Valid()
      reads this, data
    {
      Tiles() && SLOT_SIZE * |slots| <= dataOffset
    }

    /** The records by slot number. */
    ghost function Records(): (r: seq<Option<seq<Byte>>>)
      reads this, data
      requires Tiles()
      ensures |r| == |slots|
    {
      ReadAll(slots, data[..])
    }

    constructor (pageSize: int)
      requires PageSize(pageSize)
      ensures Valid() && fresh(data) && data.Length == DataSize(pageSize) == dataOffset
      ensures slots == [] && numberOfRecords == 0 && pageId == 0 && slotsOffset == 0
    {
      data := new Byte[DataSize(pageSize)](_ => 0);
      dataOffset := DataSize(pageSize);
      slots := [];
      numberOfRecords, slotsOffset, pageId := 0, 0, 0;
    }

    method ReadSlot(id: nat) returns (r: Option<seq<Byte>>)
      requires Tiles()
      ensures r == if id < |slots| then Records()[id] else None
    {
      if id >= |slots| || slots[id].deleted {
        return None;
      }
      r := Some(data[slots[id].pageOffset..slots[id].End()]);
      assert r.value == ReadData(data[..], slots[id]);
    }

    method MaxFragmentedFreeSpace() returns (m: nat)
      ensures m == MaxDeleted(slots)
    {
      m := 0;
      var i := 0;
      while i < |slots|
        invariant i <= |slots| && m == MaxDeleted(slots[..i])
      {
        assert slots[..i + 1][..i] == slots[..i];
        if slots[i].deleted && slots[i].recordLength > m {
          m := slots[i].recordLength;
        }
        i := i + 1;
      }
      assert slots[..i] == slots;
    }

    method MaxAvailableSpace() returns (m: nat)
      requires Valid()
      ensures m == MaxAvailable(slots, dataOffset)
    {
      var rowDataSize := data.Length - dataOffset;
      var allocatedSpace := data.Length - rowDataSize - SLOT_SIZE * |slots|;
      var fragmented := MaxFragmentedFreeSpace();
      m := if allocatedSpace >= fragmented then allocatedSpace else fragmented;
    }

    method FindFreeSlotIndex(length: nat) returns (fallback: Option<nat>)
      ensures FreeSlot(slots, length % 0x1_0000, fallback)
    {
      var wanted := length % 0x1_0000;
      fallback := None;
      var index := 0;
      while index < |slots|
        invariant index <= |slots|
        invariant forall h :: 0 <= h < index ==> !FitsPerfectly(slots[h], wanted)
        invariant fallback.None? ==> forall h :: 0 <= h < index ==> !Fits(slots[h], wanted)
        invariant fallback.Some? ==>
                    && fallback.value < index && Fits(slots[fallback.value], wanted)
                    && forall h :: 0 <= h < fallback.value ==> !Fits(slots[h], wanted)
      {
        var s := slots[index];
        if s.deleted {
          if s.recordLength == wanted {
            fallback := Some(index);
            break;
          }
          if s.recordLength >= wanted && fallback.None? {
            fallback := Some(index);
          }
        }
        index := index + 1;
      }
    }

    /** The free space is computed, and must not be negative, only if there is no perfect fit. */
    method CanInsert(row: seq<Byte>) returns (ok: bool)
      requires Tiles() && (SLOT_SIZE * |slots| <= dataOffset || HasPerfectFit(slots, |row|))
      ensures ok <==> Accepts(slots, dataOffset, |row|)
    {
      var slot := FindFreeSlotIndex(|row|);
      if slot.Some? {
        var perfectFit := slots[slot.value].recordLength == |row|;
        if perfectFit {
          return true;
        }
      }
      var available := MaxAvailableSpace();
      ok := |row| + SLOT_SIZE <= available;
    }

    /** Write a record over one of the same length, live or deleted. Lengths are compared in 16 bits, and a
        longer record whose length seems right does not fit the data. */
    method WriteRecord(index: nat, row: seq<Byte>) returns (r: Result<(), PageError>)
      requires Tiles()
      requires index < |slots| && slots[index].recordLength == |row| % 0x1_0000 ==> |row| < 0x1_0000
      modifies data
      ensures Tiles()
      ensures r.Ok? <==> index < |slots| && slots[index].recordLength == |row|
      ensures r.Err? ==> r.error == UpdateRecord && data[..] == old(data[..])
      ensures r.Ok? ==>
                && data[..] == Overwrite(old(data[..]), slots[index].pageOffset, row)
                && Records() == if slots[index].deleted then old(Records()) else old(Records())[index := Some(row)]
    {
      if index >= |slots| || slots[index].recordLength != |row| % 0x1_0000 {
        return Err(UpdateRecord);
      }
      ghost var before := data[..];
      WriteBytes(slots[index].pageOffset, row);
      WrittenRecords(slots, dataOffset, before, index, row);
      r := Ok(());
    }

    method WriteBytes(at: nat, bytes: seq<Byte>)
      requires at + |bytes| <= data.Length
      modifies data
      ensures data[..] == Overwrite(old(data[..]), at, bytes)
    {
      forall p | at <= p < at + |bytes| {
        data[p] := bytes[p - at];
      }
    }

    /** Put a record into the best deleted slot, or after the others. A longer slot is cut in two, and
        the rest needs a place in the directory: only if it has one does the directory stay clear of the
        records. An empty record gets no slot of its own. */
    method InsertRecord(row: seq<Byte>) returns (r: Result<nat, PageError>)
      requires Tiles() && (SLOT_SIZE * |slots| <= dataOffset || HasPerfectFit(slots, |row|))
      modifies `slots, `dataOffset, `numberOfRecords, data
      ensures r.Ok? <==> old(Accepts(slots, dataOffset, |row|))
      ensures r.Err? ==>
                && r.error == PageError.InsertRecord && slots == old(slots) && data[..] == old(data[..])
                && dataOffset == old(dataOffset) && numberOfRecords == old(numberOfRecords)
      ensures r.Ok? ==> Tiles() && numberOfRecords == (old(numberOfRecords) + 1) % 0x1_0000
      ensures r.Ok? && r.value < |old(slots)| ==>
                var rest := old(slots)[r.value].recordLength - |row|;
                && FreeSlot(old(slots), |row|, Some(r.value)) && dataOffset == old(dataOffset)
                && slots == Refill(old(slots), r.value, |row|)
                && Records() == old(Records())[r.value := Some(row)] + (if rest > 0 then [None] else [])
                && (Valid() <==> SLOT_SIZE * (|old(slots)| + if rest > 0 then 1 else 0) <= dataOffset)
      ensures r.Ok? && r.value >= |old(slots)| ==>
                && r.value == |old(slots)| && FreeSlot(old(slots), |row|, None) && dataOffset == old(dataOffset) - |row|
                && slots == old(slots) + (if |row| > 0 then [Slot(|row|, dataOffset, false)] else [])
                && Records() == old(Records()) + (if |row| > 0 then [Some(row)] else [])
                && Valid()
    {
      hide Tiled, ReadAll, HasPerfectFit;
      var fits := CanInsert(row);
      if !fits {
        return Err(PageError.InsertRecord);
      }
      LengthFits(slots, dataOffset, data.Length, |row|);
      PerfectFitIsFree(slots, |row|);
      var deletedSlot := FindFreeSlotIndex(|row|);
      match deletedSlot {
        case Some(index) =>
          FillSlot(index, row);
          r := Ok(index);
        case None =>
          RoomAtTheEnd(slots, dataOffset, |row|);
          r := Ok(|slots|);
          AppendRecord(row);
      }
      numberOfRecords := (numberOfRecords + 1) % 0x1_0000;
    }

    /** A deleted slot takes the record; a remainder becomes a deleted slot. */
    method FillSlot(index: nat, row: seq<Byte>)
      requires Tiles() && index < |slots| && Fits(slots[index], |row|)
      modifies `slots, data
      ensures Tiles() && slots == Refill(old(slots), index, |row|)
      ensures var rest := old(slots)[index].recordLength - |row|;
              && Records() == old(Records())[index := Some(row)] + (if rest > 0 then [None] else [])
              && (Valid() <==> SLOT_SIZE * (|old(slots)| + if rest > 0 then 1 else 0) <= dataOffset)
    {
      FilledSlot(slots, dataOffset, data[..], index, row);
      hide Tiled, ReadAll, FreeSlot;
      var slot := slots[index];
      WriteBytes(slot.pageOffset, row);
      var remaining := slot.recordLength - |row|;
      slots := slots[index := Slot(|row|, slot.pageOffset, false)];
      assert slots + [] == slots;
      if remaining > 0 {
        AllocateSlot(slot.pageOffset + |row|, remaining, true);
      }
    }

    method AppendRecord(row: seq<Byte>)
      requires Valid() && |row| + SLOT_SIZE <= Contiguous(slots, dataOffset) && |row| < 0x1_0000
      modifies `slots, `dataOffset, data
      ensures Valid() && dataOffset == old(dataOffset) - |row|
      ensures slots == old(slots) + if |row| > 0 then [Slot(|row|, dataOffset, false)] else []
      ensures Records() == old(Records()) + if |row| > 0 then [Some(row)] else []
    {
      AppendedSlot(slots, dataOffset, data[..], row);
      hide Tiled, ReadAll;
      var start := dataOffset - |row|;
      WriteBytes(start, row);
      dataOffset := start;
      assert slots + [] == slots;
      if |row| > 0 {
        AllocateSlot(start, |row|, false);
      }
    }

    method AllocateSlot(pageOffset: nat, recordLength: U16, deleted: bool)
      modifies `slots
      ensures slots == old(slots) + [Slot(recordLength, pageOffset, deleted)]
    {
      slots := slots + [Slot(recordLength, pageOffset, deleted)];
    }

    method DeleteRecord(index: nat) returns (found: bool)
      requires Tiles()
      modifies `slots
      ensures Tiles() && (found <==> index < |old(slots)|)
      ensures slots == if index < |old(slots)| then old(slots)[index := old(slots)[index].(deleted := true)]
              else old(slots)
      ensures old(Valid()) ==> Valid()
      ensures Records() == if found then old(Records())[index := None] else old(Records())
    {
      if index >= |slots| {
        return false;
      }
      TiledAfterMark(slots, dataOffset, data.Length, index, true);
      slots := slots[index := slots[index].(deleted := true)];
      found := true;
      assert Records() == old(Records())[index := None];
    }

    // ---- bytes ----

    ghost function Fields(): PageFields
      reads this, data
    {
      PageFields(numberOfRecords, dataOffset, pageId, slots, data[..])
    }

    /** The stored form. The directory is written over the data; it has to end within the page. */
    method Serialize() returns (bytes: seq<Byte>)
      requires Tiles() && SLOT_SIZE * |slots| <= data.Length
      ensures Fields().Storable() && bytes == PageBytes(Fields())
    {
      ghost var f := Fields();
      StorableWhenTiled(f);
      var buf := new Byte[HEADER + data.Length](_ => 0);
      SerializeHeader(buf);
      CopyInto(buf, HEADER, data[..]);
      ghost var base := HeaderBytes(f) + f.data;
      assert buf[..] == base;
      assert Overwrite(base, HEADER, Directory(slots[..0])) == base;
      hide Tiled, Directory, HeaderBytes, PageBytes, Overlaid;
      var i := 0;
      while i < |slots|
        invariant i <= |slots| && fresh(buf) && buf.Length == HEADER + data.Length && f == Fields()
        invariant buf[..] == Overwrite(base, HEADER, Directory(slots[..i]))
      {
        OverlayStep(base, slots, i);
        SerializeSlot(buf, HEADER + i * SLOT_SIZE, slots[i]);
        i := i + 1;
      }
      assert slots[..i] == slots;
      bytes := buf[..];
      OverlayDone(f);
    }

    method SerializeHeader(buf: array<Byte>)
      requires Fields().Storable() && buf.Length >= HEADER && buf != data
      modifies buf
      ensures buf[..HEADER] == HeaderBytes(Fields()) && buf[HEADER..] == old(buf[HEADER..])
    {
      CopyInto(buf, 0, U16Bytes(numberOfRecords));
      CopyInto(buf, 2, U32Bytes(dataOffset));
      CopyInto(buf, 6, I32Bytes(pageId));
      CopyInto(buf, 10, I32Bytes(SLOT_SIZE * |slots|));
    }

    static method SerializeSlot(buf: array<Byte>, at: nat, slot: Slot)
      requires at + SLOT_SIZE <= buf.Length && slot.pageOffset < 0x1_0000_0000
      modifies buf
      ensures buf[..] == Overwrite(old(buf[..]), at, SlotBytes(slot))
    {
      CopyInto(buf, at, [if slot.deleted then 1 else 0]);
      CopyInto(buf, at + 1, U32Bytes(slot.pageOffset));
      CopyInto(buf, at + 5, U16Bytes(slot.recordLength));
    }

    constructor Deserialize(bytes: seq<Byte>)
      requires Readable(bytes)
      ensures fresh(data) && Fields() == PageFrom(bytes) && slotsOffset == AsUsize(I32From(bytes[10..14]))
    {
      numberOfRecords := U16From(bytes[0..2]);
      dataOffset := AsUsize(I32From(bytes[2..6]));
      pageId := I32From(bytes[6..10]);
      var freeSlotsOffset := AsUsize(I32From(bytes[10..14]));
      data := new Byte[|bytes| - HEADER](i requires 0 <= i < |bytes| - HEADER => bytes[HEADER + i]);
      slots := SlotsFrom(bytes[HEADER..][..freeSlotsOffset]);
      slotsOffset := freeSlotsOffset;
      new;
      assert data[..] == bytes[HEADER..];
    }
  }

  lemma PerfectFitIsFree(slots: seq<Slot>, length: nat)
    ensures FreeSlot(slots, length, None) ==> !HasPerfectFit(slots, length)
  {
  }

  lemma LengthFits(slots: seq<Slot>, from: nat, to: nat, length: nat)
    requires Tiled(slots, from, to) && to <= 0x7ff2 && Accepts(slots, from, length)
    ensures length < 0x1_0000
  {
  }

  /** A record goes into a deleted slot; what it does not need stays deleted. */
  lemma FilledSlot(slots: seq<Slot>, from: nat, data: seq<Byte>, i: nat, row: seq<Byte>)
    requires Tiled(slots, from, |data|) && i < |slots| && Fits(slots[i], |row|)
    ensures var none: seq<Option<seq<Byte>>> := if slots[i].recordLength > |row| then [None] else [];
            && Tiled(Refill(slots, i, |row|), from, |data|)
            && ReadAll(Refill(slots, i, |row|), Overwrite(data, slots[i].pageOffset, row))
               == ReadAll(slots, data)[i := Some(row)] + none
  {
    var after := Overwrite(data, slots[i].pageOffset, row);
    var s := Slot(|row|, slots[i].pageOffset, false);
    var rest := Slot(slots[i].recordLength - |row|, slots[i].pageOffset + |row|, true);
    if rest.recordLength > 0 {
      TiledAfterCut(slots, from, |data|, i, s, rest);
    } else {
      TiledAfterMark(slots, from, |data|, i, false);
      assert slots[i := s] + [] == slots[i := slots[i].(deleted := false)];
    }
    forall j | 0 <= j < |slots| && j != i ensures ReadData(after, slots[j]) == ReadData(data, slots[j]) {
      OthersKeepTheirBytes(slots, from, data, i, row, j);
    }
    ReadsWritten(data, s, row);
  }

  /** A record goes below the others. */
  lemma AppendedSlot(slots: seq<Slot>, from: nat, data: seq<Byte>, row: seq<Byte>)
    requires Tiled(slots, from, |data|) && |row| <= from && |row| < 0x1_0000
    ensures var s := Slot(|row|, from - |row|, false);
            var after := Overwrite(data, from - |row|, row);
            var more, records := if |row| > 0 then [s] else [], if |row| > 0 then [Some(row)] else [];
            && Tiled(slots + more, from - |row|, |data|)
            && ReadAll(slots + more, after) == ReadAll(slots, data) + records
  {
    var s := Slot(|row|, from - |row|, false);
    var after := Overwrite(data, from - |row|, row);
    if |row| > 0 {
      TiledAfterAppend(slots, from, |data|, s);
    } else {
      assert slots + [] == slots;
    }
    forall j | 0 <= j < |slots| ensures ReadData(after, slots[j]) == ReadData(data, slots[j]) {
      ReadsElsewhere(data, from - |row|, row, slots[j]);
    }
    ReadsWritten(data, s, row);
  }

  /** One slot's record is replaced, the others stay. */
  lemma WrittenRecords(slots: seq<Slot>, from: nat, data: seq<Byte>, i: nat, row: seq<Byte>)
    requires Tiled(slots, from, |data|) && i < |slots| && |row| == slots[i].recordLength
    ensures ReadAll(slots, Overwrite(data, slots[i].pageOffset, row))
         == if slots[i].deleted then ReadAll(slots, data) else ReadAll(slots, data)[i := Some(row)]
  {
    var after := Overwrite(data, slots[i].pageOffset, row);
    forall j | 0 <= j < |slots| && j != i ensures Read(slots, after, j) == Read(slots, data, j) {
      OthersKeepTheirBytes(slots, from, data, i, row, j);
    }
    ReadsWritten(data, slots[i], row);
  }
}
