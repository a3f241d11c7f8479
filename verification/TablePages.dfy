/** The pages of a table: what is stored in them, what they take, and what the free space map knows of them. */
module TablePages {
  import opened Bytes
  import opened PageCodec
  import opened PageLayout
  import opened PageSlots
  import opened Rows
  import opened SlottedPages
  import opened TableRows
  import opened Wrappers
  import FreeSpaceMap

  // -------- the slots of a page --------

  /** The slots of a page; a page still to come has none. */
  ghost function SlotsOn(heap: HeapFile, id: int): seq<Slot> {
    if id in heap && Readable(heap[id]) then PageFrom(heap[id]).slots else []
  }

  /** Where the records of a page start. */
  ghost function StartOn(heap: HeapFile, pageSize: int, id: int): int {
    if id in heap && Readable(heap[id]) then PageFrom(heap[id]).dataOffset else DataSize(pageSize)
  }

  ghost function SpaceOn(heap: HeapFile, pageSize: int, id: int): int {
    MaxAvailable(SlotsOn(heap, id), StartOn(heap, pageSize, id))
  }

  /** Where a record of some length goes: to a deleted slot, or behind the others. */
  ghost predicate GoesTo(slots: seq<Slot>, length: nat, slot: nat) {
    if slot < |slots| then FreeSlot(slots, length, Some(slot)) else slot == |slots| && FreeSlot(slots, length, None)
  }

  /** The slots of a page that took a record. */
  ghost function SlotsWith(slots: seq<Slot>, from: int, length: nat, slot: nat): seq<Slot>
    requires length < 0x1_0000 && (slot < |slots| ==> slots[slot].recordLength >= length)
    requires (slot >= |slots| ==> from >= length)
  {
    if slot < |slots| then Refill(slots, slot, length) else slots + [Slot(length, from - length, false)]
  }

  /** What putting a record on a page does to its slots: they end up in the records' way only if the rest
      of a slot found no room. */
  ghost predicate PutAt(slots: seq<Slot>, from: int, now: seq<Slot>, start: int, length: nat, slot: nat) {
    && length < 0x1_0000 && GoesTo(slots, length, slot) && (slot >= |slots| ==> from >= length)
    && now == SlotsWith(slots, from, length, slot) && start == (if slot < |slots| then from else from - length)
    && (SLOT_SIZE * |now| > start <==> NoRoomForRest(slots, from, length))
  }

  /** A record was put on a page. */
  ghost predicate Placed(was: HeapFile, now: HeapFile, pageSize: int, id: int, slot: nat, length: nat) {
    && id in now && now == was[id := now[id]]
    && PutAt(SlotsOn(was, id), StartOn(was, pageSize, id), SlotsOn(now, id), StartOn(now, pageSize, id), length, slot)
    && !RestHasNoRoom(was, pageSize, id, length)
  }

  /** Nothing was stored, but for an empty page that may have come. */
  ghost predicate PageAdded(was: HeapFile, now: HeapFile, id: int) {
    now == was || (id !in was && id in now && now == was[id := now[id]] && SlotsOn(now, id) == [])
  }

  /** The record of a slot was deleted. */
  ghost predicate Marked(was: HeapFile, now: HeapFile, pageSize: int, id: int, slot: nat) {
    && id in now && now == was[id := now[id]] && StartOn(now, pageSize, id) == StartOn(was, pageSize, id)
    && SlotsOn(now, id) == if slot < |SlotsOn(was, id)|
       then SlotsOn(was, id)[slot := SlotsOn(was, id)[slot].(deleted := true)]
                           else SlotsOn(was, id)
  }

  /** A page that offers the bytes of a record, but not those of its slot as well, and has no perfect fit. */
  ghost predicate FallsShort(heap: HeapFile, pageSize: int, id: int, length: nat) {
    && !HasPerfectFit(SlotsOn(heap, id), length)
    && FreeSpaceMap.Min(length, MaxTuple(pageSize)) <= SpaceOn(heap, pageSize, id) < length + SLOT_SIZE
  }

  /** A deleted slot is long enough and none fits perfectly: a rest remains, and the directory has no room for it. */
  ghost predicate NoRoomForRest(slots: seq<Slot>, from: int, length: nat) {
    && !HasPerfectFit(slots, length) && (exists i :: 0 <= i < |slots| && Fits(slots[i], length))
    && SLOT_SIZE * (|slots| + 1) > from
  }

  ghost predicate RestHasNoRoom(heap: HeapFile, pageSize: int, id: int, length: nat) {
    NoRoomForRest(SlotsOn(heap, id), StartOn(heap, pageSize, id), length)
  }

  // -------- the free space map --------

  /** The space a stored page has available. */
  ghost function Space(b: seq<Byte>): int
    requires Readable(b)
  {
    MaxAvailable(PageFrom(b).slots, PageFrom(b).dataOffset)
  }

  /** The free space map knows every page of the heap, with the space it has. */
  ghost predicate SpaceKnown(heap: HeapFile, space: map<int, nat>) {
    && (forall id :: id in heap <==> id in space)
    && forall id :: id in heap ==> Readable(heap[id]) && space[id] == Space(heap[id])
  }

  lemma SpaceHasHeapIds(heap: HeapFile, space: map<int, nat>)
    requires SpaceKnown(heap, space)
    ensures forall id :: id in heap <==> id in space
  {
  }

  lemma SpaceIsKnown(heap: HeapFile, space: map<int, nat>, pageSize: int, id: int)
    requires SpaceKnown(heap, space) && id in heap
    ensures id in space && space[id] == SpaceOn(heap, pageSize, id)
  {
  }

  lemma WrittenSpaceIsKnown(heap: HeapFile, space: map<int, nat>, id: int, f: PageFields)
    requires SpaceKnown(heap, space) && id in heap && f.Storable()
    requires MaxAvailable(f.slots, f.dataOffset) >= 0
    ensures SpaceKnown(heap[id := PageBytes(f)], space[id := MaxAvailable(f.slots, f.dataOffset)])
  {
    PageRoundTrip(f);
  }

  lemma NewPageIsKnown(heap: HeapFile, space: map<int, nat>, id: int, bytes: seq<Byte>, pageSize: int)
    requires SpaceKnown(heap, space) && DataSize(pageSize) >= 0
    requires Readable(bytes) && Space(bytes) == DataSize(pageSize)
    ensures SpaceKnown(heap[id := bytes], space[id := DataSize(pageSize)])
  {
  }

  // -------- records --------

  /** A page whose records are those of another, but for one slot. */
  ghost predicate RecordPut(was: PageFields, now: PageFields, slot: nat, record: Option<seq<Byte>>) {
    && InArea(was.slots, 0, |was.data|) && InArea(now.slots, 0, |now.data|)
    && forall i: nat :: Read(now.slots, now.data, i) == if i == slot then record else Read(was.slots, was.data, i)
  }

  /** What an insertion does to the records of a page. */
  lemma RecordsPut(was: PageFields, now: PageFields, slot: nat, bytes: seq<Byte>)
    requires InArea(was.slots, 0, |was.data|) && InArea(now.slots, 0, |now.data|)
    requires if slot < |was.slots| then
               exists more :: ReadAll(now.slots, now.data) == ReadAll(was.slots, was.data)[slot := Some(bytes)] + more
                              && forall i :: 0 <= i < |more| ==> more[i] == None
             else slot == |was.slots| && ReadAll(now.slots, now.data) == ReadAll(was.slots, was.data) + [Some(bytes)]
    ensures RecordPut(was, now, slot, Some(bytes))
  {
    var a, b := ReadAll(was.slots, was.data), ReadAll(now.slots, now.data);
    forall i: nat ensures Read(now.slots, now.data, i) == if i == slot then Some(bytes)
      else Read(was.slots, was.data, i) {
      if i < |b| { assert b[i] == Read(now.slots, now.data, i); }
      if i < |a| { assert a[i] == Read(was.slots, was.data, i); }
    }
  }

  /** The place a record goes to holds none. */
  lemma PlaceIsFree(heap: HeapFile, id: int, slot: nat, length: nat)
    requires GoesTo(SlotsOn(heap, id), length, slot)
    ensures RecordAt(heap, id, slot) == None
  {
  }

  lemma SameRowsReflexive(heap: HeapFile, schema: Schema)
    ensures SameRows(heap, heap, schema)
  {
  }

  lemma SameRowsThenBut(a: HeapFile, b: HeapFile, c: HeapFile, schema: Schema, id: int, slot: nat)
    requires SameRows(a, b, schema) && SameRowsBut(b, c, schema, id, slot)
    ensures SameRowsBut(a, c, schema, id, slot)
  {
    hide RowAt;
  }

  /** A page that takes the bytes, but not those of the slot as well, falls short. */
  lemma RefusedPageFallsShort(heap: HeapFile, pageSize: int, id: int, length: nat)
    requires SpaceOn(heap, pageSize, id) >= FreeSpaceMap.Min(length, MaxTuple(pageSize))
    ensures FallsShort(heap, pageSize, id, length) <==> !Accepts(SlotsOn(heap, id), StartOn(heap, pageSize, id), length)
  {
  }

  /** Storing a page in which one record changed changes one place of the heap. */
  lemma RecordStored(heap: HeapFile, pageSize: int, schema: Schema, id: int, f: PageFields, slot: nat,
                     record: Option<seq<Byte>>)
    requires GoodPages(heap, pageSize, schema) && id in heap && Readable(heap[id])
    requires f.Storable() && Tiled(f.slots, f.dataOffset, |f.data|) && SLOT_SIZE * |f.slots| <= f.dataOffset
    requires f.pageId == id && |f.data| == DataSize(pageSize)
    requires RecordPut(PageFrom(heap[id]), f, slot, record) && (record.Some? ==> RowOf(record, schema).Some?)
    ensures var now := heap[id := PageBytes(f)];
            GoodPages(now, pageSize, schema) && SameRowsBut(heap, now, schema, id, slot)
              && RecordAt(now, id, slot) == record
  {
    var now := heap[id := PageBytes(f)];
    assert GoodPage(heap, pageSize, schema, id);
    var g := PageFrom(heap[id]);
    forall i | 0 <= i < |f.slots| && ReadAll(f.slots, f.data)[i].Some?
      ensures RowOf(ReadAll(f.slots, f.data)[i], schema).Some?
    {
      if i != slot { assert Read(g.slots, g.data, i).Some? && RowAt(heap, schema, id, i).Some?; }
    }
    WrittenPageIsGood(heap, pageSize, schema, id, f);
    forall i | i in now ensures GoodPage(now, pageSize, schema, i) {
      if i != id { OtherPages(heap, pageSize, schema, id, PageBytes(f), i); }
    }
    forall s: nat ensures RecordAt(now, id, s) == Read(f.slots, f.data, s) { WrittenPage(heap, id, f, s); }
  }

  lemma SlotsStored(heap: HeapFile, pageSize: int, id: int, f: PageFields)
    requires f.Storable()
    ensures var now := heap[id := PageBytes(f)];
            SlotsOn(now, id) == f.slots && StartOn(now, pageSize, id) == f.dataOffset
  {
    PageRoundTrip(f);
  }

  /** Storing an empty page adds no row. */
  lemma NewPageIsGood(heap: HeapFile, pageSize: int, schema: Schema, id: int, f: PageFields)
    requires id !in heap && GoodPages(heap, pageSize, schema)
    requires f.Storable() && f.slots == [] && f.pageId == id && f.dataOffset == |f.data| == DataSize(pageSize)
    requires Tiled(f.slots, f.dataOffset, |f.data|)
    ensures var now := heap[id := PageBytes(f)];
            && GoodPages(now, pageSize, schema) && SameRows(heap, now, schema)
            && Readable(now[id]) && Space(now[id]) == DataSize(pageSize)
            && SlotsOn(now, id) == SlotsOn(heap, id) && StartOn(now, pageSize, id) == StartOn(heap, pageSize, id)
  {
    var now := heap[id := PageBytes(f)];
    PageRoundTrip(f);
    WrittenPageIsGood(heap, pageSize, schema, id, f);
    forall i | i in now ensures GoodPage(now, pageSize, schema, i) {
      if i != id { OtherPages(heap, pageSize, schema, id, PageBytes(f), i); }
    }
    forall i, s: nat ensures RowAt(now, schema, i, s) == RowAt(heap, schema, i, s) {
      if i == id { WrittenPage(heap, id, f, s); }
    }
  }

  /** Which slot a record went to, and what became of the slots. */
  lemma PutWhere(slots: seq<Slot>, from: nat, now: seq<Slot>, start: nat, length: nat, slot: nat)
    requires 0 < length < 0x1_0000 && Accepts(slots, from, length)
    requires slot < |slots| ==>
               FreeSlot(slots, length, Some(slot)) && now == Refill(slots, slot, length) && start == from
    requires slot >= |slots| ==>
               && slot == |slots| && FreeSlot(slots, length, None) && from >= length && start == from - length
               && now == slots + [Slot(length, start, false)] && SLOT_SIZE * |now| <= start
    requires SLOT_SIZE * |slots| <= from
    ensures PutAt(slots, from, now, start, length, slot)
  {
    if slot < |slots| {
      assert Fits(slots[slot], length);
      assert FitsPerfectly(slots[slot], length) <==> HasPerfectFit(slots, length);
    }
  }

  lemma PutMeans(slots: seq<Slot>, from: int, now: seq<Slot>, start: int, length: nat, slot: nat)
    requires PutAt(slots, from, now, start, length, slot)
    ensures GoesTo(slots, length, slot) && (SLOT_SIZE * |now| > start <==> NoRoomForRest(slots, from, length))
  {
  }

  lemma RowOfRecord(heap: HeapFile, schema: Schema, id: int, slot: nat, bytes: seq<Byte>)
    requires RecordAt(heap, id, slot) == Some(bytes)
    ensures RowAt(heap, schema, id, slot) == RowOf(Some(bytes), schema)
  {
  }

  lemma PageThere(heap: HeapFile, pageSize: int, id: int)
    requires id in heap && Readable(heap[id])
    ensures SlotsOn(heap, id) == PageFrom(heap[id]).slots
            && StartOn(heap, pageSize, id) == PageFrom(heap[id]).dataOffset
  {
  }

  lemma SameShortage(was: HeapFile, now: HeapFile, pageSize: int, id: int, length: nat)
    requires SlotsOn(now, id) == SlotsOn(was, id) && StartOn(now, pageSize, id) == StartOn(was, pageSize, id)
    ensures FallsShort(now, pageSize, id, length) <==> FallsShort(was, pageSize, id, length)
    ensures RestHasNoRoom(was, pageSize, id, length)
            <==> NoRoomForRest(SlotsOn(now, id), StartOn(now, pageSize, id), length)
    ensures forall slot: nat :: GoesTo(SlotsOn(was, id), length, slot) <==> GoesTo(SlotsOn(now, id), length, slot)
  {
  }

  lemma NowAdded(was: HeapFile, now: HeapFile, id: int)
    requires id in now && now == was[id := now[id]] && SlotsOn(now, id) == SlotsOn(was, id)
    requires id in was ==> now == was
    ensures PageAdded(was, now, id)
  {
  }

  lemma NothingAdded(heap: HeapFile, id: int)
    ensures PageAdded(heap, heap, id)
  {
  }

  lemma NowPlaced(was: HeapFile, ready: HeapFile, now: HeapFile, pageSize: int, id: int, slot: nat, length: nat)
    requires id in ready && ready == was[id := ready[id]] && id in now && now == ready[id := now[id]]
    requires SlotsOn(ready, id) == SlotsOn(was, id) && StartOn(ready, pageSize, id) == StartOn(was, pageSize, id)
    requires PutAt(SlotsOn(ready, id), StartOn(ready, pageSize, id), SlotsOn(now, id), StartOn(now, pageSize, id),
                   length, slot)
    requires SLOT_SIZE * |SlotsOn(now, id)| <= StartOn(now, pageSize, id)
    ensures Placed(was, now, pageSize, id, slot, length)
  {
    hide SlotsOn, StartOn;
  }

  lemma NowMarked(was: HeapFile, now: HeapFile, pageSize: int, id: int, slot: nat)
    requires id in now && now == was[id := now[id]] && StartOn(now, pageSize, id) == StartOn(was, pageSize, id)
    requires SlotsOn(now, id)
          == if slot < |SlotsOn(was, id)| then SlotsOn(was, id)[slot := SlotsOn(was, id)[slot].(deleted := true)]
             else SlotsOn(was, id)
    ensures Marked(was, now, pageSize, id, slot)
  {
  }

  lemma NothingRemoved(heap: HeapFile, schema: Schema)
    ensures Removed(heap, heap, schema, [])
  {
  }

  lemma OneMoreRemoved(was: HeapFile, before: HeapFile, now: HeapFile, schema: Schema, found: seq<Found>, i: nat)
    requires i < |found| && Removed(was, before, schema, found[..i])
    requires RowAt(now, schema, found[i].pageId, found[i].slot) == None
    requires SameRowsBut(before, now, schema, found[i].pageId, found[i].slot)
    ensures Removed(was, now, schema, found[..i + 1])
  {
    hide RowAt;
    forall id, slot: nat
      ensures RowAt(now, schema, id, slot) == if At(found[..i + 1], id, slot) then None
              else RowAt(was, schema, id, slot)
    {
      AtOneMore(found, i, id, slot);
      assert RowAt(before, schema, id, slot) == if At(found[..i], id, slot) then None else RowAt(was, schema, id, slot);
    }
  }

  lemma AtOneMore(found: seq<Found>, i: nat, id: int, slot: nat)
    requires i < |found|
    ensures At(found[..i + 1], id, slot)
            <==> At(found[..i], id, slot) || (found[i].pageId == id && found[i].slot == slot)
  {
    var more := found[..i + 1];
    if At(found[..i], id, slot) {
      var h :| 0 <= h < i && found[..i][h].pageId == id && found[..i][h].slot == slot;
      assert more[h].pageId == id;
    }
    assert more[i] == found[i];
  }

  lemma LiveRowIsThere(heap: HeapFile, schema: Schema, id: int, slot: nat)
    requires RowAt(heap, schema, id, slot).Some?
    ensures id in heap && Readable(heap[id]) && slot < |PageFrom(heap[id]).slots|
  {
  }

  lemma NoRowOfNothing(schema: Schema)
    ensures forall heap: HeapFile, id, slot: nat :: RecordAt(heap, id, slot) == None ==>
              RowAt(heap, schema, id, slot) == None
  {
  }

}
