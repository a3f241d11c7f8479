/** What becomes of a page whose directory outgrows its free space, and of one whose does not. */
module PageFacts {
  import opened Bytes
  import opened PageCodec
  import opened PageLayout
  import opened PageSlots
  import opened SlottedPages
  import opened Wrappers

  /** Write a page and read it again. */
  method Reload(page: Page) returns (again: Page)
    requires page.Valid()
    ensures fresh(again) && again.Valid() && again.Records() == page.Records() && again.slots == page.slots
    ensures again.numberOfRecords == page.numberOfRecords && again.pageId == page.pageId
    ensures again.dataOffset == page.dataOffset && again.slotsOffset == SLOT_SIZE * |page.slots|
  {
    var bytes := page.Serialize();
    ghost var f := page.Fields();
    PageRoundTrip(f);
    RecordsSurvive(f);
    again := new Page.Deserialize(bytes);
    assert again.Fields() == PageFrom(bytes);
    DirectoryLength(f);
  }

  lemma DirectoryLength(f: PageFields)
    requires f.Storable()
    ensures AsUsize(I32From(PageBytes(f)[10..14])) == SLOT_SIZE * |f.slots|
  {
    assert PageBytes(f)[10..14] == HeaderBytes(f)[10..14] == I32Bytes(SLOT_SIZE * |f.slots|);
    I32RoundTrip(SLOT_SIZE * |f.slots|);
  }

  /** Only fragmented space was left when the record was taken: the rest of the slot has no place in the
      directory, and writing the page puts the directory over the record. */
  method DirectoryRunsOverRecord() returns (page: Page, stored: Option<seq<Byte>>, reread: Option<seq<Byte>>)
    ensures page.Tiles() && !page.Valid()
    ensures stored == Some([9, 9, 9, 9]) && reread == Some([1, 0, 0, 0])
  {
    page := OverfullPage();
    stored := page.ReadSlot(0);
    assert stored == Some([9, 9, 9, 9]);
    assert page.Tiles() && SLOT_SIZE * |page.slots| <= page.data.Length;
    ghost var f := page.Fields();
    hide *;
    var bytes := page.Serialize();
    PageRoundTrip(f);
    FirstRecordCovered(f);
    var again := new Page.Deserialize(bytes);
    reread := ReadFirst(again, f);
  }

  method ReadFirst(again: Page, ghost f: PageFields) returns (r: Option<seq<Byte>>)
    requires f.Storable() && f.slots == [Slot(4, 7, false), Slot(7, 11, true)]
    requires again.Fields() == f.(data := Overlaid(f)) && again.Tiles()
    ensures r == Some(ReadData(Overlaid(f), f.slots[0]))
  {
    r := again.ReadSlot(0);
  }

  method OverfullPage() returns (page: Page)
    ensures fresh(page) && page.Tiles() && page.data.Length == 18 && page.dataOffset == 7
    ensures page.slots == [Slot(4, 7, false), Slot(7, 11, true)] && page.Records()[0] == Some([9, 9, 9, 9])
  {
    hide *;
    page := new Page(32);
    var row: seq<Byte> := [5, 5, 5, 5, 5, 5, 5, 5, 5, 5, 5];
    NothingDeleted();
    var first := page.InsertRecord(row);
    assert page.slots == [Slot(11, 7, false)];
    var found := page.DeleteRecord(0);
    assert page.slots == [Slot(11, 7, true)];
    OnlyTheGap();
    var second := page.InsertRecord([9, 9, 9, 9]);
  }

  lemma NothingDeleted()
    ensures Accepts([], 18, 11) && DataSize(32) == 18
  {
  }

  lemma OnlyTheGap()
    ensures Accepts([Slot(11, 7, true)], 7, 4) && !FreeSlot([Slot(11, 7, true)], 4, None)
    ensures Refill([Slot(11, 7, true)], 0, 4) == [Slot(4, 7, false), Slot(7, 11, true)]
  {
    assert MaxDeleted([Slot(11, 7, true)]) == 11;
    assert Fits([Slot(11, 7, true)][0], 4);
  }

  lemma FirstRecordCovered(f: PageFields)
    requires f.Storable() && f.slots == [Slot(4, 7, false), Slot(7, 11, true)]
    ensures ReadData(Overlaid(f), f.slots[0]) == [1, 0, 0, 0]
  {
    assert f.slots[1..] == [Slot(7, 11, true)];
    assert Directory(f.slots)[7..] == SlotBytes(f.slots[1]);
    assert Overlaid(f)[7..11] == Directory(f.slots)[7..11];
  }
}
