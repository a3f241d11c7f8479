/** Walking over the records of a page, all of them or those an index points to. */
module RecordScan {
  import opened Bytes
  import opened PageSlots
  import opened SlottedPages
  import opened Wrappers

  datatype Record = Record(pageId: I32, recordIndex: nat, data: seq<Byte>)

  /** The records of the live slots from a slot number on, in slot order. */
  function Scan(pageId: I32, slots: seq<Slot>, data: seq<Byte>, from: nat): seq<Record>
    requires InArea(slots, 0, |data|)
    decreases |slots| - from
  {
    if from >= |slots| then []
    else if slots[from].deleted then Scan(pageId, slots, data, from + 1)
    else [Record(pageId, from, ReadData(data, slots[from]))] + Scan(pageId, slots, data, from + 1)
  }

  /** The scan gives each live slot's record once, under its own number, and nothing else. */
  lemma {:induction false} ScanIsExact(pageId: I32, slots: seq<Slot>, data: seq<Byte>, from: nat, r: Record)
    requires InArea(slots, 0, |data|)
    ensures r in Scan(pageId, slots, data, from) <==>
            r.pageId == pageId && r.recordIndex >= from && Read(slots, data, r.recordIndex) == Some(r.data)
    decreases |slots| - from
  {
    if from < |slots| { ScanIsExact(pageId, slots, data, from + 1, r); }
  }

  lemma {:induction false} ScanAscends(pageId: I32, slots: seq<Slot>, data: seq<Byte>, from: nat, i: nat, j: nat)
    requires InArea(slots, 0, |data|) && i < j < |Scan(pageId, slots, data, from)|
    ensures Scan(pageId, slots, data, from)[i].recordIndex < Scan(pageId, slots, data, from)[j].recordIndex
    decreases |slots| - from
  {
    if slots[from].deleted {
      ScanAscends(pageId, slots, data, from + 1, i, j);
    } else {
      var rest := Scan(pageId, slots, data, from + 1);
      if i > 0 {
        ScanAscends(pageId, slots, data, from + 1, i - 1, j - 1);
      } else {
        ScanIsExact(pageId, slots, data, from + 1, rest[j - 1]);
      }
    }
  }

  /** The slot numbers below n that are asked for, in order. */
  function Kept(n: nat, ids: seq<nat>): (k: seq<nat>)
    ensures forall i :: 0 <= i < |k| ==> k[i] < n && k[i] in ids
  {
    if n == 0 then [] else Kept(n - 1, ids) + if n - 1 in ids then [n - 1] else []
  }

  lemma {:induction false} KeptAll(n: nat, ids: seq<nat>, i: nat)
    requires i < n && i in ids
    ensures i in Kept(n, ids)
  {
    if i < n - 1 { KeptAll(n - 1, ids, i); }
  }

  /** The k-th kept slot is slot k exactly when every slot up to it is asked for. */
  lemma {:induction false} NumberIsRightExactlyWhen(n: nat, ids: seq<nat>, k: nat)
    requires k < |Kept(n, ids)|
    ensures Kept(n, ids)[k] >= k
    ensures Kept(n, ids)[k] == k <==> forall i :: 0 <= i <= k ==> i in ids
  {
    if k < |Kept(n - 1, ids)| {
      NumberIsRightExactlyWhen(n - 1, ids, k);
    } else {
      KeptCount(n - 1, ids);
      if k < n - 1 && forall i :: 0 <= i <= k ==> i in ids {
        KeptAtLeast(n - 1, ids, k + 1);
      }
    }
  }

  lemma {:induction false} KeptAtLeast(n: nat, ids: seq<nat>, m: nat)
    requires m <= n && forall i :: 0 <= i < m ==> i in ids
    ensures |Kept(n, ids)| >= m
  {
    if n > 0 { KeptAtLeast(n - 1, ids, if m == n then m - 1 else m); }
  }

  lemma {:induction false} KeptCount(n: nat, ids: seq<nat>)
    ensures |Kept(n, ids)| <= n
    ensures |Kept(n, ids)| == n <==> forall i :: 0 <= i < n ==> i in ids
  {
    if n > 0 { KeptCount(n - 1, ids); }
  }

  /** A record found through a unique index is reported under number 0, whatever its slot. */
  lemma {:induction false} SingleSlotIsNumberedZero(n: nat, id: nat)
    requires id < n
    ensures Kept(n, [id]) == [id]
  {
    if id < n - 1 { SingleSlotIsNumberedZero(n - 1, id); } else { NoneBelow(id, id); }
  }

  lemma {:induction false} NoneBelow(n: nat, id: nat)
    requires n <= id
    ensures Kept(n, [id]) == []
  {
    if n > 0 { NoneBelow(n - 1, id); }
  }

  class RecordIterator {
    const pageId: I32
    const data: seq<Byte>
    const slots: seq<Slot>
    var nextSlot: nat

    ghost predicate Valid() { InArea(slots, 0, |data|) }

    /** What is still to come. */
    ghost function Rest(): seq<Record>
      reads this
      requires Valid()
    {
      Scan(pageId, slots, data, nextSlot)
    }

    constructor (page: Page)
      requires page.Tiles()
      ensures Valid() && Rest() == Scan(page.pageId, page.slots, page.data[..], 0)
    {
      pageId, data, slots, nextSlot := page.pageId, page.data[..], page.slots, 0;
    }

    /** Only the slots asked for; they lose their numbers. */
    constructor FromSlots(page: Page, ids: seq<nat>)
      requires page.Tiles()
      ensures Valid() && nextSlot == 0 && data == page.data[..] && pageId == page.pageId
      ensures var kept := Kept(|page.slots|, ids);
              |slots| == |kept| && forall k :: 0 <= k < |kept| ==> slots[k] == page.slots[kept[k]]
    {
      var kept: seq<Slot> := [];
      var i := 0;
      while i < |page.slots|
        invariant i <= |page.slots| && |kept| == |Kept(i, ids)|
        invariant forall k :: 0 <= k < |kept| ==> kept[k] == page.slots[Kept(i, ids)[k]]
      {
        if i in ids {
          kept := kept + [page.slots[i]];
        }
        i := i + 1;
      }
      pageId, data, slots, nextSlot := page.pageId, page.data[..], kept, 0;
    }

    method Next() returns (found: Option<Record>)
      requires Valid()
      modifies this
      ensures found.None? ==> old(Rest()) == [] && Rest() == []
      ensures found.Some? ==> old(Rest()) == [found.value] + Rest()
    {
      found := None;
      while nextSlot < |slots| && found.None?
        invariant found.None? ==> Rest() == old(Rest())
        invariant found.Some? ==> old(Rest()) == [found.value] + Rest()
        decreases |slots| - nextSlot
      {
        var slot := slots[nextSlot];
        if !slot.deleted {
          found := Some(Record(pageId, nextSlot, data[slot.pageOffset..slot.End()]));
        }
        nextSlot := nextSlot + 1;
      }
    }
  }
}
