/** The slots of a page: how they divide the record area, and what can be read through them. */
module PageSlots {
  import opened Bytes
  import opened PageLayout
  import opened Wrappers

  datatype Slot = Slot(recordLength: U16, pageOffset: nat, deleted: bool) {
    function End(): nat { pageOffset + recordLength }

    predicate Covers(p: nat) { pageOffset <= p < End() }
  }

  // -------- tiling --------

  /** How many slots cover a position. */
  ghost function Cover(slots: seq<Slot>, p: nat): nat {
    if |slots| == 0 then 0
    else Cover(slots[..|slots| - 1], p) + if slots[|slots| - 1].Covers(p) then 1 else 0
  }

  predicate InArea(slots: seq<Slot>, from: nat, to: nat) {
    forall i :: 0 <= i < |slots| ==> from <= slots[i].pageOffset && slots[i].End() <= to
  }

  /** The slots, live and deleted, cover every position of [from, to) once and no other. */
  ghost predicate Tiled(slots: seq<Slot>, from: nat, to: nat) {
    && from <= to && InArea(slots, from, to)
    && forall p: nat :: p < to ==> Cover(slots, p) == if from <= p then 1 else 0
  }

  lemma CoverAppend(slots: seq<Slot>, s: Slot, p: nat)
    ensures Cover(slots + [s], p) == Cover(slots, p) + if s.Covers(p) then 1 else 0
  {
    assert (slots + [s])[..|slots|] == slots;
  }

  lemma {:induction false} CoverUpdate(slots: seq<Slot>, i: nat, s: Slot, p: nat)
    requires i < |slots|
    ensures Cover(slots[i := s], p) + (if slots[i].Covers(p) then 1 else 0)
         == Cover(slots, p) + (if s.Covers(p) then 1 else 0)
  {
    var n := |slots| - 1;
    if i < n {
      CoverUpdate(slots[..n], i, s, p);
      assert slots[i := s][..n] == slots[..n][i := s];
    } else {
      assert slots[i := s][..n] == slots[..n];
    }
  }

  /** No position belongs to two slots. */
  lemma TilesAreApart(slots: seq<Slot>, from: nat, to: nat, i: nat, j: nat, p: nat)
    requires Tiled(slots, from, to) && i < |slots| && j < |slots| && i != j && slots[i].Covers(p)
    ensures !slots[j].Covers(p)
  {
    var gone := slots[i := slots[i].(recordLength := 0)];
    CoverUpdate(slots, i, slots[i].(recordLength := 0), p);
    CoverUpdate(gone, j, gone[j].(recordLength := 0), p);
  }

  /** A new record takes the end of the free space. */
  lemma TiledAfterAppend(slots: seq<Slot>, from: nat, to: nat, s: Slot)
    requires Tiled(slots, from, to) && s.End() == from
    ensures Tiled(slots + [s], s.pageOffset, to)
  {
    forall p: nat | p < to ensures Cover(slots + [s], p) == if s.pageOffset <= p then 1 else 0 {
      CoverAppend(slots, s, p);
    }
  }

  /** A slot cut in two covers what it covered. */
  lemma TiledAfterCut(slots: seq<Slot>, from: nat, to: nat, i: nat, s: Slot, rest: Slot)
    requires Tiled(slots, from, to) && i < |slots|
    requires s.pageOffset == slots[i].pageOffset && rest.pageOffset == s.End() && rest.End() == slots[i].End()
    ensures Tiled(slots[i := s] + [rest], from, to)
  {
    var cut := slots[i := s];
    forall p: nat | p < to ensures Cover(cut + [rest], p) == if from <= p then 1 else 0 {
      CoverUpdate(slots, i, s, p);
      CoverAppend(cut, rest, p);
    }
  }

  /** Marking a slot does not move it. */
  lemma TiledAfterMark(slots: seq<Slot>, from: nat, to: nat, i: nat, deleted: bool)
    requires Tiled(slots, from, to) && i < |slots|
    ensures Tiled(slots[i := slots[i].(deleted := deleted)], from, to)
  {
    var marked := slots[i := slots[i].(deleted := deleted)];
    forall p: nat | p < to ensures Cover(marked, p) == if from <= p then 1 else 0 {
      CoverUpdate(slots, i, slots[i].(deleted := deleted), p);
    }
  }

  /** Slot i takes a record of some length; a remainder becomes a deleted slot behind the others. */
  function Refill(slots: seq<Slot>, i: nat, length: nat): seq<Slot>
    requires i < |slots| && length <= slots[i].recordLength
  {
    var s := slots[i];
    var rest := s.recordLength - length;
    slots[i := Slot(length, s.pageOffset, false)] + if rest > 0 then [Slot(rest, s.pageOffset + length, true)] else []
  }

  // -------- reading --------

  function ReadData(data: seq<Byte>, s: Slot): seq<Byte>
    requires s.End() <= |data|
  {
    data[s.pageOffset..s.End()]
  }

  /** The record of a live slot. */
  function Read(slots: seq<Slot>, data: seq<Byte>, i: nat): Option<seq<Byte>>
    requires InArea(slots, 0, |data|)
  {
    if i < |slots| && !slots[i].deleted then Some(ReadData(data, slots[i])) else None
  }

  /** What a page stores: a record or nothing, by slot number. */
  ghost function ReadAll(slots: seq<Slot>, data: seq<Byte>): (r: seq<Option<seq<Byte>>>)
    requires InArea(slots, 0, |data|)
    ensures |r| == |slots| && forall i :: 0 <= i < |r| ==> r[i] == Read(slots, data, i)
  {
    seq(|slots|, i requires 0 <= i < |slots| => Read(slots, data, i))
  }

  /** Bytes written where a slot does not reach leave its record alone. */
  lemma ReadsElsewhere(data: seq<Byte>, at: nat, bytes: seq<Byte>, s: Slot)
    requires at + |bytes| <= |data| && s.End() <= |data|
    requires forall p: nat :: at <= p < at + |bytes| ==> !s.Covers(p)
    ensures ReadData(Overwrite(data, at, bytes), s) == ReadData(data, s)
  {
    var after := Overwrite(data, at, bytes);
    forall p: nat | s.pageOffset <= p < s.End() ensures after[p] == data[p] { assert s.Covers(p); }
  }

  lemma ReadsWritten(data: seq<Byte>, s: Slot, bytes: seq<Byte>)
    requires s.End() <= |data| && |bytes| == s.recordLength
    ensures ReadData(Overwrite(data, s.pageOffset, bytes), s) == bytes
  {
  }

  /** Writing inside slot i touches no other slot. */
  lemma OthersKeepTheirBytes(slots: seq<Slot>, from: nat, data: seq<Byte>, i: nat, bytes: seq<Byte>, j: nat)
    requires Tiled(slots, from, |data|) && i < |slots| && j < |slots| && j != i && |bytes| <= slots[i].recordLength
    ensures ReadData(Overwrite(data, slots[i].pageOffset, bytes), slots[j]) == ReadData(data, slots[j])
  {
    forall p: nat | slots[i].pageOffset <= p < slots[i].pageOffset + |bytes| ensures !slots[j].Covers(p) {
      TilesAreApart(slots, from, |data|, i, j, p);
    }
    ReadsElsewhere(data, slots[i].pageOffset, bytes, slots[j]);
  }

  // -------- free space --------

  predicate Fits(s: Slot, length: int) { s.deleted && s.recordLength >= length }

  predicate FitsPerfectly(s: Slot, length: int) { s.deleted && s.recordLength == length }

  /** The slot a record is to go to: the first perfect fit, else the first deleted slot that is long enough. */
  ghost predicate FreeSlot(slots: seq<Slot>, length: int, r: Option<nat>) {
    match r
    case None => forall i :: 0 <= i < |slots| ==> !Fits(slots[i], length)
    case Some(i) =>
      && i < |slots| && Fits(slots[i], length)
      && (forall h :: 0 <= h < i ==> !FitsPerfectly(slots[h], length))
      && (!FitsPerfectly(slots[i], length) ==>
            && (forall h :: 0 <= h < |slots| ==> !FitsPerfectly(slots[h], length))
            && (forall h :: 0 <= h < i ==> !Fits(slots[h], length)))
  }

  ghost predicate HasPerfectFit(slots: seq<Slot>, length: int) {
    exists i :: 0 <= i < |slots| && FitsPerfectly(slots[i], length)
  }

  /** The longest deleted slot. */
  function MaxDeleted(slots: seq<Slot>): (m: U16)
    ensures forall i :: 0 <= i < |slots| && slots[i].deleted ==> slots[i].recordLength <= m
    ensures m > 0 ==> exists i :: 0 <= i < |slots| && FitsPerfectly(slots[i], m)
  {
    if |slots| == 0 then 0
    else
      var m := MaxDeleted(slots[..|slots| - 1]);
      var s := slots[|slots| - 1];
      if s.deleted && s.recordLength > m then s.recordLength else m
  }

  /** The directory may grow up to the records. */
  function Contiguous(slots: seq<Slot>, from: int): int { from - SLOT_SIZE * |slots| }

  function MaxAvailable(slots: seq<Slot>, from: int): int {
    if Contiguous(slots, from) >= MaxDeleted(slots) then Contiguous(slots, from) else MaxDeleted(slots)
  }

  /** A record of this length is taken. */
  ghost predicate Accepts(slots: seq<Slot>, from: int, length: nat) {
    HasPerfectFit(slots, length) || length + SLOT_SIZE <= MaxAvailable(slots, from)
  }

  /** A record is taken if a deleted slot has its very length, or room for a slot's seven bytes more, or if
      the gap between directory and records has that room. */
  lemma AcceptsExactlyWhen(slots: seq<Slot>, from: int, length: nat)
    ensures Accepts(slots, from, length) <==>
            || (exists i :: 0 <= i < |slots| && slots[i].deleted && slots[i].recordLength == length)
            || (exists i :: 0 <= i < |slots| && slots[i].deleted && slots[i].recordLength >= length + 7)
            || from - 7 * |slots| >= length + 7
  {
    var m := MaxDeleted(slots);
    assert HasPerfectFit(slots, length) <==>
        exists i :: 0 <= i < |slots| && slots[i].deleted && slots[i].recordLength == length;
    if m >= length + 7 {
      var i :| 0 <= i < |slots| && FitsPerfectly(slots[i], m);
      assert slots[i].deleted && slots[i].recordLength >= length + 7;
    }
  }

  /** Where no deleted slot is long enough there is room at the end. */
  lemma RoomAtTheEnd(slots: seq<Slot>, from: int, length: nat)
    requires Accepts(slots, from, length) && FreeSlot(slots, length, None)
    ensures length + SLOT_SIZE <= Contiguous(slots, from)
  {
    var m := MaxDeleted(slots);
    if m > 0 {
      var i :| 0 <= i < |slots| && FitsPerfectly(slots[i], m);
      assert !Fits(slots[i], length);
    }
    assert forall i :: 0 <= i < |slots| ==> FitsPerfectly(slots[i], length) ==> Fits(slots[i], length);
  }
}
