/** Sorted association lists: the flat view of a B+ tree, and the bridge from it
    to a finite map from keys to (page id, slot) pairs. */
module Entries {
  import opened Wrappers

  type Val = (int, int)
  type Entry = (int, Val)

  function Get(f: seq<Entry>, k: int): Option<Val> {
    if f == [] then None
    else if f[0].0 == k then Some(f[0].1)
    else Get(f[1..], k)
  }

  /** Insert unless the key is already there. */
  function Ins(f: seq<Entry>, k: int, v: Val): seq<Entry> {
    if f == [] || k < f[0].0 then [(k, v)] + f
    else if k == f[0].0 then f
    else [f[0]] + Ins(f[1..], k, v)
  }

  function Del(f: seq<Entry>, k: int): seq<Entry> {
    if f == [] then []
    else if f[0].0 == k then f[1..]
    else [f[0]] + Del(f[1..], k)
  }

  function ToMap(f: seq<Entry>): map<int, Val> {
    if f == [] then map[] else ToMap(f[1..])[f[0].0 := f[0].1]
  }

  ghost predicate Sorted(f: seq<Entry>) {
    forall i, j :: 0 <= i < j < |f| ==> f[i].0 < f[j].0
  }

  /** Every key lies in the half-open interval from `lo` to `hi`; None means unbounded. */
  predicate AtLeast(lo: Option<int>, k: int) { lo.Some? ==> lo.value <= k }
  predicate Exceeds(lo: Option<int>, k: int) { lo.Some? ==> lo.value < k }
  predicate Under(k: int, hi: Option<int>) { hi.Some? ==> k < hi.value }

  ghost predicate Within(f: seq<Entry>, lo: Option<int>, hi: Option<int>) {
    forall i :: 0 <= i < |f| ==> AtLeast(lo, f[i].0) && Under(f[i].0, hi)
  }

  ghost predicate AllBelow(f: seq<Entry>, k: int) { forall i :: 0 <= i < |f| ==> f[i].0 < k }
  ghost predicate AllAbove(f: seq<Entry>, k: int) { forall i :: 0 <= i < |f| ==> k < f[i].0 }

  // -------- operations on the middle of a list --------

  lemma {:induction false} InsSkip(a: seq<Entry>, b: seq<Entry>, k: int, v: Val)
    requires AllBelow(a, k)
    ensures Ins(a + b, k, v) == a + Ins(b, k, v)
  {
    if a == [] {
      assert a + b == b;
    } else {
      assert (a + b)[1..] == a[1..] + b;
      InsSkip(a[1..], b, k, v);
    }
  }

  lemma {:induction false} InsStop(b: seq<Entry>, c: seq<Entry>, k: int, v: Val)
    requires AllAbove(c, k)
    ensures Ins(b + c, k, v) == Ins(b, k, v) + c
  {
    if b == [] {
      assert b + c == c;
    } else {
      assert (b + c)[1..] == b[1..] + c;
      InsStop(b[1..], c, k, v);
    }
  }

  lemma InsMiddle(a: seq<Entry>, b: seq<Entry>, c: seq<Entry>, k: int, v: Val)
    requires AllBelow(a, k) && AllAbove(c, k)
    ensures Ins(a + b + c, k, v) == a + Ins(b, k, v) + c
  {
    InsSkip(a, b, k, v);
    InsStop(a + b, c, k, v);
  }

  lemma {:induction false} DelSkip(a: seq<Entry>, b: seq<Entry>, k: int)
    requires AllBelow(a, k)
    ensures Del(a + b, k) == a + Del(b, k)
    ensures Get(a + b, k) == Get(b, k)
  {
    if a == [] {
      assert a + b == b;
    } else {
      assert (a + b)[1..] == a[1..] + b;
      DelSkip(a[1..], b, k);
    }
  }

  lemma {:induction false} DelStop(b: seq<Entry>, c: seq<Entry>, k: int)
    requires AllAbove(c, k)
    ensures Del(b + c, k) == Del(b, k) + c
    ensures Get(b + c, k) == Get(b, k)
  {
    if b == [] {
      assert b + c == c;
      AbsentAbove(c, k);
    } else {
      assert (b + c)[1..] == b[1..] + c;
      DelStop(b[1..], c, k);
    }
  }

  lemma {:induction false} AbsentAbove(c: seq<Entry>, k: int)
    requires AllAbove(c, k)
    ensures Del(c, k) == c && Get(c, k) == None
  {
    if c != [] { AbsentAbove(c[1..], k); }
  }

  lemma DelMiddle(a: seq<Entry>, b: seq<Entry>, c: seq<Entry>, k: int)
    requires AllBelow(a, k) && AllAbove(c, k)
    ensures Del(a + b + c, k) == a + Del(b, k) + c
    ensures Get(a + b + c, k) == Get(b, k)
  {
    DelSkip(a, b, k);
    DelStop(a + b, c, k);
  }

  // -------- the finite map behind a sorted list --------

  lemma {:induction false} ToMapKeys(f: seq<Entry>, k: int)
    ensures k in ToMap(f) <==> exists i :: 0 <= i < |f| && f[i].0 == k
  {
    if f != [] {
      ToMapKeys(f[1..], k);
      if k in ToMap(f[1..]) {
        var i :| 0 <= i < |f[1..]| && f[1..][i].0 == k;
        assert f[i + 1].0 == k;
      }
      if k in ToMap(f) && f[0].0 == k { assert f[0].0 == k; }
      forall i | 0 < i < |f| && f[i].0 == k ensures k in ToMap(f) {
        assert f[1..][i - 1].0 == k;
      }
    }
  }

  lemma {:induction false} GetIsLookup(f: seq<Entry>, k: int)
    ensures Get(f, k) == if k in ToMap(f) then Some(ToMap(f)[k]) else None
  {
    if f != [] { GetIsLookup(f[1..], k); }
  }

  lemma {:induction false} InsIsUpdate(f: seq<Entry>, k: int, v: Val)
    requires Sorted(f)
    ensures ToMap(Ins(f, k, v)) == if k in ToMap(f) then ToMap(f) else ToMap(f)[k := v]
  {
    if f == [] {
    } else if k < f[0].0 {
      ToMapKeys(f, k);
      assert ([(k, v)] + f)[1..] == f;
    } else if k > f[0].0 {
      InsIsUpdate(f[1..], k, v);
      assert ([f[0]] + Ins(f[1..], k, v))[1..] == Ins(f[1..], k, v);
    }
  }

  lemma {:induction false} DelIsRemoval(f: seq<Entry>, k: int)
    requires Sorted(f)
    ensures ToMap(Del(f, k)) == ToMap(f) - {k}
  {
    if f == [] {
    } else if f[0].0 == k {
      ToMapKeys(f[1..], k);
    } else {
      DelIsRemoval(f[1..], k);
      assert ([f[0]] + Del(f[1..], k))[1..] == Del(f[1..], k);
    }
  }

  lemma {:induction false} InsSorted(f: seq<Entry>, k: int, v: Val)
    requires Sorted(f)
    ensures Sorted(Ins(f, k, v))
    ensures forall i :: 0 <= i < |Ins(f, k, v)| ==>
              Ins(f, k, v)[i].0 == k || exists j :: 0 <= j < |f| && f[j].0 == Ins(f, k, v)[i].0
  {
    if f != [] && f[0].0 < k {
      InsSorted(f[1..], k, v);
      var rest := Ins(f[1..], k, v);
      forall i | 0 <= i < |rest| ensures f[0].0 < rest[i].0 {
        if rest[i].0 != k {
          var j :| 0 <= j < |f[1..]| && f[1..][j].0 == rest[i].0;
          assert f[j + 1].0 == rest[i].0;
        }
      }
      forall i | 0 <= i < |rest| && rest[i].0 != k ensures exists j :: 0 <= j < |f| && f[j].0 == rest[i].0 {
        var j :| 0 <= j < |f[1..]| && f[1..][j].0 == rest[i].0;
        assert f[j + 1].0 == rest[i].0;
      }
    }
  }

  /** A sorted list is the only one of its map. */
  lemma {:induction false} MapDeterminesList(f: seq<Entry>, g: seq<Entry>)
    requires Sorted(f) && Sorted(g) && ToMap(f) == ToMap(g)
    ensures f == g
  {
    FirstKeyIsLeast(f);
    FirstKeyIsLeast(g);
    if f == [] {
      assert ToMap(g) == map[];
    } else {
      assert f[0].0 in ToMap(g);
      assert g != [];
      assert g[0].0 in ToMap(f);
      DelIsRemoval(f, f[0].0);
      DelIsRemoval(g, f[0].0);
      MapDeterminesList(f[1..], g[1..]);
    }
  }

  lemma FirstKeyIsLeast(f: seq<Entry>)
    requires Sorted(f)
    ensures f != [] ==> f[0].0 in ToMap(f) && ToMap(f)[f[0].0] == f[0].1
    ensures forall k :: k in ToMap(f) ==> f != [] && f[0].0 <= k
  {
    forall k | k in ToMap(f) ensures f != [] && f[0].0 <= k { ToMapKeys(f, k); }
  }

  lemma {:induction false} InsLength(f: seq<Entry>, k: int, v: Val)
    ensures |f| <= |Ins(f, k, v)| <= |f| + 1
  {
    if f != [] && f[0].0 < k { InsLength(f[1..], k, v); }
  }
}
