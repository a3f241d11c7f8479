/** The bytes of a B+ tree page: a header, then fixed arrays of 32-bit words that end with a sentinel. */
module NodeCodec {
  import opened Bytes
  import opened Entries
  import opened StoredTrees
  import opened Wrappers

  datatype PagerError = InvalidNodePage | CorruptedPage

  const PAGE_DATA_START := 9

  // -------- layout --------

  /** The sizes are computed in 16 bits; beyond 8192 they overflow. */
  predicate Degree(d: int) { 4 <= d <= 8192 && d % 2 == 0 }

  function KeyWord(d: int, i: nat): int { i }
  function ChildWord(d: int, i: nat): int { d - 1 + i }
  function ValueWord(d: int, i: nat): int { 2 * d - 1 + 2 * i }
  function NextWord(d: int): int { 4 * d - 3 }
  function Words(d: int): int { 4 * d - 2 }

  function NodeSize(d: int): int { PAGE_DATA_START + 4 * Words(d) }

  /** What the fields of a page can hold: 32-bit numbers, and no more of them than there is room for. */
  ghost predicate InRange(n: PageImage, d: int) {
    && Degree(d) && Is32(n.id) && Is32Opt(n.nextDeleted) && Is32Opt(n.nextLeaf)
    && |n.keys| <= d - 1 && (forall i :: 0 <= i < |n.keys| ==> Is32(n.keys[i]))
    && |n.children| <= d && (forall i :: 0 <= i < |n.children| ==> Is32(n.children[i]))
    && |n.values| <= d - 1 && (forall i :: 0 <= i < |n.values| ==> Is32(n.values[i].0) && Is32(n.values[i].1))
  }

  predicate Is32(x: int) { -0x8000_0000 <= x < 0x8000_0000 }

  predicate Is32Opt(o: Option<int>) { o.Some? ==> Is32(o.value) }

  function OptionWord(o: Option<int>): (w: I32)
    requires Is32Opt(o)
  {
    match o case None => I32_MIN case Some(x) => x
  }

  function WordOption(w: I32): Option<int> { if w == I32_MIN then None else Some(w) }

  // -------- words in bytes --------

  function WordBytes(ws: seq<I32>): (b: seq<Byte>)
    ensures |b| == 4 * |ws|
  {
    if |ws| == 0 then [] else I32Bytes(ws[0]) + WordBytes(ws[1..])
  }

  lemma {:induction false} WordAt(ws: seq<I32>, k: nat)
    requires k < |ws|
    ensures WordBytes(ws)[4 * k..4 * k + 4] == I32Bytes(ws[k])
  {
    var head, tail := I32Bytes(ws[0]), WordBytes(ws[1..]);
    if k > 0 {
      WordAt(ws[1..], k - 1);
      assert (head + tail)[4 * k..4 * k + 4] == tail[4 * (k - 1)..4 * (k - 1) + 4];
    } else {
      assert (head + tail)[0..4] == head;
    }
  }

  lemma {:induction false} SetWord(ws: seq<I32>, k: nat, w: I32)
    requires k < |ws|
    ensures WordBytes(ws[k := w]) == Overwrite(WordBytes(ws), 4 * k, I32Bytes(w))
  {
    if k == 0 {
      assert ws[0 := w][1..] == ws[1..];
      assert WordBytes(ws)[4..] == WordBytes(ws[1..]);
    } else {
      SetWord(ws[1..], k - 1, w);
      assert ws[k := w][1..] == ws[1..][k - 1 := w];
      OverwriteAfter(I32Bytes(ws[0]), WordBytes(ws[1..]), 4 * (k - 1), I32Bytes(w));
    }
  }

  lemma OverwriteAfter(head: seq<Byte>, tail: seq<Byte>, at: nat, b: seq<Byte>)
    requires at + |b| <= |tail|
    ensures Overwrite(head + tail, |head| + at, b) == head + Overwrite(tail, at, b)
  {
  }

  // -------- reading --------

  function ReadWord(b: seq<Byte>, at: nat): Result<I32, PagerError> {
    if at + 4 > |b| then Err(CorruptedPage) else Ok(I32From(b[at..at + 4]))
  }

  function Prepend<T>(items: seq<T>, r: Result<seq<T>, PagerError>): Result<seq<T>, PagerError> {
    match r
    case Err(e) => Err(e)
    case Ok(rest) => Ok(items + rest)
  }

  lemma PrependNothing<T>(r: Result<seq<T>, PagerError>)
    ensures Prepend([], r) == r
  {
    if r.Ok? { assert [] + r.value == r.value; }
  }

  lemma PrependTwice<T>(a: seq<T>, b: seq<T>, r: Result<seq<T>, PagerError>)
    ensures Prepend(a, Prepend(b, r)) == Prepend(a + b, r)
  {
    if r.Ok? { assert a + (b + r.value) == (a + b) + r.value; }
  }

  /** Up to n words, ending before the first sentinel. */
  function ReadList(b: seq<Byte>, at: nat, n: nat): Result<seq<int>, PagerError>
    decreases n
  {
    if n == 0 then Ok([])
    else match ReadWord(b, at)
      case Err(e) => Err(e)
      case Ok(w) =>
        if w == I32_MIN then Ok([])
        else Prepend([w], ReadList(b, at + 4, n - 1))
  }

  /** Up to n pairs, ending before the first with a sentinel in it. */
  function ReadPairs(b: seq<Byte>, at: nat, n: nat): Result<seq<Val>, PagerError>
    decreases n
  {
    if n == 0 then Ok([])
    else match ReadWord(b, at)
      case Err(e) => Err(e)
      case Ok(w) =>
        match ReadWord(b, at + 4)
        case Err(e) => Err(e)
        case Ok(x) =>
          if w == I32_MIN || x == I32_MIN then Ok([])
          else Prepend([(w, x)], ReadPairs(b, at + 8, n - 1))
  }

  /** What a page's bytes mean. */
  function NodeFrom(b: seq<Byte>, d: int): Result<PageImage, PagerError>
    requires Degree(d) && |b| != 4
  {
    match ReadWord(b, 0)
    case Err(e) => Err(e)
    case Ok(id) =>
      if id == I32_MIN then Err(InvalidNodePage)
      else match ReadWord(b, 5)
        case Err(e) => Err(e)
        case Ok(nextDeleted) =>
          match ReadList(b, WordPos(KeyWord(d, 0)), d - 1)
          case Err(e) => Err(e)
          case Ok(keys) =>
            match ReadList(b, WordPos(ChildWord(d, 0)), d)
            case Err(e) => Err(e)
            case Ok(children) =>
              match ReadPairs(b, WordPos(ValueWord(d, 0)), d - 1)
              case Err(e) => Err(e)
              case Ok(values) =>
                match ReadWord(b, WordPos(NextWord(d)))
                case Err(e) => Err(e)
                case Ok(next) =>
                  Ok(PageImage(id, b[4] != 0, WordOption(nextDeleted), keys, children, values, WordOption(next)))
  }

  function WordPos(k: nat): nat { PAGE_DATA_START + 4 * k }

  /** A page is read field by field. */
  method TryFrom(b: seq<Byte>, d: int) returns (r: Result<PageImage, PagerError>)
    requires Degree(d) && |b| != 4
    ensures r == NodeFrom(b, d)
  {
    var id := ReadWord(b, 0);
    if id.Err? { return Err(id.error); }
    if id.value == I32_MIN { return Err(InvalidNodePage); }
    var deleted := b[4] != 0;
    var nextDeleted := ReadWord(b, 5);
    if nextDeleted.Err? { return Err(nextDeleted.error); }
    var keys := LoadList(b, WordPos(KeyWord(d, 0)), d - 1);
    if keys.Err? { return Err(keys.error); }
    var children := LoadList(b, WordPos(ChildWord(d, 0)), d);
    if children.Err? { return Err(children.error); }
    var values := LoadPairs(b, WordPos(ValueWord(d, 0)), d - 1);
    if values.Err? { return Err(values.error); }
    var next := ReadWord(b, WordPos(NextWord(d)));
    if next.Err? { return Err(next.error); }
    r := Ok(PageImage(id.value, deleted, WordOption(nextDeleted.value), keys.value, children.value, values.value,
                      WordOption(next.value)));
  }

  method LoadList(b: seq<Byte>, at: nat, n: nat) returns (r: Result<seq<int>, PagerError>)
    ensures r == ReadList(b, at, n)
  {
    var items: seq<int> := [];
    PrependNothing(ReadList(b, at, n));
    var k := 0;
    while k < n
      invariant k <= n
      invariant ReadList(b, at, n) == Prepend(items, ReadList(b, at + 4 * k, n - k))
    {
      var w := ReadWord(b, at + 4 * k);
      if w.Err? { return Err(w.error); }
      if w.value == I32_MIN { break; }
      PrependTwice(items, [w.value], ReadList(b, at + 4 * (k + 1), n - (k + 1)));
      items := items + [w.value];
      k := k + 1;
    }
    assert items + [] == items;
    r := Ok(items);
  }

  method LoadPairs(b: seq<Byte>, at: nat, n: nat) returns (r: Result<seq<Val>, PagerError>)
    ensures r == ReadPairs(b, at, n)
  {
    var items: seq<Val> := [];
    PrependNothing(ReadPairs(b, at, n));
    var k := 0;
    while k < n
      invariant k <= n
      invariant ReadPairs(b, at, n) == Prepend(items, ReadPairs(b, at + 8 * k, n - k))
    {
      var w := ReadWord(b, at + 8 * k);
      if w.Err? { return Err(w.error); }
      var x := ReadWord(b, at + 8 * k + 4);
      if x.Err? { return Err(x.error); }
      if w.value == I32_MIN || x.value == I32_MIN { break; }
      PrependTwice(items, [(w.value, x.value)], ReadPairs(b, at + 8 * (k + 1), n - (k + 1)));
      items := items + [(w.value, x.value)];
      k := k + 1;
    }
    assert items + [] == items;
    r := Ok(items);
  }

  // -------- writing --------

  /** The k-th word behind the header: keys, children, values and the next leaf, each array filled up
      with sentinels. */
  function Word(n: PageImage, d: int, k: nat): I32
    requires InRange(n, d)
  {
    if k < d - 1 then if k < |n.keys| then n.keys[k] else I32_MIN
    else if k < 2 * d - 1 then if k - (d - 1) < |n.children| then n.children[k - (d - 1)] else I32_MIN
    else if k < NextWord(d) then
      var v := (k - (2 * d - 1)) / 2;
      if v >= |n.values| then I32_MIN else if (k - (2 * d - 1)) % 2 == 0 then n.values[v].0 else n.values[v].1
    else OptionWord(n.nextLeaf)
  }

  ghost function NodeWords(n: PageImage, d: int): (ws: seq<I32>)
    requires InRange(n, d)
    ensures |ws| == Words(d) && forall k :: 0 <= k < |ws| ==> ws[k] == Word(n, d, k)
  {
    seq(Words(d), k requires 0 <= k < Words(d) => Word(n, d, k))
  }

  function NodeHeader(n: PageImage): (b: seq<Byte>)
    requires Is32(n.id) && Is32Opt(n.nextDeleted)
    ensures |b| == PAGE_DATA_START
  {
    I32Bytes(n.id) + [0] + I32Bytes(OptionWord(n.nextDeleted))
  }

  ghost function NodeBytes(n: PageImage, d: int): (b: seq<Byte>)
    requires InRange(n, d)
    ensures |b| == NodeSize(d)
  {
    NodeHeader(n) + WordBytes(NodeWords(n, d))
  }

  /** The words behind the header. */
  ghost predicate Holds(b: seq<Byte>, ws: seq<I32>) {
    |b| == PAGE_DATA_START + 4 * |ws| && b[PAGE_DATA_START..] == WordBytes(ws)
  }

  method PutWord(buf: array<Byte>, k: nat, w: I32, ghost ws: seq<I32>)
    requires Holds(buf[..], ws) && k < |ws|
    modifies buf
    ensures Holds(buf[..], ws[k := w]) && buf[..PAGE_DATA_START] == old(buf[..PAGE_DATA_START])
  {
    ghost var before := buf[..];
    SetWord(ws, k, w);
    CopyInto(buf, WordPos(k), I32Bytes(w));
    assert before == before[..PAGE_DATA_START] + WordBytes(ws);
    OverwriteAfter(before[..PAGE_DATA_START], WordBytes(ws), 4 * k, I32Bytes(w));
    assert buf[..] == before[..PAGE_DATA_START] + WordBytes(ws[k := w]);
  }

  lemma {:induction false} ZeroWords(n: nat)
    ensures WordBytes(seq(n, _ => 0)) == seq(4 * n, _ => 0)
  {
    if n > 0 {
      ZeroWords(n - 1);
      var zeros: seq<I32> := seq(n, _ => 0);
      assert zeros[1..] == seq(n - 1, _ => 0);
      assert I32Bytes(0) == [0, 0, 0, 0];
    }
  }

  /** The bytes of a live page: every word starts as a sentinel, then the fields are filled in. */
  method SerializeNode(n: PageImage, d: int) returns (r: Result<seq<Byte>, PagerError>)
    requires InRange(n, d)
    ensures r.Err? <==> n.id == I32_MIN || n.deleted
    ensures r.Err? ==> r.error == InvalidNodePage
    ensures r.Ok? ==> r.value == NodeBytes(n, d)
  {
    if n.id == I32_MIN || n.deleted {
      return Err(InvalidNodePage);
    }
    var buf := new Byte[NodeSize(d)](_ => 0);
    ghost var ws: seq<I32> := seq(Words(d), _ => 0);
    ZeroWords(Words(d));
    assert Holds(buf[..], ws);
    hide WordBytes, Holds;
    var k := 0;
    while k < Words(d)
      invariant k <= Words(d) == |ws| && fresh(buf) && Holds(buf[..], ws)
      invariant forall h :: 0 <= h < k ==> ws[h] == I32_MIN
    {
      PutWord(buf, k, I32_MIN, ws);
      ws := ws[k := I32_MIN];
      k := k + 1;
    }
    PutHeader(buf, n, ws);
    ws := PutKeys(buf, n, d, ws);
    ws := PutChildren(buf, n, d, ws);
    ws := PutValues(buf, n, d, ws);
    PutWord(buf, NextWord(d), OptionWord(n.nextLeaf), ws);
    ws := ws[NextWord(d) := OptionWord(n.nextLeaf)];
    assert ws == NodeWords(n, d);
    r := Ok(buf[..]);
    HeaderAndWords(buf[..], NodeHeader(n), ws);
  }

  lemma HeaderAndWords(b: seq<Byte>, header: seq<Byte>, ws: seq<I32>)
    requires Holds(b, ws) && b[..PAGE_DATA_START] == header
    ensures b == header + WordBytes(ws)
  {
  }

  method PutHeader(buf: array<Byte>, n: PageImage, ghost ws: seq<I32>)
    requires Holds(buf[..], ws) && Is32(n.id) && Is32Opt(n.nextDeleted)
    modifies buf
    ensures Holds(buf[..], ws) && buf[..PAGE_DATA_START] == NodeHeader(n)
  {
    ghost var before := buf[..];
    CopyInto(buf, 0, I32Bytes(n.id));
    CopyInto(buf, 4, [0]);
    CopyInto(buf, 5, I32Bytes(OptionWord(n.nextDeleted)));
    assert buf[PAGE_DATA_START..] == before[PAGE_DATA_START..];
  }

  method PutKeys(buf: array<Byte>, n: PageImage, d: int, ghost was: seq<I32>) returns (ghost ws: seq<I32>)
    requires InRange(n, d) && Holds(buf[..], was) && |was| == Words(d)
    requires forall k :: 0 <= k < |was| ==> was[k] == I32_MIN
    modifies buf
    ensures Holds(buf[..], ws) && |ws| == Words(d) && buf[..PAGE_DATA_START] == old(buf[..PAGE_DATA_START])
    ensures forall k :: 0 <= k < |ws| ==> ws[k] == if k < d - 1 then Word(n, d, k) else I32_MIN
  {
    assert buf.Length >= PAGE_DATA_START;
    hide Holds, WordBytes;
    ws := was;
    var i := 0;
    while i < |n.keys|
      invariant i <= |n.keys| && |ws| == Words(d) && Holds(buf[..], ws)
      invariant buf[..PAGE_DATA_START] == old(buf[..PAGE_DATA_START])
      invariant forall k :: 0 <= k < |ws| ==> ws[k] == if k < i then n.keys[k] else I32_MIN
    {
      PutWord(buf, KeyWord(d, i), n.keys[i], ws);
      ws := ws[KeyWord(d, i) := n.keys[i]];
      i := i + 1;
    }
  }

  method PutChildren(buf: array<Byte>, n: PageImage, d: int, ghost was: seq<I32>) returns (ghost ws: seq<I32>)
    requires InRange(n, d) && Holds(buf[..], was) && |was| == Words(d)
    requires forall k :: 0 <= k < |was| ==> was[k] == if k < d - 1 then Word(n, d, k) else I32_MIN
    modifies buf
    ensures Holds(buf[..], ws) && |ws| == Words(d) && buf[..PAGE_DATA_START] == old(buf[..PAGE_DATA_START])
    ensures forall k :: 0 <= k < |ws| ==> ws[k] == if k < 2 * d - 1 then Word(n, d, k) else I32_MIN
  {
    assert buf.Length >= PAGE_DATA_START;
    hide Holds, WordBytes;
    ws := was;
    var i := 0;
    while i < |n.children|
      invariant i <= |n.children| && |ws| == Words(d) && Holds(buf[..], ws)
      invariant buf[..PAGE_DATA_START] == old(buf[..PAGE_DATA_START])
      invariant forall k :: 0 <= k < |ws| ==> ws[k] == if k < d - 1 + i then Word(n, d, k) else I32_MIN
    {
      PutWord(buf, ChildWord(d, i), n.children[i], ws);
      ws := ws[ChildWord(d, i) := n.children[i]];
      i := i + 1;
    }
  }

  method PutValues(buf: array<Byte>, n: PageImage, d: int, ghost was: seq<I32>) returns (ghost ws: seq<I32>)
    requires InRange(n, d) && Holds(buf[..], was) && |was| == Words(d)
    requires forall k :: 0 <= k < |was| ==> was[k] == if k < 2 * d - 1 then Word(n, d, k) else I32_MIN
    modifies buf
    ensures Holds(buf[..], ws) && |ws| == Words(d) && buf[..PAGE_DATA_START] == old(buf[..PAGE_DATA_START])
    ensures forall k :: 0 <= k < |ws| ==> ws[k] == if k < NextWord(d) then Word(n, d, k) else I32_MIN
  {
    assert buf.Length >= PAGE_DATA_START;
    hide Holds, WordBytes;
    ws := was;
    var i := 0;
    while i < |n.values|
      invariant i <= |n.values| && |ws| == Words(d) && Holds(buf[..], ws)
      invariant buf[..PAGE_DATA_START] == old(buf[..PAGE_DATA_START])
      invariant forall k :: 0 <= k < |ws| ==> ws[k] == if k < ValueWord(d, i) then Word(n, d, k) else I32_MIN
    {
      PutWord(buf, ValueWord(d, i), n.values[i].0, ws);
      ws := ws[ValueWord(d, i) := n.values[i].0];
      PutWord(buf, ValueWord(d, i) + 1, n.values[i].1, ws);
      ws := ws[ValueWord(d, i) + 1 := n.values[i].1];
      i := i + 1;
    }
  }

  // -------- read after write --------

  /** A list up to its first sentinel. */
  function Cut(xs: seq<int>): seq<int> {
    if |xs| == 0 || xs[0] == I32_MIN then [] else [xs[0]] + Cut(xs[1..])
  }

  function CutPairs(vs: seq<Val>): seq<Val> {
    if |vs| == 0 || vs[0].0 == I32_MIN || vs[0].1 == I32_MIN then [] else [vs[0]] + CutPairs(vs[1..])
  }

  predicate CleanPairs(vs: seq<Val>) { forall i :: 0 <= i < |vs| ==> vs[i].0 != I32_MIN && vs[i].1 != I32_MIN }

  lemma {:induction false} CutNothing(xs: seq<int>)
    ensures |Cut(xs)| <= |xs| && (Cut(xs) == xs <==> I32_MIN !in xs)
  {
    if |xs| > 0 {
      CutNothing(xs[1..]);
      assert xs == [xs[0]] + xs[1..];
    }
  }

  lemma {:induction false} CutNoPairs(vs: seq<Val>)
    ensures |CutPairs(vs)| <= |vs| && (CutPairs(vs) == vs <==> CleanPairs(vs))
  {
    if |vs| > 0 {
      CutNoPairs(vs[1..]);
      assert vs == [vs[0]] + vs[1..];
    }
  }

  /** The i-th word from a position on is xs[i], or a sentinel behind the list. */
  ghost predicate ListWord(b: seq<Byte>, at: nat, xs: seq<int>, i: nat) {
    var x := if i < |xs| then xs[i] else I32_MIN;
    Is32(x) && ReadWord(b, at + 4 * i) == Ok(x)
  }

  lemma {:induction false} ReadsCut(b: seq<Byte>, at: nat, n: nat, xs: seq<int>)
    requires |xs| <= n && forall i :: 0 <= i < n ==> ListWord(b, at, xs, i)
    ensures ReadList(b, at, n) == Ok(Cut(xs))
    decreases n
  {
    if n > 0 {
      assert ListWord(b, at, xs, 0);
      if |xs| > 0 && xs[0] != I32_MIN {
        var next, rest := at + 4, xs[1..];
        forall i | 0 <= i < n - 1 ensures ListWord(b, next, rest, i) { assert ListWord(b, at, xs, i + 1); }
        ReadsCut(b, next, n - 1, rest);
      }
    }
  }

  ghost predicate PairWords(b: seq<Byte>, at: nat, vs: seq<Val>, i: nat) {
    var v := if i < |vs| then vs[i] else (I32_MIN, I32_MIN);
    Is32(v.0) && Is32(v.1) && ReadWord(b, at + 8 * i) == Ok(v.0) && ReadWord(b, at + 8 * i + 4) == Ok(v.1)
  }

  lemma {:induction false} ReadsCutPairs(b: seq<Byte>, at: nat, n: nat, vs: seq<Val>)
    requires |vs| <= n && forall i :: 0 <= i < n ==> PairWords(b, at, vs, i)
    ensures ReadPairs(b, at, n) == Ok(CutPairs(vs))
    decreases n
  {
    if n > 0 {
      assert PairWords(b, at, vs, 0);
      if |vs| > 0 && vs[0].0 != I32_MIN && vs[0].1 != I32_MIN {
        var next, rest := at + 8, vs[1..];
        forall i | 0 <= i < n - 1 ensures PairWords(b, next, rest, i) { assert PairWords(b, at, vs, i + 1); }
        ReadsCutPairs(b, next, n - 1, rest);
      }
    }
  }

  lemma ReadsWord(n: PageImage, d: int, k: nat)
    requires InRange(n, d) && k < Words(d)
    ensures ReadWord(NodeBytes(n, d), WordPos(k)) == Ok(Word(n, d, k))
  {
    var ws, b := NodeWords(n, d), NodeBytes(n, d);
    WordAt(ws, k);
    assert b[WordPos(k)..WordPos(k) + 4] == WordBytes(ws)[4 * k..4 * k + 4];
    I32RoundTrip(ws[k]);
  }

  function SentinelOption(o: Option<int>): Option<int> { if o == Some(I32_MIN) then None else o }

  /** What comes back: every list up to its first sentinel. */
  lemma ReadAfterWrite(n: PageImage, d: int)
    requires InRange(n, d) && n.id != I32_MIN && !n.deleted
    ensures NodeFrom(NodeBytes(n, d), d)
         == Ok(PageImage(n.id, false, SentinelOption(n.nextDeleted), Cut(n.keys), Cut(n.children), CutPairs(n.values),
                         SentinelOption(n.nextLeaf)))
  {
    var b, h := NodeBytes(n, d), NodeHeader(n);
    assert b[0..4] == h[0..4] == I32Bytes(n.id);
    assert b[5..9] == h[5..9] == I32Bytes(OptionWord(n.nextDeleted));
    assert b[4] == h[4] == 0;
    I32RoundTrip(n.id);
    I32RoundTrip(OptionWord(n.nextDeleted));
    hide NodeBytes, NodeWords, ReadWord, I32From, I32Bytes, ReadList, ReadPairs, Cut, CutPairs;
    ReadsWord(n, d, NextWord(d));
    KeysCut(n, d, b);
    ChildrenCut(n, d, b);
    ValuesCut(n, d, b);
  }

  lemma KeysCut(n: PageImage, d: int, b: seq<Byte>)
    requires InRange(n, d) && b == NodeBytes(n, d)
    ensures ReadList(b, WordPos(KeyWord(d, 0)), d - 1) == Ok(Cut(n.keys))
  {
    hide NodeBytes, ReadWord;
    var at := WordPos(KeyWord(d, 0));
    forall i | 0 <= i < d - 1 ensures ListWord(b, at, n.keys, i) { ReadsWord(n, d, KeyWord(d, i)); }
    ReadsCut(b, at, d - 1, n.keys);
  }

  lemma ChildrenCut(n: PageImage, d: int, b: seq<Byte>)
    requires InRange(n, d) && b == NodeBytes(n, d)
    ensures ReadList(b, WordPos(ChildWord(d, 0)), d) == Ok(Cut(n.children))
  {
    hide NodeBytes, ReadWord;
    var at := WordPos(ChildWord(d, 0));
    forall i | 0 <= i < d ensures ListWord(b, at, n.children, i) { ReadsWord(n, d, ChildWord(d, i)); }
    ReadsCut(b, at, d, n.children);
  }

  lemma ValuesCut(n: PageImage, d: int, b: seq<Byte>)
    requires InRange(n, d) && b == NodeBytes(n, d)
    ensures ReadPairs(b, WordPos(ValueWord(d, 0)), d - 1) == Ok(CutPairs(n.values))
  {
    hide NodeBytes, ReadWord;
    var at := WordPos(ValueWord(d, 0));
    forall i | 0 <= i < d - 1 ensures PairWords(b, at, n.values, i) {
      ReadsWord(n, d, ValueWord(d, i));
      ReadsWord(n, d, ValueWord(d, i) + 1);
    }
    ReadsCutPairs(b, at, d - 1, n.values);
  }

  // -------- where everything lies --------

  lemma WordLies(n: PageImage, d: int, k: nat)
    requires InRange(n, d) && k < 4 * d - 2
    ensures Holds32(NodeBytes(n, d), 9 + 4 * k, Word(n, d, k))
  {
    var ws, b := NodeWords(n, d), NodeBytes(n, d);
    WordAt(ws, k);
    assert b[9 + 4 * k..9 + 4 * k + 4] == WordBytes(ws)[4 * k..4 * k + 4];
    I32BytesHold(ws[k]);
    HeldThere(b, 9 + 4 * k, I32Bytes(ws[k]), ws[k]);
  }

  /** The bytes of a page of degree d: its id, a zero, the next deleted page from byte 5 on, d - 1 keys from 9,
      d children behind them, d - 1 pairs behind those, and the next leaf; what is missing is the sentinel. */
  lemma NodeBytesLie(n: PageImage, d: int)
    requires InRange(n, d)
    ensures var b := NodeBytes(n, d);
            && |b| == 16 * d + 1 && Holds32(b, 0, n.id) && b[4] == 0
            && Holds32(b, 5, if n.nextDeleted.Some? then n.nextDeleted.value else -0x8000_0000)
            && Holds32(b, 16 * d - 3, if n.nextLeaf.Some? then n.nextLeaf.value else -0x8000_0000)
    ensures forall i :: 0 <= i < d - 1 ==>
              Holds32(NodeBytes(n, d), 9 + 4 * i, if i < |n.keys| then n.keys[i] else -0x8000_0000)
    ensures forall i :: 0 <= i < d ==>
              Holds32(NodeBytes(n, d), 5 + 4 * d + 4 * i, if i < |n.children| then n.children[i] else -0x8000_0000)
    ensures forall i :: 0 <= i < d - 1 ==>
              && Holds32(NodeBytes(n, d), 5 + 8 * d + 8 * i, if i < |n.values| then n.values[i].0 else -0x8000_0000)
              && Holds32(NodeBytes(n, d), 9 + 8 * d + 8 * i, if i < |n.values| then n.values[i].1 else -0x8000_0000)
  {
    var b := NodeBytes(n, d);
    NodeHeaderLies(n, d);
    WordLies(n, d, 4 * d - 3);
    forall i | 0 <= i < d - 1 ensures Holds32(b, 9 + 4 * i, if i < |n.keys| then n.keys[i] else -0x8000_0000) {
      WordLies(n, d, i);
    }
    forall i | 0 <= i < d
      ensures Holds32(b, 5 + 4 * d + 4 * i, if i < |n.children| then n.children[i] else -0x8000_0000)
    {
      WordLies(n, d, d - 1 + i);
    }
    forall i | 0 <= i < d - 1
      ensures Holds32(b, 5 + 8 * d + 8 * i, if i < |n.values| then n.values[i].0 else -0x8000_0000)
      ensures Holds32(b, 9 + 8 * d + 8 * i, if i < |n.values| then n.values[i].1 else -0x8000_0000)
    {
      WordLies(n, d, 2 * d - 1 + 2 * i);
      WordLies(n, d, 2 * d + 2 * i);
    }
  }

  lemma NodeHeaderLies(n: PageImage, d: int)
    requires InRange(n, d)
    ensures var b := NodeBytes(n, d);
            && Holds32(b, 0, n.id) && b[4] == 0
            && Holds32(b, 5, if n.nextDeleted.Some? then n.nextDeleted.value else -0x8000_0000)
  {
    var b, h := NodeBytes(n, d), NodeHeader(n);
    assert b[0..4] == h[0..4] == I32Bytes(n.id);
    assert b[5..9] == h[5..9] == I32Bytes(OptionWord(n.nextDeleted));
    assert b[4] == h[4] == 0;
    I32BytesHold(n.id);
    I32BytesHold(OptionWord(n.nextDeleted));
    HeldThere(b, 0, I32Bytes(n.id), n.id);
    HeldThere(b, 5, I32Bytes(OptionWord(n.nextDeleted)), OptionWord(n.nextDeleted));
  }

  lemma ReadLies(b: seq<Byte>, at: nat)
    ensures ReadWord(b, at).Ok? <==> at + 4 <= |b|
    ensures ReadWord(b, at).Ok? ==> Holds32(b, at, ReadWord(b, at).value)
  {
    if at + 4 <= |b| {
      I32FromHolds(b[at..at + 4]);
      HeldThere(b, at, b[at..at + 4], I32From(b[at..at + 4]));
    }
  }

  lemma {:induction false} ListLies(b: seq<Byte>, at: nat, n: nat)
    requires ReadList(b, at, n).Ok?
    ensures var xs := ReadList(b, at, n).value;
            && |xs| <= n && (forall i :: 0 <= i < |xs| ==> xs[i] != -0x8000_0000 && Holds32(b, at + 4 * i, xs[i]))
            && (|xs| < n ==> Holds32(b, at + 4 * |xs|, -0x8000_0000))
    decreases n
  {
    if n > 0 {
      ReadLies(b, at);
      var w := ReadWord(b, at).value;
      if w != I32_MIN {
        var next := at + 4;
        ListLies(b, next, n - 1);
        var rest := ReadList(b, next, n - 1).value;
        var xs := ReadList(b, at, n).value;
        assert xs == [w] + rest;
        forall i | 0 <= i < |xs| ensures xs[i] != -0x8000_0000 && Holds32(b, at + 4 * i, xs[i]) {
          if i > 0 { assert Holds32(b, next + 4 * (i - 1), rest[i - 1]); }
        }
      }
    }
  }

  lemma {:induction false} PairsLie(b: seq<Byte>, at: nat, n: nat)
    requires ReadPairs(b, at, n).Ok?
    ensures var vs := ReadPairs(b, at, n).value;
            && |vs| <= n
            && (forall i :: 0 <= i < |vs| ==>
                  && vs[i].0 != -0x8000_0000 && vs[i].1 != -0x8000_0000
                  && Holds32(b, at + 8 * i, vs[i].0) && Holds32(b, at + 8 * i + 4, vs[i].1))
            && (|vs| < n ==> Holds32(b, at + 8 * |vs|, -0x8000_0000) || Holds32(b, at + 8 * |vs| + 4, -0x8000_0000))
    decreases n
  {
    if n > 0 {
      ReadLies(b, at);
      ReadLies(b, at + 4);
      var w, x := ReadWord(b, at).value, ReadWord(b, at + 4).value;
      if w != I32_MIN && x != I32_MIN {
        var next := at + 8;
        PairsLie(b, next, n - 1);
        var rest := ReadPairs(b, next, n - 1).value;
        var vs := ReadPairs(b, at, n).value;
        assert vs == [(w, x)] + rest;
        forall i | 0 <= i < |vs|
          ensures vs[i].0 != -0x8000_0000 && vs[i].1 != -0x8000_0000
          ensures Holds32(b, at + 8 * i, vs[i].0) && Holds32(b, at + 8 * i + 4, vs[i].1)
        {
          if i > 0 {
            assert Holds32(b, next + 8 * (i - 1), rest[i - 1].0);
            assert Holds32(b, next + 8 * (i - 1) + 4, rest[i - 1].1);
          }
        }
      }
    }
  }

  /** They are read from the same places, every list up to its first sentinel. */
  lemma NodeFromLies(b: seq<Byte>, d: int)
    requires Degree(d) && |b| != 4 && NodeFrom(b, d).Ok?
    ensures var n := NodeFrom(b, d).value;
            && n.id != -0x8000_0000 && Holds32(b, 0, n.id) && |b| > 4 && (n.deleted <==> b[4] != 0)
            && Holds32(b, 5, if n.nextDeleted.Some? then n.nextDeleted.value else -0x8000_0000)
            && Holds32(b, 16 * d - 3, if n.nextLeaf.Some? then n.nextLeaf.value else -0x8000_0000)
    ensures var n := NodeFrom(b, d).value;
            && |n.keys| <= d - 1 && (forall i :: 0 <= i < |n.keys| ==> Holds32(b, 9 + 4 * i, n.keys[i]))
            && (|n.keys| < d - 1 ==> Holds32(b, 9 + 4 * |n.keys|, -0x8000_0000))
            && |n.children| <= d && (forall i :: 0 <= i < |n.children| ==> Holds32(b, 5 + 4 * d + 4 * i, n.children[i]))
            && (|n.children| < d ==> Holds32(b, 5 + 4 * d + 4 * |n.children|, -0x8000_0000))
            && |n.values| <= d - 1
            && (forall i :: 0 <= i < |n.values| ==>
                  Holds32(b, 5 + 8 * d + 8 * i, n.values[i].0) && Holds32(b, 9 + 8 * d + 8 * i, n.values[i].1))
            && (|n.values| < d - 1 ==>
                  || Holds32(b, 5 + 8 * d + 8 * |n.values|, -0x8000_0000)
                  || Holds32(b, 9 + 8 * d + 8 * |n.values|, -0x8000_0000))
  {
    hide NodeFrom, ReadWord, ReadList, ReadPairs, Holds32;
    NodeFromParts(b, d);
    ReadLies(b, 0);
    ReadLies(b, 5);
    ReadLies(b, 16 * d - 3);
    ListLies(b, 9, d - 1);
    ListLies(b, 5 + 4 * d, d);
    PairsLie(b, 5 + 8 * d, d - 1);
    var n := NodeFrom(b, d).value;
    forall i | 0 <= i < |n.values|
      ensures Holds32(b, 5 + 8 * d + 8 * i, n.values[i].0) && Holds32(b, 9 + 8 * d + 8 * i, n.values[i].1)
    {
      assert 5 + 8 * d + 8 * i + 4 == 9 + 8 * d + 8 * i;
    }
    assert 5 + 8 * d + 8 * |n.values| + 4 == 9 + 8 * d + 8 * |n.values|;
  }

  lemma WordThere(b: seq<Byte>, at: nat)
    requires ReadWord(b, at).Ok?
    ensures at + 4 <= |b|
  {
  }

  lemma NodeFromParts(b: seq<Byte>, d: int)
    requires Degree(d) && |b| != 4 && NodeFrom(b, d).Ok?
    ensures var n := NodeFrom(b, d).value;
            && ReadWord(b, 0) == Ok(n.id) && n.id != I32_MIN && |b| > 4 && (n.deleted <==> b[4] != 0)
            && ReadWord(b, 5).Ok? && n.nextDeleted == WordOption(ReadWord(b, 5).value)
            && ReadList(b, 9, d - 1) == Ok(n.keys) && ReadList(b, 5 + 4 * d, d) == Ok(n.children)
            && ReadPairs(b, 5 + 8 * d, d - 1) == Ok(n.values)
            && ReadWord(b, 16 * d - 3).Ok? && n.nextLeaf == WordOption(ReadWord(b, 16 * d - 3).value)
  {
    hide ReadList, ReadPairs, ReadWord, WordOption;
    WordThere(b, 5);
  }

  lemma {:induction false} ListIsRead(b: seq<Byte>, at: nat, n: nat)
    ensures at + 4 * n <= |b| ==> ReadList(b, at, n).Ok?
    ensures ReadList(b, at, n).Err? ==> ReadList(b, at, n).error == CorruptedPage
    decreases n
  {
    if n > 0 { ListIsRead(b, at + 4, n - 1); }
  }

  lemma {:induction false} PairsAreRead(b: seq<Byte>, at: nat, n: nat)
    ensures at + 8 * n <= |b| ==> ReadPairs(b, at, n).Ok?
    ensures ReadPairs(b, at, n).Err? ==> ReadPairs(b, at, n).error == CorruptedPage
    decreases n
  {
    if n > 0 { PairsAreRead(b, at + 8, n - 1); }
  }

  /** A page is read if all its bytes are there and its id is no sentinel. */
  lemma NodeIsReadExactlyWhen(b: seq<Byte>, d: int)
    requires Degree(d) && |b| != 4
    ensures NodeFrom(b, d).Ok? <==> |b| >= 16 * d + 1 && !Holds32(b, 0, -0x8000_0000)
    ensures NodeFrom(b, d).Err? ==>
              NodeFrom(b, d).error == if Holds32(b, 0, -0x8000_0000) then InvalidNodePage else CorruptedPage
  {
    hide ReadList, ReadPairs;
    ReadLies(b, 0);
    ListIsRead(b, 9, d - 1);
    ListIsRead(b, 5 + 4 * d, d);
    PairsAreRead(b, 5 + 8 * d, d - 1);
    if |b| >= 4 { OneNumber(b, 0, ReadWord(b, 0).value, -0x8000_0000); }
  }

  lemma OneNumber(b: seq<Byte>, at: nat, m: int, n: int)
    requires Holds32(b, at, m) && Is32(m) && Is32(n)
    ensures Holds32(b, at, n) <==> m == n
  {
  }

  /** No field holds the sentinel. */
  predicate NoSentinel(n: PageImage) {
    && I32_MIN !in n.keys && I32_MIN !in n.children && CleanPairs(n.values)
    && n.nextLeaf != Some(I32_MIN) && n.nextDeleted != Some(I32_MIN)
  }

  /** A live page is read back as it was written exactly when no field holds the sentinel. */
  lemma ReadAfterWriteIsExactWhen(n: PageImage, d: int)
    requires InRange(n, d) && n.id != I32_MIN && !n.deleted
    ensures NodeFrom(NodeBytes(n, d), d) == Ok(n) <==> NoSentinel(n)
  {
    ReadAfterWrite(n, d);
    CutNothing(n.keys);
    CutNothing(n.children);
    CutNoPairs(n.values);
  }
}
