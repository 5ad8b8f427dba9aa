/**
  The ring of command entries (aesd-circular-buffer.c).

  A `RingView` is the value of the C struct.  `Shows` says, in closed form,
  which value the struct holds after any sequence of additions; the class
  `Ring` is the struct itself, updated in place, and is proved against it.
 */
module CircularBuffer {
  import opened Bytes

  type uint8 = x: int | 0 <= x < 256
  type Ptr = nat

  const NULL: Ptr := 0
  const SIZE_T_LIMIT := 0x1_0000_0000_0000_0000

  /** AESDCHAR_MAX_WRITE_OPERATIONS_SUPPORTED; the proofs hold for every capacity a uint8 can index. */
  const MAX_WRITE_OPERATIONS: nat := 10

  datatype Option<+T> = None | Some(value: T)

  datatype Entry = Entry(buffptr: Ptr, size: nat)

  /** A byte inside a slot. */
  datatype Location = Location(slot: nat, offset: nat)

  const EMPTY := Entry(NULL, 0)

  // ---------------------------------------------------------------- arithmetic of slots

  /** x % n, by repeated subtraction: the slot of the x-th addition to a fresh ring. */
  function Pos(x: nat, n: nat): (r: nat)
    requires n > 0
    ensures r < n
  {
    if x < n then x else Pos(x - n, n)
  }

  /** The slot i < n places after `start`. */
  function After(start: nat, i: nat, n: nat): (r: nat)
    requires start < n && i < n
    ensures r < n
  {
    if start + i < n then start + i else start + i - n
  }

  lemma {:induction false} PosIsMod(x: nat, n: nat)
    requires n > 0
    ensures x % n == Pos(x, n)
  {
    if x < n {
      assert x / n == 0;
    } else {
      PosIsMod(x - n, n);
      assert x == (x - n) + n;
      ModPlus(x - n, n);
    }
  }

  lemma ModPlus(x: nat, n: nat)
    requires n > 0
    ensures (x + n) % n == x % n
  {
    var q, r := x / n, x % n;
    assert x == q * n + r;
    assert x + n == (q + 1) * n + r;
    DivModUnique(x + n, q + 1, r, n);
  }

  lemma MulBound(d: int, n: nat)
    ensures d >= 1 ==> d * n >= n
    ensures d <= -1 ==> d * n + n <= 0
  {
  }

  lemma DivModUnique(x: int, q: int, r: int, n: nat)
    requires 0 <= r < n && x == q * n + r
    ensures x / n == q && x % n == r
  {
    var d := q - x / n;
    MulBound(d, n);
    assert x == (x / n) * n + x % n;
    assert d * n == x % n - r;
  }

  lemma AfterIsMod(start: nat, i: nat, n: nat)
    requires start < n && i < n
    ensures (start + i) % n == After(start, i, n)
  {
    PosIsMod(start + i, n);
  }

  /** (x + 1) % n for a slot number x: one step round the ring. */
  lemma NextIsMod(x: nat, n: nat)
    requires x < n
    ensures (x + 1) % n == if x + 1 == n then 0 else x + 1
  {
    PosIsMod(x + 1, n);
  }

  lemma {:induction false} PosSucc(x: nat, n: nat)
    requires n > 0
    ensures Pos(x + 1, n) == if Pos(x, n) + 1 == n then 0 else Pos(x, n) + 1
  {
    if x >= n {
      PosSucc(x - n, n);
    }
  }

  /** Stepping back d < n places from x. */
  lemma {:induction false} PosBack(x: nat, d: nat, n: nat)
    requires d <= x && d < n
    ensures Pos(x - d, n) == if d <= Pos(x, n) then Pos(x, n) - d else Pos(x, n) - d + n
  {
    if x >= n + d {
      PosBack(x - n, d, n);
    }
  }

  // ---------------------------------------------------------------- sizes and byte offsets

  /** Bytes held by the first k entries. */
  function Sum(es: seq<Entry>, k: nat): nat
    requires k <= |es|
  {
    if k == 0 then 0 else Sum(es, k - 1) + es[k - 1].size
  }

  function Total(es: seq<Entry>): nat {
    Sum(es, |es|)
  }

  lemma {:induction false} SumMonotone(es: seq<Entry>, j: nat, k: nat)
    requires j <= k <= |es|
    ensures Sum(es, j) <= Sum(es, k)
  {
    if j < k {
      SumMonotone(es, j, k - 1);
    }
  }

  lemma {:induction false} SumAgrees(a: seq<Entry>, b: seq<Entry>, k: nat)
    requires k <= |a| && k <= |b| && a[..k] == b[..k]
    ensures Sum(a, k) == Sum(b, k)
  {
    if k > 0 {
      assert a[..k][k - 1] == b[..k][k - 1];
      assert a[..k - 1] == a[..k][..k - 1] == b[..k][..k - 1] == b[..k - 1];
      SumAgrees(a, b, k - 1);
    }
  }

  lemma {:induction false} SumAppend(a: seq<Entry>, b: seq<Entry>, k: nat)
    requires k <= |b|
    ensures Sum(a + b, |a| + k) == Total(a) + Sum(b, k)
  {
    if k == 0 {
      SumAgrees(a + b, a, |a|);
    } else {
      SumAppend(a, b, k - 1);
    }
  }

  /** The index of the entry that holds byte `off`, or |es| when there is none. */
  function Locate(es: seq<Entry>, off: nat): (k: nat)
    ensures k <= |es|
    ensures k < |es| ==> Sum(es, k) <= off < Sum(es, k + 1)
    ensures k == |es| <==> Total(es) <= off
  {
    LocateFrom(es, off, 0)
  }

  function LocateFrom(es: seq<Entry>, off: nat, from: nat): (k: nat)
    requires from <= |es| && Sum(es, from) <= off
    ensures from <= k <= |es|
    ensures k < |es| ==> Sum(es, k) <= off < Sum(es, k + 1)
    ensures k == |es| <==> Total(es) <= off
    decreases |es| - from
  {
    if from == |es| then from
    else if off < Sum(es, from + 1) then
      SumMonotone(es, from + 1, |es|);
      from
    else LocateFrom(es, off, from + 1)
  }

  /** No two entries share an offset. */
  lemma LocateAt(es: seq<Entry>, off: nat, k: nat)
    requires k < |es| && Sum(es, k) <= off < Sum(es, k + 1)
    ensures Locate(es, off) == k && off < Total(es)
  {
    var j := Locate(es, off);
    SumMonotone(es, k + 1, |es|);
    if j < k {
      SumMonotone(es, j + 1, k);
    } else if k < j {
      SumMonotone(es, k + 1, j);
    }
  }

  /** A flat offset is byte b of entry k. */
  predicate At(es: seq<Entry>, off: nat, k: nat, b: nat) {
    k < |es| && b < es[k].size && off == Sum(es, k) + b
  }

  /**
    The pairs (entry, byte in entry) and the flat offsets 0 .. Total-1 are in one-to-one
    correspondence, and `Locate` computes the inverse direction.
   */
  lemma OffsetBijection(es: seq<Entry>, off: nat)
    ensures off < Total(es) <==> exists k, b :: At(es, off, k, b)
    ensures off < Total(es) ==> var k := Locate(es, off); At(es, off, k, off - Sum(es, k))
    ensures forall k, b :: At(es, off, k, b) ==> k == Locate(es, off) && b == off - Sum(es, k)
  {
    if off < Total(es) {
      var k := Locate(es, off);
      assert At(es, off, k, off - Sum(es, k));
    }
    forall k: nat, b: nat | At(es, off, k, b)
      ensures k == Locate(es, off) && off < Total(es)
    {
      LocateAt(es, off, k);
    }
  }

  lemma {:induction false} SumOfEmpty(es: seq<Entry>, k: nat)
    requires k <= |es| && forall i :: 0 <= i < |es| ==> es[i].size == 0
    ensures Sum(es, k) == 0
  {
    if k > 0 {
      SumOfEmpty(es, k - 1);
    }
  }

  /** Trailing empty entries are invisible to the lookup. */
  lemma LocateIgnoresEmptyTail(es: seq<Entry>, tail: seq<Entry>, off: nat)
    requires forall i :: 0 <= i < |tail| ==> tail[i].size == 0
    ensures Total(es + tail) == Total(es)
    ensures off < Total(es) ==> Locate(es + tail, off) == Locate(es, off)
    ensures forall k :: 0 <= k <= |es| ==> Sum(es + tail, k) == Sum(es, k)
  {
    SumAppend(es, tail, |tail|);
    SumOfEmpty(tail, |tail|);
    forall k | 0 <= k <= |es| ensures Sum(es + tail, k) == Sum(es, k) {
      assert (es + tail)[..k] == es[..k];
      SumAgrees(es + tail, es, k);
    }
    if off < Total(es) {
      var k := Locate(es, off);
      LocateAt(es + tail, off, k);
    }
  }

  // ---------------------------------------------------------------- the ring as a value

  datatype RingView = RingView(entry: seq<Entry>, inOffs: nat, outOffs: nat, full: bool)

  predicate InRange(v: RingView) {
    && v.inOffs < |v.entry|
    && v.outOffs < |v.entry|
    && (v.full ==> v.inOffs == v.outOffs)
    && (!v.full ==> v.outOffs == 0)
  }

  /** All slots, in queue order from outOffs, dead ones included. */
  function Queue(v: RingView): (q: seq<Entry>)
    requires InRange(v)
  {
    seq(|v.entry|, i requires 0 <= i < |v.entry| => v.entry[After(v.outOffs, i, |v.entry|)])
  }

  /** What the lookup scans: nothing when the ring looks empty, every slot otherwise. */
  function Visible(v: RingView): seq<Entry>
    requires InRange(v)
  {
    if v.inOffs == v.outOffs && !v.full then [] else Queue(v)
  }

  /** The entries a reader of the ring counts as present. */
  function Live(v: RingView): seq<Entry>
    requires InRange(v)
  {
    Queue(v)[..if v.full then |v.entry| else v.inOffs - v.outOffs]
  }

  function Zeros(n: nat): (z: seq<Entry>)
    ensures |z| == n && forall i :: 0 <= i < n ==> z[i] == EMPTY
  {
    seq(n, _ => EMPTY)
  }

  /** What aesd_circular_buffer_init leaves behind. */
  function EmptyRing(n: nat): RingView {
    RingView(Zeros(n), 0, 0, false)
  }

  function NextSlot(x: nat, n: nat): nat {
    if x + 1 == n then 0 else x + 1
  }

  /** The struct after one addition. */
  function Added(v: RingView, e: Entry): (w: RingView)
    requires InRange(v)
    ensures |w.entry| == |v.entry| && InRange(w)
  {
    var n := |v.entry|;
    var out := if v.full then NextSlot(v.outOffs, n) else v.outOffs;
    var entry := v.entry[v.inOffs := e];
    var next := NextSlot(v.inOffs, n);
    RingView(entry, next, out, v.full || (next == out && entry[next].size != 0))
  }

  /** The struct after a whole history of additions to a fresh ring. */
  function RingAfter(n: nat, hist: seq<Entry>): (v: RingView)
    requires n > 0
    ensures |v.entry| == n && InRange(v)
  {
    if hist == [] then EmptyRing(n)
    else Added(RingAfter(n, hist[..|hist| - 1]), hist[|hist| - 1])
  }

  // ---------------------------------------------------------------- closed form

  /**
    The full flag is raised when the write position returns to slot 0 and finds a
    non-empty entry there, and never cleared afterwards.
   */
  ghost predicate Latched(n: nat, hist: seq<Entry>)
    requires n > 0
  {
    exists m: nat :: ReturnsToData(n, hist, m)
  }

  /** The m-th addition brings the write position back to slot 0, which is not empty. */
  predicate ReturnsToData(n: nat, hist: seq<Entry>, m: nat)
    requires n > 0
  {
    n <= m <= |hist| && Pos(m, n) == 0 && hist[m - n].size != 0
  }

  /** Addition j of the history is still in its slot. */
  predicate Kept(v: RingView, hist: seq<Entry>, j: nat)
    requires j < |hist| && |v.entry| > 0
  {
    v.entry[Pos(j, |v.entry|)] == hist[j]
  }

  predicate Unused(v: RingView, i: nat)
    requires i < |v.entry|
  {
    v.entry[i] == EMPTY
  }

  /** v is the struct after the additions `hist`. */
  ghost predicate Shows(v: RingView, hist: seq<Entry>) {
    var n, h := |v.entry|, |hist|;
    && n > 0
    && v.inOffs == Pos(h, n)
    && v.full == Latched(n, hist)
    && v.outOffs == (if v.full then Pos(h, n) else 0)
    && (forall j: nat {:trigger Kept(v, hist, j)} :: j < h && h - n <= j ==> Kept(v, hist, j))
    && (forall i: nat {:trigger Unused(v, i)} :: h <= i < n ==> Unused(v, i))
  }

  lemma LatchedStep(n: nat, hist: seq<Entry>, e: Entry)
    requires n > 0
    ensures Latched(n, hist + [e]) <==>
            Latched(n, hist) ||
            ReturnsToData(n, hist + [e], |hist| + 1)
  {
    var more := hist + [e];
    if Latched(n, hist) {
      var m: nat :| ReturnsToData(n, hist, m);
      assert ReturnsToData(n, more, m);
    }
    if Latched(n, more) {
      var m: nat :| ReturnsToData(n, more, m);
      if m <= |hist| {
        assert ReturnsToData(n, hist, m);
      }
    }
  }

  lemma AddedShows(v: RingView, hist: seq<Entry>, e: Entry)
    requires Shows(v, hist) && InRange(v)
    ensures Shows(Added(v, e), hist + [e])
    ensures InRange(Added(v, e))
  {
    var n, h := |v.entry|, |hist|;
    var w, more := Added(v, e), hist + [e];
    PosSucc(h, n);
    forall j: nat | j < h + 1 && h + 1 - n <= j
      ensures Kept(w, more, j)
    {
      if j < h {
        assert Kept(v, hist, j);
        PosBack(h, h - j, n);
      }
    }
    forall i: nat | h + 1 <= i < n
      ensures Unused(w, i)
    {
      assert Unused(v, i);
    }
    LatchedStep(n, hist, e);
    if Pos(h + 1, n) == 0 {
      WrapMeans(n, h);
      assert Kept(w, more, h + 1 - n);
    }
  }

  lemma WrapMeans(n: nat, h: nat)
    requires n > 0 && Pos(h + 1, n) == 0
    ensures n <= h + 1 && Pos(h + 1 - n, n) == 0
  {
  }

  lemma EmptyShows(n: nat)
    requires n > 0
    ensures Shows(EmptyRing(n), []) && InRange(EmptyRing(n))
  {
  }

  /** The closed form holds after every history, empty entries included. */
  lemma {:induction false} ClosedForm(n: nat, hist: seq<Entry>)
    requires n > 0
    ensures Shows(RingAfter(n, hist), hist)
  {
    if hist == [] {
      EmptyShows(n);
    } else {
      var before := hist[..|hist| - 1];
      ClosedForm(n, before);
      AddedShows(RingAfter(n, before), before, hist[|hist| - 1]);
      assert before + [hist[|hist| - 1]] == hist;
    }
  }

  // ---------------------------------------------------------------- the sliding window

  /** The histories on which the ring behaves as a window. */
  ghost predicate Windowed(n: nat, hist: seq<Entry>)
    requires n > 0
  {
    |hist| < n || Latched(n, hist)
  }

  lemma WindowSlot(h: nat, i: nat, n: nat)
    requires i < n <= h
    ensures Pos(h - n + i, n) == After(Pos(h, n), i, n)
  {
    if i > 0 {
      PosBack(h, n - i, n);
    }
  }

  lemma QueueElement(v: RingView, hist: seq<Entry>, i: nat)
    requires Shows(v, hist) && InRange(v) && i < |v.entry|
    requires Windowed(|v.entry|, hist)
    ensures var h, n := |hist|, |v.entry|;
            Queue(v)[i] == if h >= n then hist[h - n + i] else if i < h then hist[i] else EMPTY
  {
    var n, h := |v.entry|, |hist|;
    if h >= n {
      WindowSlot(h, i, n);
      assert Kept(v, hist, h - n + i);
    } else if i < h {
      assert Kept(v, hist, i);
    } else {
      assert Unused(v, i);
    }
  }

  lemma QueueWhenFull(v: RingView, hist: seq<Entry>)
    requires Shows(v, hist) && InRange(v) && Latched(|v.entry|, hist) && |hist| >= |v.entry|
    ensures Queue(v) == hist[|hist| - |v.entry|..]
  {
    var q, w := Queue(v), hist[|hist| - |v.entry|..];
    forall i | 0 <= i < |q|
      ensures q[i] == w[i]
    {
      QueueElement(v, hist, i);
    }
  }

  lemma QueueWhenNotFull(v: RingView, hist: seq<Entry>)
    requires Shows(v, hist) && InRange(v) && |hist| < |v.entry|
    ensures Queue(v) == hist + Zeros(|v.entry| - |hist|)
  {
    var q, w := Queue(v), hist + Zeros(|v.entry| - |hist|);
    forall i | 0 <= i < |q|
      ensures q[i] == w[i]
    {
      QueueElement(v, hist, i);
    }
  }

  lemma FullMeansCount(v: RingView, hist: seq<Entry>)
    requires Shows(v, hist) && InRange(v) && Windowed(|v.entry|, hist)
    ensures v.full <==> |hist| >= |v.entry|
    ensures !v.full ==> v.inOffs == |hist|
  {
    if v.full {
      var m: nat :| ReturnsToData(|v.entry|, hist, m);
    }
  }

  /** From outOffs, the slots hold the window in order, and the rest are still zero. */
  lemma QueueIsWindow(v: RingView, hist: seq<Entry>)
    requires Shows(v, hist) && InRange(v) && Windowed(|v.entry|, hist)
    ensures var w := LastN(|v.entry|, hist); Queue(v) == w + Zeros(|v.entry| - |w|) && Live(v) == w
    ensures v.full <==> |hist| >= |v.entry|
    ensures !v.full ==> v.inOffs == |hist|
  {
    FullMeansCount(v, hist);
    if v.full {
      QueueWhenFull(v, hist);
      NothingAppended(Queue(v));
      assert Zeros(0) == [];
    } else {
      QueueWhenNotFull(v, hist);
    }
  }

  /**
    Exactly when the ring is a sliding window: reading it from outOffs gives the last
    min(h, n) additions if and only if fewer than n entries were added, or some return of
    the write position to slot 0 found a non-empty entry there.
   */
  lemma SlidingWindow(n: nat, hist: seq<Entry>)
    requires n > 0
    ensures Live(RingAfter(n, hist)) == LastN(n, hist) <==> Windowed(n, hist)
  {
    ClosedForm(n, hist);
    if Windowed(n, hist) {
      QueueIsWindow(RingAfter(n, hist), hist);
    } else {
      assert |Live(RingAfter(n, hist))| < n;
    }
  }

  /** Non-empty additions always satisfy that condition; full holds from the n-th one on. */
  lemma NonEmptyIsWindowed(n: nat, hist: seq<Entry>)
    requires n > 0 && forall i :: 0 <= i < |hist| ==> hist[i].size > 0
    ensures Windowed(n, hist)
    ensures Latched(n, hist) <==> |hist| >= n
  {
    if |hist| >= n {
      assert Pos(0, n) == 0;
      assert ReturnsToData(n, hist, n);
    }
  }

  /** An empty first entry makes a ring that was filled exactly once look empty. */
  lemma EmptyEntryMisfires(n: nat, hist: seq<Entry>)
    requires n > 0 && |hist| == n && hist[0].size == 0
    ensures !RingAfter(n, hist).full && Live(RingAfter(n, hist)) == []
  {
    ClosedForm(n, hist);
    assert Pos(n, n) == 0;
  }

  lemma QueueRotates(v: RingView)
    requires InRange(v)
    ensures Queue(v) == v.entry[v.outOffs..] + v.entry[..v.outOffs]
  {
    var q := Queue(v);
    forall i | 0 <= i < |v.entry|
      ensures q[i] == (v.entry[v.outOffs..] + v.entry[..v.outOffs])[i]
    {
    }
  }

  lemma TotalRotates(es: seq<Entry>, k: nat)
    requires k <= |es|
    ensures Total(es[k..] + es[..k]) == Total(es)
  {
    assert es == es[..k] + es[k..];
    SumAppend(es[k..], es[..k], k);
    SumAppend(es[..k], es[k..], |es| - k);
  }

  /** The queue order is a rotation, so it holds as many bytes as the array. */
  lemma QueueFits(v: RingView)
    requires InRange(v)
    ensures Total(Queue(v)) == Total(v.entry)
  {
    QueueRotates(v);
    TotalRotates(v.entry, v.outOffs);
  }

  /** The sum over the raw array is the length of the window, however it is rotated. */
  lemma RawSumIsWindowSum(v: RingView, hist: seq<Entry>)
    requires Shows(v, hist) && InRange(v) && Windowed(|v.entry|, hist)
    ensures Total(v.entry) == Total(LastN(|v.entry|, hist))
  {
    var w := LastN(|v.entry|, hist);
    QueueIsWindow(v, hist);
    QueueFits(v);
    LocateIgnoresEmptyTail(w, Zeros(|v.entry| - |w|), 0);
  }

  lemma LookupInPadded(v: RingView, w: seq<Entry>, off: nat)
    requires InRange(v) && |w| <= |v.entry| && Queue(v) == w + Zeros(|v.entry| - |w|)
    requires v.inOffs == v.outOffs && !v.full ==> w == []
    ensures Total(Visible(v)) == Total(w)
    ensures off < Total(w) ==>
              var k := Locate(w, off);
              && Locate(Visible(v), off) == k
              && Sum(Visible(v), k) == Sum(w, k)
              && v.entry[After(v.outOffs, k, |v.entry|)] == w[k]
  {
    LocateIgnoresEmptyTail(w, Zeros(|v.entry| - |w|), off);
    if off < Total(w) {
      var k := Locate(w, off);
      assert Queue(v)[k] == w[k];
    }
  }

  /** The lookup, dead slots and all, finds in the struct what `Locate` finds in the window. */
  lemma LookupSeesWindow(v: RingView, hist: seq<Entry>, off: nat)
    requires Shows(v, hist) && InRange(v) && Windowed(|v.entry|, hist)
    ensures var w := LastN(|v.entry|, hist);
            && Total(Visible(v)) == Total(w)
            && (off < Total(w) ==>
                  var k := Locate(w, off);
                  && Locate(Visible(v), off) == k
                  && Sum(Visible(v), k) == Sum(w, k)
                  && v.entry[After(v.outOffs, k, |v.entry|)] == w[k])
  {
    QueueIsWindow(v, hist);
    LookupInPadded(v, LastN(|v.entry|, hist), off);
  }

  /**
    When the flag was never raised although n or more entries were added: the slots in array
    order are the entries since the last return to slot 0, and then the older ones.
   */
  lemma QueueWhenMissed(v: RingView, hist: seq<Entry>)
    requires Shows(v, hist) && InRange(v) && |hist| >= |v.entry| && !Latched(|v.entry|, hist)
    ensures var h, n := |hist|, |v.entry|;
            var p := Pos(h, n);
            Queue(v) == hist[h - p..] + hist[h - n..h - p] && Live(v) == hist[h - p..]
  {
    var h, n, q := |hist|, |v.entry|, Queue(v);
    var p := Pos(h, n);
    var w := hist[h - p..] + hist[h - n..h - p];
    forall i | 0 <= i < n
      ensures q[i] == w[i]
    {
      var d := if i < p then p - i else p + n - i;
      if d < n {
        PosBack(h, d, n);
      }
      assert Kept(v, hist, h - d);
    }
  }

  /** Such a ring shows nothing whenever the write position stands at slot 0, and the last n entries otherwise. */
  lemma VisibleWhenMissed(v: RingView, hist: seq<Entry>)
    requires Shows(v, hist) && InRange(v) && |hist| >= |v.entry| && !Latched(|v.entry|, hist)
    ensures Total(Visible(v)) == if Pos(|hist|, |v.entry|) == 0 then 0 else Total(LastN(|v.entry|, hist))
  {
    QueueWhenMissed(v, hist);
    LastRotates(hist, |v.entry|, Pos(|hist|, |v.entry|));
  }

  /**
    The lookup in such a ring is blind whenever the write position stands at slot 0, and
    otherwise finds every offset below the size of the last n entries.
   */
  lemma LookupWhenMissed(v: RingView, hist: seq<Entry>, off: nat, found: Option<Location>)
    requires Shows(v, hist) && InRange(v) && |hist| >= |v.entry| && !Latched(|v.entry|, hist)
    requires Finds(v, off, found)
    ensures found == None <==> Pos(|hist|, |v.entry|) == 0 || off >= Total(LastN(|v.entry|, hist))
  {
    VisibleWhenMissed(v, hist);
  }

  /** Rotating the last n entries does not change their size. */
  lemma LastRotates(hist: seq<Entry>, n: nat, p: nat)
    requires p <= n <= |hist|
    ensures var h := |hist|; Total(hist[h - p..] + hist[h - n..h - p]) == Total(LastN(n, hist))
  {
    var h := |hist|;
    var last := hist[h - n..];
    TotalRotates(last, n - p);
    assert last[n - p..] == hist[h - p..] && last[..n - p] == hist[h - n..h - p];
    assert LastN(n, hist) == last;
  }

  /** The pointer that adding to v gives back to the caller. */
  function Displaced(v: RingView): Ptr
    requires InRange(v)
  {
    if v.full then v.entry[v.inOffs].buffptr else NULL
  }

  /**
    First in, first out: after any history, the next addition gives back the oldest of the
    last n entries if the flag is up, and nothing otherwise.
   */
  lemma FifoDisplacement(n: nat, hist: seq<Entry>)
    requires n > 0
    ensures Displaced(RingAfter(n, hist)) ==
            if Latched(n, hist) then hist[|hist| - n].buffptr else NULL
  {
    ClosedForm(n, hist);
    DisplacedIsOldest(RingAfter(n, hist), hist);
  }

  lemma DisplacedIsOldest(v: RingView, hist: seq<Entry>)
    requires Shows(v, hist) && InRange(v)
    ensures Latched(|v.entry|, hist) ==> |hist| >= |v.entry|
    ensures Displaced(v) ==
            if Latched(|v.entry|, hist) then hist[|hist| - |v.entry|].buffptr else NULL
  {
    if v.full {
      var m: nat :| ReturnsToData(|v.entry|, hist, m);
      assert Kept(v, hist, |hist| - |v.entry|);
      OldestSlot(v, hist);
    }
  }

  /** The slot about to be overwritten holds the oldest of the last n additions. */
  lemma OldestSlot(v: RingView, hist: seq<Entry>)
    requires |v.entry| > 0 && |hist| >= |v.entry| && v.inOffs == Pos(|hist|, |v.entry|)
    requires Kept(v, hist, |hist| - |v.entry|)
    ensures v.entry[v.inOffs] == hist[|hist| - |v.entry|]
  {
    WindowSlot(|hist|, 0, |v.entry|);
  }

  lemma NoWrap(es: seq<Entry>, i: nat)
    requires i < |es| && Total(es) < SIZE_T_LIMIT
    ensures (Sum(es, i) + es[i].size) % SIZE_T_LIMIT == Sum(es, i + 1)
  {
    SumMonotone(es, i + 1, |es|);
  }

  /** The answer to a lookup of flat offset `off`: nothing past the end, else slot and byte. */
  ghost predicate Finds(v: RingView, off: nat, found: Option<Location>)
    requires InRange(v)
  {
    match found
    case None => Total(Visible(v)) <= off
    case Some(loc) =>
      && off < Total(Visible(v))
      && var k := Locate(Visible(v), off);
      && loc.slot == After(v.outOffs, k, |v.entry|)
      && loc.offset == off - Sum(Visible(v), k) < v.entry[loc.slot].size
  }

  lemma LookupHit(v: RingView, off: nat, i: nat)
    requires InRange(v) && Visible(v) == Queue(v) && i < |v.entry|
    requires Sum(Queue(v), i) <= off < Sum(Queue(v), i + 1)
    ensures Finds(v, off, Some(Location(After(v.outOffs, i, |v.entry|), off - Sum(Queue(v), i))))
  {
    var q := Queue(v);
    assert q[i] == v.entry[After(v.outOffs, i, |v.entry|)];
    LocateAt(q, off, i);
  }

  // ---------------------------------------------------------------- the struct itself

  class Ring {
    const entry: array<Entry>
    var inOffs: uint8
    var outOffs: uint8
    var full: bool
    ghost var history: seq<Entry>

    ghost predicate Valid()
      reads this, entry
    {
      && 1 <= entry.Length < 256
      && InRange(View())
      && Shows(View(), history)
    }

    ghost function View(): RingView
      reads this, entry
    {
      RingView(entry[..], inOffs, outOffs, full)
    }

    /** aesd_circular_buffer_init */
    constructor (capacity: nat)
      requires 1 <= capacity < 256
      ensures Valid() && fresh(entry)
      ensures entry.Length == capacity && history == []
      ensures View() == EmptyRing(capacity)
    {
      entry := new Entry[capacity](_ => EMPTY);
      inOffs, outOffs, full := 0, 0, false;
      history := [];
      new;
      assert entry[..] == EmptyRing(capacity).entry;
      EmptyShows(capacity);
    }

    /** aesd_circular_buffer_add_entry */
    method AddEntry(e: Entry) returns (overwritten: Ptr)
      requires Valid()
      modifies this, entry
      ensures Valid()
      ensures history == old(history) + [e]
      ensures overwritten ==
              if Latched(entry.Length, old(history))
              then old(history)[|old(history)| - entry.Length].buffptr else NULL
    {
      ghost var before := View();
      overwritten := NULL;
      NextIsMod(inOffs, entry.Length);
      NextIsMod(outOffs, entry.Length);
      DisplacedIsOldest(before, history);
      if full {
        overwritten := entry[inOffs].buffptr;
        outOffs := (outOffs + 1) % entry.Length;
      }
      entry[inOffs] := e;
      inOffs := (inOffs + 1) % entry.Length;
      if inOffs == outOffs && entry[inOffs].size != 0 {
        full := true;
      }
      AddedShows(before, history, e);
      assert View() == Added(before, e);
      history := history + [e];
    }

    /**
      aesd_circular_buffer_find_entry_offset_for_fpos; the result names the slot whose
      address the source returns and the byte within it.
     */
    method FindEntryOffsetForFpos(charOffset: nat) returns (found: Option<Location>)
      requires 1 <= entry.Length < 256 && InRange(View())
      requires Total(entry[..]) < SIZE_T_LIMIT
      ensures Finds(View(), charOffset, found)
    {
      var cumulativeSize := 0;
      if inOffs == outOffs && !full {
        return None;
      }
      ghost var v, q := View(), Queue(View());
      QueueFits(v);
      for i := 0 to entry.Length
        invariant View() == v && cumulativeSize == Sum(q, i) <= charOffset
      {
        AfterIsMod(outOffs, i, entry.Length);
        var index := (outOffs + i) % entry.Length;
        var size := entry[index].size;
        assert index == After(v.outOffs, i, |v.entry|) && size == q[i].size;
        NoWrap(q, i);
        cumulativeSize := (cumulativeSize + size) % SIZE_T_LIMIT;
        assert cumulativeSize == Sum(q, i + 1);
        if cumulativeSize > charOffset {
          LookupHit(v, charOffset, i);
          return Some(Location(index, charOffset - (cumulativeSize - size)));
        }
      }
      return None;
    }
  }
}
