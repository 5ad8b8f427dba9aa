/** main.c as it runs: the device object, its files and the kernel allocator, updated in place. */
module Driver {
  import opened Bytes
  import opened CircularBuffer
  import opened Lines
  import opened DeviceSpec
  import opened DeviceWrites
  import opened DeviceReads

  /** struct file, as far as the driver looks at it. */
  class File {
    var fPos: int

    constructor ()
      ensures fPos == 0
    {
      fPos := 0;
    }
  }

  /**
    The kernel allocator.  `choice` is the address it comes up with, NULL for failure; the
    contents of new memory are arbitrary.  Freeing or touching a block that is not
    allocated violates a precondition.
   */
  class Heap {
    var blocks: map<Ptr, seq<byte>>

    constructor ()
      ensures blocks == map[]
    {
      blocks := map[];
    }

    method Kmalloc(choice: Ptr, size: nat) returns (p: Ptr)
      requires choice != NULL ==> choice !in blocks
      modifies this
      ensures p == choice
      ensures p == NULL ==> blocks == old(blocks)
      ensures p != NULL ==> p in blocks && |blocks[p]| == size && blocks == old(blocks)[p := blocks[p]]
    {
      p := choice;
      if p != NULL {
        var zeros: seq<byte> := seq(size, _ => 0);
        assert |zeros| == size;
        var fill: seq<byte> :| |fill| == size;
        blocks := blocks[p := fill];
      }
    }

    /** Growing a block, in place or by moving it; the bytes beyond the old ones come from junk. */
    method Krealloc(p: Ptr, size: nat, choice: Ptr, junk: seq<byte>) returns (q: Ptr)
      requires p != NULL ==> p in blocks && |blocks[p]| <= size
      requires p == NULL ==> p !in blocks
      requires choice != NULL && choice != p ==> choice !in blocks
      requires |junk| == size
      modifies this
      ensures q == choice
      ensures q == NULL ==> blocks == old(blocks)
      ensures q != NULL ==>
                var kept := if p == NULL then [] else old(blocks)[p];
                blocks == (old(blocks) - {p})[q := kept + junk[|kept|..]]
    {
      q := choice;
      if q != NULL {
        var kept := if p == NULL then [] else blocks[p];
        blocks := (blocks - {p})[q := kept + junk[|kept|..]];
      }
    }

    method Kfree(p: Ptr)
      requires p != NULL ==> p in blocks
      requires NULL !in blocks
      modifies this
      ensures blocks == old(blocks) - {p}
    {
      blocks := blocks - {p};
    }

    method Memcpy(dst: Ptr, at: nat, src: seq<byte>)
      requires dst in blocks && at + |src| <= |blocks[dst]|
      modifies this
      ensures blocks == old(blocks)[dst := old(blocks)[dst][..at] + src + old(blocks)[dst][at + |src|..]]
    {
      blocks := blocks[dst := blocks[dst][..at] + src + blocks[dst][at + |src|..]];
    }
  }

  // ---------------------------------------------------------------- from the model to the ring

  lemma EntriesAppend(bs: seq<Block>, b: Block)
    ensures Entries(bs + [b]) == Entries(bs) + [EntryOf(b)]
  {
  }

  lemma EntriesOfWindow(n: nat, m: Model)
    ensures LastN(n, Entries(m.commits)) == Entries(Window(n, m))
  {
  }

  /** Committed commands are never empty, so the full flag does what it should. */
  lemma CommitsAreWindowed(n: nat, m: Model)
    requires Inv(n, m)
    ensures Windowed(n, Entries(m.commits))
    ensures Latched(n, Entries(m.commits)) <==> |m.commits| >= n
  {
    forall i | 0 <= i < |m.commits|
      ensures Entries(m.commits)[i].size > 0
    {
      assert IsCommand(m.commits[i]);
    }
    NonEmptyIsWindowed(n, Entries(m.commits));
  }

  /** The struct v holds the window of the model m. */
  ghost predicate Holds(v: RingView, m: Model) {
    && InRange(v)
    && Inv(|v.entry|, m)
    && Shows(v, Entries(m.commits))
  }

  lemma HoldsQueue(v: RingView, m: Model)
    requires Holds(v, m)
    ensures var w := Window(|v.entry|, m);
            && Queue(v) == Entries(w) + Zeros(|v.entry| - |w|)
            && (v.full <==> |m.commits| >= |v.entry|)
            && (!v.full ==> v.inOffs == |w| && v.outOffs == 0)
            && (v.full ==> |w| == |v.entry|)
    ensures v.outOffs == if v.full then Pos(|m.commits|, |v.entry|) else 0
  {
    CommitsAreWindowed(|v.entry|, m);
    EntriesOfWindow(|v.entry|, m);
    QueueIsWindow(v, Entries(m.commits));
  }

  lemma HoldsTotal(v: RingView, m: Model)
    requires Holds(v, m)
    ensures Total(v.entry) == |Contents(|v.entry|, m)| < LOFF_LIMIT
  {
    CommitsAreWindowed(|v.entry|, m);
    EntriesOfWindow(|v.entry|, m);
    RawSumIsWindowSum(v, Entries(m.commits));
    EntriesMeasureContents(Window(|v.entry|, m));
  }

  /** What the lookup answers on a ring that holds the model. */
  lemma HoldsFinds(v: RingView, m: Model, off: nat, found: Option<Location>)
    requires Holds(v, m) && Finds(v, off, found)
    ensures var w := Window(|v.entry|, m);
            match found
            case None => |Contents(|v.entry|, m)| <= off
            case Some(loc) =>
              && off < |Contents(|v.entry|, m)|
              && var k := Locate(Entries(w), off);
              && k < |w| && loc.slot < |v.entry| && v.entry[loc.slot] == EntryOf(w[k])
              && loc.offset == off - Sum(Entries(w), k) < |w[k].data|
              && Sum(Entries(w), k + 1) == Sum(Entries(w), k) + |w[k].data|
  {
    CommitsAreWindowed(|v.entry|, m);
    EntriesOfWindow(|v.entry|, m);
    LookupSeesWindow(v, Entries(m.commits), off);
    EntriesMeasureContents(Window(|v.entry|, m));
  }

  /** The slot a lookup found is backed by an allocated buffer of its size. */
  lemma HoldsSlot(v: RingView, m: Model, pos: nat, loc: Location)
    requires Holds(v, m) && Finds(v, pos, Some(loc))
    ensures pos < |Contents(|v.entry|, m)| && loc.slot < |v.entry|
    ensures var e := v.entry[loc.slot];
            e.buffptr in m.heap && loc.offset < |m.heap[e.buffptr]| == e.size
  {
    HoldsFinds(v, m, pos, Some(loc));
    var w := Window(|v.entry|, m);
    assert Backed(m, w[Locate(Entries(w), pos)]);
  }

  /** Lookup is sound and complete: no answer past the end, else the byte that the flat offset names. */
  lemma LookupFindsTheByte(v: RingView, m: Model, off: nat, found: Option<Location>)
    requires Holds(v, m) && Finds(v, off, found)
    ensures found == None <==> |Contents(|v.entry|, m)| <= off
    ensures found.Some? ==>
              var e := v.entry[found.value.slot];
              && found.value.slot < |v.entry|
              && e.buffptr in m.heap && found.value.offset < |m.heap[e.buffptr]|
              && m.heap[e.buffptr][found.value.offset] == Contents(|v.entry|, m)[off]
  {
    HoldsFinds(v, m, off, found);
    if found.Some? {
      HoldsSlot(v, m, off, found.value);
      var w := Window(|v.entry|, m);
      var k := Locate(Entries(w), off);
      assert Backed(m, w[k]);
      ByteOfBlock(w, k, found.value.offset, off);
    }
  }

  /** The lookup on the struct is the lookup in the window. */
  lemma HoldsLookup(v: RingView, m: Model, off: nat)
    requires Holds(v, m) && off < |Contents(|v.entry|, m)|
    ensures var es := Entries(Window(|v.entry|, m));
            var k := Locate(es, off);
            && off < Total(Visible(v)) && Locate(Visible(v), off) == k && Sum(Visible(v), k) == Sum(es, k)
  {
    CommitsAreWindowed(|v.entry|, m);
    EntriesOfWindow(|v.entry|, m);
    EntriesMeasureContents(Window(|v.entry|, m));
    LookupSeesWindow(v, Entries(m.commits), off);
  }

  /** A command seek and the lookup agree on the slot: command k sits k places after outOffs, and off is the byte. */
  lemma SeekFindsSlot(v: RingView, m: Model, k: nat, off: nat, p: nat, found: Option<Location>)
    requires Holds(v, m) && k < |Window(|v.entry|, m)| && off < |Window(|v.entry|, m)[k].data|
    requires CommandTarget(|v.entry|, m, k, off) == Some(p) && Finds(v, p, found)
    ensures found == Some(Location((v.outOffs + k) % |v.entry|, off))
  {
    HoldsTotal(v, m);
    SeekLookupInverse(|v.entry|, m, k, off, p);
    HoldsLookup(v, m, p);
    AfterIsMod(v.outOffs, k, |v.entry|);
  }

  lemma ByteOfBlock(bs: seq<Block>, k: nat, b: nat, off: nat)
    requires k < |bs| && b < |bs[k].data| && off == Sum(Entries(bs), k) + b
    ensures off < |Concat(Datas(bs))| && Concat(Datas(bs))[off] == bs[k].data[b]
  {
    ContentsOfBlock(bs, k, b, b + 1);
    assert Concat(Datas(bs))[off..off + 1][0] == bs[k].data[b..b + 1][0];
  }

  /** No subtraction underflows and no sum wraps in a ring that holds a model. */
  lemma ArithmeticIsSafe(v: RingView, m: Model, k: nat, off: nat, found: Option<Location>)
    requires Holds(v, m) && k <= |v.entry| && Finds(v, off, found)
    ensures v.inOffs < |v.entry| && v.outOffs < |v.entry|
    ensures !v.full ==> 0 <= v.inOffs - v.outOffs == |Window(|v.entry|, m)| < |v.entry|
    ensures Sum(v.entry, k) < LOFF_LIMIT && Sum(Queue(v), k) < LOFF_LIMIT
    ensures found.Some? ==>
              found.value.slot < |v.entry| &&
              1 <= v.entry[found.value.slot].size - found.value.offset <= v.entry[found.value.slot].size
  {
    HoldsTotal(v, m);
    HoldsQueue(v, m);
    QueueFits(v);
    SumMonotone(v.entry, k, |v.entry|);
    SumMonotone(Queue(v), k, |v.entry|);
    if found.Some? {
      HoldsSlot(v, m, off, found.value);
    }
  }

  lemma ReadOfBlock(n: nat, m: Model, k: nat, b: nat, pos: nat, count: nat, data: seq<byte>)
    requires count > 0 && k < |Window(n, m)| && b < |Window(n, m)[k].data|
    requires pos == Sum(Entries(Window(n, m)), k) + b
    requires |data| == if |Window(n, m)[k].data| - b > count then count else |Window(n, m)[k].data| - b
    requires data == Window(n, m)[k].data[b..b + |data|]
    ensures ReadResult(n, m, pos, count, false, false) == ReadOutcome(|data|, data, pos + |data|)
  {
    assert Entries(Window(n, m))[k].size == |Window(n, m)[k].data|;
    ReadStopsAtEntry(n, m, k, pos, count);
    ReadIsStream(n, m, pos, count, false, false);
  }

  /** The bytes a read copies out of that buffer are the ones the model prescribes. */
  lemma HoldsRead(v: RingView, m: Model, pos: nat, count: nat, loc: Location, e: Entry, data: seq<byte>)
    requires Holds(v, m) && Finds(v, pos, Some(loc)) && count > 0
    requires loc.slot < |v.entry| && e == v.entry[loc.slot] && loc.offset <= e.size && e.buffptr in m.heap
    requires |data| == if e.size - loc.offset > count then count else e.size - loc.offset
    requires loc.offset + |data| <= |m.heap[e.buffptr]|
    requires data == m.heap[e.buffptr][loc.offset..loc.offset + |data|]
    ensures ReadResult(|v.entry|, m, pos, count, false, false) == ReadOutcome(|data|, data, pos + |data|)
  {
    HoldsFinds(v, m, pos, Some(loc));
    var w := Window(|v.entry|, m);
    var k := Locate(Entries(w), pos);
    assert Backed(m, w[k]);
    ReadOfBlock(|v.entry|, m, k, loc.offset, pos, count, data);
  }

  predicate HasNewlineLast(s: seq<byte>) {
    |s| > 0 && s[|s| - 1] == NEWLINE
  }

  /** What the ring gives back when the pending command is added is the model's oldest buffer. */
  lemma CommitDisplaces(n: nat, m: Model)
    requires Inv(n, m)
    ensures var es := Entries(m.commits);
            Oldest(n, m) == if Latched(n, es) then es[|es| - n].buffptr else NULL
    ensures Oldest(n, m) != NULL ==> Oldest(n, m) in m.heap
  {
    CommitsAreWindowed(n, m);
    if |m.commits| >= n {
      OldestIsWindowHead(n, m);
      assert Backed(m, Window(n, m)[0]);
    }
  }

  lemma MoveAside<K, V>(b: map<K, V>, p: K, q: K, k: K, x: V, y: V)
    requires k != p && k != q
    ensures (b - {p})[q := x][q := y] - {k} == (b - {k} - {p})[q := y]
  {
  }

  lemma PutAside<K, V>(b: map<K, V>, k: K, x: V, y: V)
    requires k !in b
    ensures b[k := x] - {k} == b && b[k := x][k := y] - {k} == b
  {
  }

  lemma Overwritten(before: seq<byte>, src: seq<byte>)
    requires |before| == |src|
    ensures before[..0] + src + before[0 + |src|..] == src
  {
  }

  lemma FreeAside<K, V>(b: map<K, V>, p: K, k: K)
    ensures b - {p} - {k} == b - {k} - {p}
  {
  }

  lemma HoldsSame(v: RingView, m: Model, m': Model)
    requires Holds(v, m) && Inv(|v.entry|, m') && m'.commits == m.commits
    ensures Holds(v, m')
  {
  }

  lemma HoldsGrown(v: RingView, m: Model, buf: seq<byte>, env: WriteEnv)
    requires Holds(v, m) && EnvOk(|v.entry|, m, buf, env) && buf != [] && env.kbuf != NULL
    ensures env.grown == NULL ==> Holds(v, Dropped(m))
    ensures env.grown != NULL ==>
              var g := Grown(m, buf[..ChunkLength(buf)], env);
              && Holds(v, g) && g.cur.buffptr != NULL
              && (HasNewline(buf) ==> HasNewlineLast(Pending(g)))
  {
    if env.grown == NULL {
      DroppedKeeps(|v.entry|, m);
    } else {
      GrownKeeps(|v.entry|, m, buf, env);
      if HasNewline(buf) {
        GrownEndsInNewline(m, buf, env);
      }
    }
  }

  lemma HoldsNewEntry(v: RingView, m: Model, v': RingView)
    requires Holds(v, m) && m.cur.buffptr != NULL && m.cur.size == |Pending(m)|
    requires InRange(v') && |v'.entry| == |v.entry| && Shows(v', Entries(m.commits) + [m.cur])
    requires HasNewlineLast(Pending(m))
    ensures Holds(v', Committed(|v.entry|, m))
    ensures Entries(Committed(|v.entry|, m).commits) == Entries(m.commits) + [m.cur]
  {
    CommittedKeeps(|v.entry|, m);
    EntriesAppend(m.commits, Block(m.cur.buffptr, Pending(m)));
  }

  /** The slot the command seek indexes in a ring whose queue is a window w and then empty slots. */
  lemma SlotInTurn(v: RingView, w: seq<Entry>, i: nat)
    requires InRange(v) && 0 < |w| <= |v.entry| && Queue(v) == w + Zeros(|v.entry| - |w|)
    requires if v.full then |w| == |v.entry| else v.outOffs == 0 && i < |w|
    ensures v.entry[Pos(v.outOffs + i, |v.entry|)] == w[Pos(i, |w|)]
  {
    PosShift(v.outOffs, i, |v.entry|);
    assert Queue(v)[Pos(i, |v.entry|)] == w[Pos(i, |w|)];
  }

  /** One more size added by the command seek, read out of the slot the source indexes. */
  lemma HoldsSlotOfCommand(v: RingView, m: Model, i: nat)
    requires Holds(v, m) && |Window(|v.entry|, m)| > 0
    requires v.full || i < |Window(|v.entry|, m)|
    ensures var w := Window(|v.entry|, m);
            v.entry[Pos(v.outOffs + i, |v.entry|)] == Entries(w)[Pos(i, |w|)]
  {
    HoldsQueue(v, m);
    SlotInTurn(v, Entries(Window(|v.entry|, m)), i);
  }

  lemma {:induction false} PosShift(start: nat, i: nat, n: nat)
    requires start < n
    ensures Pos(start + i, n) == After(start, Pos(i, n), n)
  {
    if i >= n {
      PosShift(start, i - n, n);
    }
  }

  /** Adding sizes one at a time in 64-bit arithmetic is adding them exactly and converting once. */
  lemma ToLoffAdd(a: int, b: int)
    ensures ToLoff(ToLoff(a) + b) == ToLoff(a + b)
  {
    SignedAdd(a, b, LOFF_LIMIT);
  }

  /** The target of a command seek from the parts the source computes. */
  lemma TargetFromParts(n: nat, m: Model, k: nat, off: nat, start: int, size: nat)
    requires n > 0 && |Window(n, m)| > 0 && (|m.commits| >= n || k < |Window(n, m)|)
    requires start == ToLoff(CommandStart(Entries(Window(n, m)), k))
    requires size == |Window(n, m)[Pos(k, |Window(n, m)|)].data|
    ensures CommandTarget(n, m, k, off) == if off > size then None else Some(ToLoff(start + off))
  {
    ToLoffAdd(CommandStart(Entries(Window(n, m)), k), off);
  }

  lemma LockKeepsInv(n: nat, m: Model)
    requires Inv(n, m)
    ensures Inv(n, m.(locked := true))
  {
    var l := m.(locked := true);
    forall i | 0 <= i < |Window(n, m)|
      ensures Backed(l, Window(n, l)[i])
    {
      assert Backed(m, Window(n, m)[i]);
    }
  }

  // ---------------------------------------------------------------- the slots at clean-up

  /** The buffers the first slots point to. */
  function SlotPtrs(es: seq<Entry>): set<Ptr> {
    set i | 0 <= i < |es| && es[i].buffptr != NULL :: es[i].buffptr
  }

  /** Where slot s comes in queue order. */
  function Turn(start: nat, s: nat, n: nat): (i: nat)
    requires start < n && s < n
    ensures i < n && After(start, i, n) == s
  {
    if s >= start then s - start else s - start + n
  }

  /** A slot in use holds the window element at its turn; the others hold NULL. */
  lemma HoldsTurn(v: RingView, m: Model, s: nat)
    requires Holds(v, m) && s < |v.entry|
    ensures var w := Window(|v.entry|, m);
            var i := Turn(v.outOffs, s, |v.entry|);
            if i < |w|
            then v.entry[s] == EntryOf(w[i]) && w[i].ptr in m.heap && w[i].ptr != NULL
            else v.entry[s] == EMPTY
  {
    HoldsQueue(v, m);
    var w := Window(|v.entry|, m);
    var i := Turn(v.outOffs, s, |v.entry|);
    assert Queue(v)[i] == v.entry[s];
    if i < |w| {
      assert Backed(m, w[i]);
    }
  }

  lemma HoldsSlotPtrs(v: RingView, m: Model)
    requires Holds(v, m)
    ensures SlotPtrs(v.entry) == PtrSet(Window(|v.entry|, m))
  {
    var n, w := |v.entry|, Window(|v.entry|, m);
    forall p | p in SlotPtrs(v.entry)
      ensures p in PtrSet(w)
    {
      var s :| 0 <= s < n && v.entry[s].buffptr != NULL && v.entry[s].buffptr == p;
      HoldsTurn(v, m, s);
    }
    forall p | p in PtrSet(w)
      ensures p in SlotPtrs(v.entry)
    {
      var i :| 0 <= i < |w| && w[i].ptr == p;
      HoldsTurn(v, m, After(v.outOffs, i, n));
    }
  }

  /** Freeing the slots one by one never frees a block twice. */
  lemma HoldsNotYetFreed(v: RingView, m: Model, k: nat)
    requires Holds(v, m) && k < |v.entry| && v.entry[k].buffptr != NULL
    ensures v.entry[k].buffptr in m.heap
    ensures v.entry[k].buffptr !in SlotPtrs(v.entry[..k])
  {
    HoldsTurn(v, m, k);
    forall s | 0 <= s < k
      ensures v.entry[..k][s].buffptr != v.entry[k].buffptr
    {
      HoldsTurn(v, m, s);
    }
  }

  lemma SlotPtrsStep(es: seq<Entry>, k: nat)
    requires k < |es|
    ensures SlotPtrs(es[..k + 1]) == SlotPtrs(es[..k]) + (if es[k].buffptr == NULL then {} else {es[k].buffptr})
  {
    var more, less := es[..k + 1], es[..k];
    assert forall i :: 0 <= i < k ==> more[i] == less[i];
    assert more[k] == es[k];
  }

  // ---------------------------------------------------------------- the device

  class AesdDevice {
    const cBuffer: Ring
    const heap: Heap
    var currentEntry: Entry
    var locked: bool
    ghost var commits: seq<Block>
    ghost var freed: seq<Ptr>

    ghost function Capacity(): nat {
      cBuffer.entry.Length
    }

    /** The model in the middle of a call, not counting the scratch block and the lock it holds. */
    ghost function StateBut(scratch: Ptr): Model
      reads this, heap
    {
      Model(commits, currentEntry, heap.blocks - {scratch}, freed, false)
    }

    ghost function State(): Model
      reads this, heap
    {
      Model(commits, currentEntry, heap.blocks, freed, locked)
    }

    ghost predicate RingHolds(m: Model)
      reads cBuffer, cBuffer.entry
    {
      && 1 <= cBuffer.entry.Length < 256
      && cBuffer.history == Entries(m.commits)
      && Holds(cBuffer.View(), m)
    }

    ghost predicate Valid()
      reads this, heap, cBuffer, cBuffer.entry
    {
      RingHolds(State())
    }

    /** aesd_init_module, as far as the buffer is concerned. */
    constructor (capacity: nat)
      requires 1 <= capacity < 256
      ensures Valid() && Capacity() == capacity && State() == FRESH
      ensures fresh(cBuffer) && fresh(cBuffer.entry) && fresh(heap)
    {
      cBuffer := new Ring(capacity);
      heap := new Heap();
      currentEntry, locked := EMPTY, false;
      commits, freed := [], [];
      new;
      assert Entries([]) == [];
    }

    // -------------------------------------------------------------- aesd_read

    method Read(filp: File, count: nat, interrupted: bool, copyFails: bool)
      returns (retval: int, data: seq<byte>)
      requires Valid()
      requires TakesLockToRead(filp.fPos, count) && !interrupted ==> !locked
      modifies filp, this`locked
      ensures State() == old(State())
      ensures ReadOutcome(retval, data, filp.fPos)
           == ReadResult(Capacity(), State(), old(filp.fPos), count, interrupted, copyFails)
    {
      data := [];
      if filp.fPos < 0 || count == 0 {
        return -EINVAL, [];
      }
      if interrupted {
        return -ERESTARTSYS, [];
      }
      ghost var v, m, pos := cBuffer.View(), State(), filp.fPos;
      locked := true;
      HoldsTotal(v, m);
      var found := cBuffer.FindEntryOffsetForFpos(filp.fPos);
      if found == None {
        HoldsFinds(v, m, pos, found);
        locked := false;
        return 0, [];
      }
      HoldsSlot(v, m, pos, found.value);
      var entry, entryOffset := cBuffer.entry[found.value.slot], found.value.offset;
      var bytesToCopy := entry.size - entryOffset;
      if bytesToCopy > count {
        bytesToCopy := count;
      }
      if copyFails {
        locked := false;
        return -EFAULT, [];
      }
      data := heap.blocks[entry.buffptr][entryOffset..entryOffset + bytesToCopy];
      HoldsRead(v, m, pos, count, found.value, entry, data);
      assert ReadResult(Capacity(), m, pos, count, interrupted, copyFails)
          == ReadOutcome(|data|, data, pos + |data|);
      filp.fPos := filp.fPos + bytesToCopy;
      retval := bytesToCopy;
      locked := false;
      assert State() == m;
    }

    // -------------------------------------------------------------- aesd_write

    /** krealloc the pending command and copy the first c bytes of kbuf behind it. */
    method AppendChunk(kbuf: Ptr, c: nat, env: WriteEnv, ghost buf: seq<byte>) returns (ok: bool)
      requires kbuf != NULL && kbuf in heap.blocks && heap.blocks[kbuf] == buf && buf != []
      requires RingHolds(StateBut(kbuf)) && EnvOk(Capacity(), StateBut(kbuf), buf, env)
      requires env.kbuf == kbuf && c == ChunkLength(buf)
      modifies this`currentEntry, heap
      ensures ok == (env.grown != NULL)
      ensures kbuf in heap.blocks && heap.blocks[kbuf] == buf
      ensures StateBut(kbuf) ==
              if ok then Grown(old(StateBut(kbuf)), buf[..c], env) else Dropped(old(StateBut(kbuf)))
    {
      ghost var m := StateBut(kbuf);
      var q := heap.Krealloc(currentEntry.buffptr, currentEntry.size + c, env.grown, env.junk);
      currentEntry := Entry(q, currentEntry.size);
      if q == NULL {
        return false;
      }
      ghost var kept := if m.cur.buffptr == NULL then env.junk[..m.cur.size] else m.heap[m.cur.buffptr];
      ghost var grown := heap.blocks[q];
      assert grown[..m.cur.size] == kept && |grown| == m.cur.size + c;
      heap.Memcpy(q, currentEntry.size, heap.blocks[kbuf][..c]);
      currentEntry := Entry(q, currentEntry.size + c);
      assert heap.blocks[q] == kept + buf[..c];
      MoveAside(old(heap.blocks), m.cur.buffptr, q, kbuf, grown, kept + buf[..c]);
      return true;
    }

    /** Push the pending command to the ring and free what it displaced. */
    method CommitEntry(ghost scratch: Ptr)
      requires scratch != NULL && scratch in heap.blocks
      requires RingHolds(StateBut(scratch))
      requires currentEntry.buffptr != NULL && HasNewlineLast(Pending(StateBut(scratch)))
      modifies this`currentEntry, this`commits, this`freed, heap, cBuffer, cBuffer.entry
      ensures RingHolds(StateBut(scratch))
      ensures StateBut(scratch) == Committed(Capacity(), old(StateBut(scratch)))
      ensures scratch in heap.blocks && heap.blocks[scratch] == old(heap.blocks[scratch])
    {
      ghost var m, v := StateBut(scratch), cBuffer.View();
      CommitDisplaces(Capacity(), m);
      var overwritten := cBuffer.AddEntry(currentEntry);
      assert overwritten == Oldest(Capacity(), m);
      FreeAside(heap.blocks, overwritten, scratch);
      if overwritten != NULL {
        heap.Kfree(overwritten);
        freed := freed + [overwritten];
      }
      assert heap.blocks == old(heap.blocks) - {overwritten};
      commits := commits + [Block(currentEntry.buffptr, Pending(m))];
      currentEntry := EMPTY;
      assert StateBut(scratch) == Committed(Capacity(), m);
      HoldsNewEntry(v, m, cBuffer.View());
    }

    /** Start the next command with the bytes of kbuf behind the newline. */
    method StartNext(kbuf: Ptr, from: nat, p: Ptr, ghost buf: seq<byte>) returns (ok: bool)
      requires kbuf != NULL && kbuf in heap.blocks && heap.blocks[kbuf] == buf && from < |buf|
      requires p != NULL ==> p !in heap.blocks
      modifies this`currentEntry, heap
      ensures ok == (p != NULL)
      ensures kbuf in heap.blocks && heap.blocks[kbuf] == buf
      ensures StateBut(kbuf) ==
              if ok then Started(old(StateBut(kbuf)), p, buf[from..]) else old(StateBut(kbuf))
    {
      ghost var m := StateBut(kbuf);
      var rest := heap.Kmalloc(p, |heap.blocks[kbuf]| - from);
      if rest == NULL {
        return false;
      }
      heap.Memcpy(rest, 0, heap.blocks[kbuf][from..]);
      assert heap.blocks[rest] == buf[from..];
      currentEntry := Entry(rest, |heap.blocks[kbuf]| - from);
      assert heap.blocks - {kbuf} == m.heap[rest := buf[from..]];
      return true;
    }

    /** Push the command whose newline has arrived and keep the bytes behind it for the next one. */
    method CompleteCommand(kbuf: Ptr, c: nat, env: WriteEnv, ghost buf: seq<byte>) returns (retval: int)
      requires kbuf != NULL && kbuf in heap.blocks && heap.blocks[kbuf] == buf && c <= |buf|
      requires RingHolds(StateBut(kbuf))
      requires currentEntry.buffptr != NULL && HasNewlineLast(Pending(StateBut(kbuf)))
      requires env.rest != NULL ==> env.rest != kbuf && env.rest !in Committed(Capacity(), StateBut(kbuf)).heap
      modifies this`currentEntry, this`commits, this`freed, heap, cBuffer, cBuffer.entry
      ensures kbuf in heap.blocks
      ensures Holds(cBuffer.View(), Committed(Capacity(), old(StateBut(kbuf))))
      ensures cBuffer.history == Entries(commits)
      ensures var done := Committed(Capacity(), old(StateBut(kbuf)));
              if c == |buf| || env.rest == NULL
              then retval == c && StateBut(kbuf) == done
              else retval == |buf| && StateBut(kbuf) == Started(done, env.rest, buf[c..])
    {
      CommitEntry(kbuf);
      retval := c;
      var nextCmdBytes := |heap.blocks[kbuf]| - c;
      if nextCmdBytes > 0 {
        var ok := StartNext(kbuf, c, env.rest, buf);
        if ok {
          retval := |heap.blocks[kbuf]|;
        }
      }
    }

    /** The part of aesd_write that runs once the data has been copied to kbuf. */
    method Assemble(kbuf: Ptr, ghost pos: int, ghost buf: seq<byte>, env: WriteEnv) returns (retval: int)
      requires kbuf != NULL && kbuf in heap.blocks && heap.blocks[kbuf] == buf && env.kbuf == kbuf
      requires RingHolds(StateBut(kbuf)) && EnvOk(Capacity(), StateBut(kbuf), buf, env)
      requires ReachesKrealloc(pos, buf, env)
      modifies this`currentEntry, this`commits, this`freed, heap, cBuffer, cBuffer.entry
      ensures cBuffer.Valid() && cBuffer.history == Entries(commits) && kbuf in heap.blocks
      ensures Result(StateBut(kbuf), retval) == WriteResult(Capacity(), old(StateBut(kbuf)), pos, buf, env)
    {
      ghost var n, m, v := Capacity(), StateBut(kbuf), cBuffer.View();
      ghost var expected := WriteResult(n, m, pos, buf, env);
      var count := |heap.blocks[kbuf]|;
      var newline := FirstNewline(heap.blocks[kbuf]);
      var currentCmdBytes := if newline < count then newline + 1 else count;
      var ok := AppendChunk(kbuf, currentCmdBytes, env, buf);
      HoldsGrown(v, m, buf, env);
      ghost var grown := StateBut(kbuf);
      if !ok {
        assert expected == Result(grown, -ENOMEM);
        return -ENOMEM;
      }
      if newline == count {
        assert expected == Result(grown, currentCmdBytes);
        return currentCmdBytes;
      }
      retval := CompleteCommand(kbuf, currentCmdBytes, env, buf);
      assert Result(StateBut(kbuf), retval) == expected;
    }

    method Write(filp: File, buf: seq<byte>, env: WriteEnv) returns (retval: int)
      requires Valid() && EnvOk(Capacity(), State(), buf, env)
      requires TakesLockToWrite(filp.fPos, buf) && !env.interrupted ==> !locked
      modifies this, heap, cBuffer, cBuffer.entry
      ensures Valid()
      ensures Result(State(), retval) == WriteResult(Capacity(), old(State()), filp.fPos, buf, env)
    {
      if filp.fPos < 0 || |buf| == 0 {
        return -EINVAL;
      }
      if env.interrupted {
        return -ERESTARTSYS;
      }
      ghost var n, m, v := Capacity(), State(), cBuffer.View();
      WriteKeepsInv(n, m, filp.fPos, buf, env);
      locked := true;
      var kbuf := heap.Kmalloc(env.kbuf, |buf|);
      if kbuf == NULL {
        locked := false;
        return -ENOMEM;
      }
      ghost var raw := heap.blocks[kbuf];
      PutAside(m.heap, kbuf, raw, buf);
      if env.copyFails {
        heap.Kfree(kbuf);
        assert State() == m.(locked := true);
        HoldsSame(v, m, State());
        return -EFAULT;
      }
      Overwritten(raw, buf);
      heap.Memcpy(kbuf, 0, buf);
      assert heap.blocks == m.heap[kbuf := raw][kbuf := buf];
      assert StateBut(kbuf) == m;
      retval := Assemble(kbuf, filp.fPos, buf, env);
      locked := false;
      ghost var done := StateBut(kbuf);
      heap.Kfree(kbuf);
      assert State() == done;
    }

    // -------------------------------------------------------------- aesd_llseek

    /** The sum over all slots in array order, in size_t arithmetic. */
    method TotalSize(ghost m: Model) returns (totalSize: nat)
      requires RingHolds(m)
      ensures totalSize == |Contents(Capacity(), m)|
    {
      totalSize := 0;
      ghost var es := cBuffer.entry[..];
      HoldsTotal(cBuffer.View(), m);
      for index := 0 to cBuffer.entry.Length
        invariant totalSize == Sum(es, index)
      {
        NoWrap(es, index);
        totalSize := (totalSize + cBuffer.entry[index].size) % SIZE_T_LIMIT;
      }
    }

    method Llseek(filp: File, off: int, whence: int, interrupted: bool) returns (retval: int)
      requires Valid()
      requires !interrupted ==> !locked
      modifies filp, this`locked
      ensures Valid()
      ensures SeekResult(State(), filp.fPos, retval)
           == LlseekResult(Capacity(), old(State()), old(filp.fPos), off, whence, interrupted)
    {
      if interrupted {
        return -EINVAL;
      }
      ghost var m, v := State(), cBuffer.View();
      locked := true;
      LockKeepsInv(Capacity(), m);
      HoldsSame(v, m, State());
      var newpos := 0;
      if whence == SEEK_SET {
        newpos := off;
      } else if whence == SEEK_CUR {
        newpos := ToLoff(filp.fPos + off);
      } else if whence == SEEK_END {
        var totalSize := TotalSize(m);
        newpos := ToLoff(totalSize + off);
      } else {
        return -EINVAL;
      }
      if newpos < 0 {
        return -EINVAL;
      }
      filp.fPos := newpos;
      locked := false;
      assert State() == m;
      return newpos;
    }

    // -------------------------------------------------------------- aesd_ioctl

    /** The size of the entry at command index k, counted modulo the capacity. */
    method SizeOfCommand(k: nat, ghost m: Model) returns (size: nat)
      requires RingHolds(m) && |Window(Capacity(), m)| > 0
      requires cBuffer.full || k < |Window(Capacity(), m)|
      ensures var w := Window(Capacity(), m); size == |w[Pos(k, |w|)].data|
    {
      HoldsSlotOfCommand(cBuffer.View(), m, k);
      PosIsMod(cBuffer.outOffs + k, cBuffer.entry.Length);
      size := cBuffer.entry[(cBuffer.outOffs + k) % cBuffer.entry.Length].size;
    }

    /** The loop that adds up the sizes of the commands before index k, in a 64-bit long. */
    method StartOfCommand(k: nat, ghost m: Model) returns (retval: int)
      requires RingHolds(m) && |Window(Capacity(), m)| > 0 && CommandDefined(Capacity(), m, k)
      requires cBuffer.full || k < |Window(Capacity(), m)|
      ensures retval == ToLoff(CommandStart(Entries(Window(Capacity(), m)), k))
    {
      ghost var es := Entries(Window(Capacity(), m));
      HoldsQueue(cBuffer.View(), m);
      assert CommandStart(es, 0) == 0;
      retval := 0;
      for i := 0 to k
        invariant retval == ToLoff(CommandStart(es, i))
      {
        assert cBuffer.full ==> cBuffer.outOffs + i < 0x8000_0000;
        var size := SizeOfCommand(i, m);
        CommandStartStep(es, i);
        ToLoffAdd(CommandStart(es, i), size);
        retval := ToLoff(retval + size);
      }
    }

    /** The part of aesd_ioctl that runs under the lock: check the command, then compute the position. */
    method FindCommand(writeCmd: nat, writeCmdOffset: nat, ghost m: Model) returns (target: Option<int>)
      requires RingHolds(m) && CommandDefined(Capacity(), m, writeCmd)
      ensures target == CommandTarget(Capacity(), m, writeCmd, writeCmdOffset)
    {
      HoldsQueue(cBuffer.View(), m);
      var numEntries: uint8 := if cBuffer.full then cBuffer.entry.Length else cBuffer.inOffs - cBuffer.outOffs;
      if !cBuffer.full && writeCmd >= numEntries {
        return None;
      }
      var start := StartOfCommand(writeCmd, m);
      var size := SizeOfCommand(writeCmd, m);
      TargetFromParts(Capacity(), m, writeCmd, writeCmdOffset, start, size);
      if writeCmdOffset > size {
        return None;
      }
      return Some(ToLoff(start + writeCmdOffset));
    }

    method Ioctl(filp: File, known: bool, writeCmd: nat, writeCmdOffset: nat, interrupted: bool, copyFails: bool)
      returns (retval: int)
      requires Valid() && CommandDefined(Capacity(), State(), writeCmd)
      requires known && !copyFails && !interrupted ==> !locked
      modifies filp, this`locked
      ensures State() == old(State())
      ensures SeekResult(State(), filp.fPos, retval)
           == IoctlResult(Capacity(), State(), old(filp.fPos), known, writeCmd, writeCmdOffset, interrupted, copyFails)
    {
      if !known {
        return -ENOTTY;
      }
      if copyFails {
        return -EFAULT;
      }
      if interrupted {
        return -EINVAL;
      }
      ghost var m := State();
      locked := true;
      var target := FindCommand(writeCmd, writeCmdOffset, m);
      locked := false;
      assert State() == m;
      if target == None {
        return -EINVAL;
      }
      filp.fPos := target.value;
      assert State() == m;
      return target.value;
    }

    // -------------------------------------------------------------- aesd_cleanup_module

    method Cleanup()
      requires Valid()
      modifies heap
      ensures heap.blocks == CleanedUp(Capacity(), old(State()))
    {
      ghost var m, v := State(), cBuffer.View();
      for index := 0 to cBuffer.entry.Length
        invariant heap.blocks == m.heap - SlotPtrs(v.entry[..index])
      {
        var entry := cBuffer.entry[index];
        assert entry == v.entry[index];
        SlotPtrsStep(v.entry, index);
        if entry.buffptr != NULL {
          HoldsNotYetFreed(v, m, index);
          heap.Kfree(entry.buffptr);
        }
      }
      assert v.entry[..|v.entry|] == v.entry;
      HoldsSlotPtrs(v, m);
    }
  }

  /** aesd_init_module: the one device, with the capacity the header fixes. */
  method InitModule() returns (dev: AesdDevice)
    ensures dev.Valid() && dev.Capacity() == 10 && dev.State() == FRESH
    ensures fresh(dev) && fresh(dev.cBuffer) && fresh(dev.cBuffer.entry) && fresh(dev.heap)
  {
    dev := new AesdDevice(MAX_WRITE_OPERATIONS);
  }
}
