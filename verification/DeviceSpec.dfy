/**
  The aesdchar device as a machine over its whole history.

  A `Model` keeps every command ever committed; what the device still holds is the window
  of the last n of them.  Each operation of main.c is a function on models.  The choices
  the kernel makes (allocation results, interrupted locks, failed copies, the contents of
  fresh memory) are parameters.
 */
module DeviceSpec {
  import opened Bytes
  import opened CircularBuffer
  import opened Lines

  const EINVAL := 22
  const ENOMEM := 12
  const EFAULT := 14
  const ENOTTY := 25
  const ERESTARTSYS := 512

  const LOFF_LIMIT: int := 0x8000_0000_0000_0000
  const INT_LIMIT: int := 0x8000_0000

  /** Conversion of an exact integer to a signed type that runs from -half to half - 1. */
  function Signed(x: int, half: nat): (r: int)
    requires half > 0
    ensures -(half as int) <= r < half
    ensures -(half as int) <= x < half ==> r == x
    decreases if x >= half then x + 1 else if x + half < 0 then -x else 0
  {
    if x >= half then Signed(x - 2 * half, half)
    else if x + half < 0 then Signed(x + 2 * half, half)
    else x
  }

  /** Conversion to a 64-bit loff_t or long. */
  function ToLoff(x: int): (r: int)
    ensures -LOFF_LIMIT <= r < LOFF_LIMIT
    ensures -LOFF_LIMIT <= x < LOFF_LIMIT ==> r == x
  {
    Signed(x, LOFF_LIMIT)
  }

  /** Conversion to a 32-bit int. */
  function ToInt(x: int): (r: int)
    ensures -INT_LIMIT <= r < INT_LIMIT
    ensures -INT_LIMIT <= x < INT_LIMIT ==> r == x
  {
    Signed(x, INT_LIMIT)
  }

  /** It is the residue modulo 2 * half that lies in range. */
  lemma {:induction false} SignedIsModulo(x: int, half: nat)
    requires half > 0
    ensures Signed(x, half) == (x + half) % (2 * half) - half
    decreases if x >= half then x + 1 else if x + half < 0 then -x else 0
  {
    var n := 2 * half;
    if x >= half {
      SignedIsModulo(x - n, half);
      ModShift(x - n + half, n);
    } else if x + half < 0 {
      SignedIsModulo(x + n, half);
      ModShift(x + half, n);
    } else {
      DivModUnique(x + half, 0, x + half, n);
    }
  }

  /** The two conversions, with the widths written out. */
  lemma Conversions(x: int)
    ensures ToLoff(x) == (x + 0x8000_0000_0000_0000) % 0x1_0000_0000_0000_0000 - 0x8000_0000_0000_0000
    ensures ToInt(x) == (x + 0x8000_0000) % 0x1_0000_0000 - 0x8000_0000
  {
    SignedIsModulo(x, LOFF_LIMIT);
    SignedIsModulo(x, INT_LIMIT);
  }

  lemma ModShift(x: int, n: nat)
    requires n > 0
    ensures (x + n) % n == x % n
  {
    var q, r := x / n, x % n;
    assert x == q * n + r;
    assert x + n == (q + 1) * n + r;
    DivModUnique(x + n, q + 1, r, n);
  }

  lemma SignedShift(x: int, half: nat)
    requires half > 0
    ensures Signed(x + 2 * half, half) == Signed(x, half)
  {
  }

  /** Adding in the narrow type is adding exactly and converting once. */
  lemma SignedAdd(a: int, b: int, half: nat)
    requires half > 0
    ensures Signed(Signed(a, half) + b, half) == Signed(a + b, half)
  {
    SignedAddTo(a, Signed(a, half), b, half);
  }

  /** b added to a number, and to what that number converts to, converts to the same. */
  lemma {:induction false} SignedAddTo(a: int, r: int, b: int, half: nat)
    requires half > 0 && -(half as int) <= r < half && Signed(a, half) == r
    ensures Signed(a + b, half) == Signed(r + b, half)
    decreases if a >= half then a + 1 else if a + half < 0 then -a else 0
  {
    if a >= half {
      SignedAddTo(a - 2 * half, r, b, half);
      SignedShift(a - 2 * half + b, half);
      assert a - 2 * half + b + 2 * half == a + b;
    } else if a + half < 0 {
      SignedAddTo(a + 2 * half, r, b, half);
      SignedShift(a + b, half);
      assert a + b + 2 * half == a + 2 * half + b;
    }
  }

  // ---------------------------------------------------------------- state

  datatype Block = Block(ptr: Ptr, data: seq<byte>)

  /**
    commits: every command committed so far, oldest first
    cur:     current_entry, the command being assembled
    heap:    the kernel buffers allocated to the driver, with their contents
    freed:   the evicted buffers given to kfree, in order
    locked:  buffer_lock is held although no call is in progress
   */
  datatype Model = Model(
    commits: seq<Block>,
    cur: Entry,
    heap: map<Ptr, seq<byte>>,
    freed: seq<Ptr>,
    locked: bool)

  const FRESH := Model([], EMPTY, map[], [], false)

  function Datas(bs: seq<Block>): seq<seq<byte>> {
    seq(|bs|, i requires 0 <= i < |bs| => bs[i].data)
  }

  function Ptrs(bs: seq<Block>): seq<Ptr> {
    seq(|bs|, i requires 0 <= i < |bs| => bs[i].ptr)
  }

  function EntryOf(b: Block): Entry {
    Entry(b.ptr, |b.data|)
  }

  function Entries(bs: seq<Block>): seq<Entry> {
    seq(|bs|, i requires 0 <= i < |bs| => EntryOf(bs[i]))
  }

  function Window(n: nat, m: Model): seq<Block> {
    LastN(n, m.commits)
  }

  /** The commands the window has moved past. */
  function Gone(n: nat, m: Model): seq<Block> {
    m.commits[..|m.commits| - |Window(n, m)|]
  }

  /** The bytes a reader can reach, from position 0. */
  function Contents(n: nat, m: Model): seq<byte> {
    Concat(Datas(Window(n, m)))
  }

  /** Every byte ever committed. */
  function History(m: Model): seq<byte> {
    Concat(Datas(m.commits))
  }

  function EvictedBytes(n: nat, m: Model): nat {
    |Concat(Datas(Gone(n, m)))|
  }

  function Pending(m: Model): seq<byte> {
    if m.cur.buffptr in m.heap then m.heap[m.cur.buffptr] else []
  }

  /** The model forgetting about memory. */
  function AssemblyOf(m: Model): Assembly {
    Assembly(Datas(m.commits), Pending(m))
  }

  // ---------------------------------------------------------------- invariant

  /** A committed command is not empty and ends in its newline. */
  predicate IsCommand(b: Block) {
    |b.data| > 0 && b.data[|b.data| - 1] == NEWLINE
  }

  predicate Backed(m: Model, b: Block) {
    b.ptr in m.heap && m.heap[b.ptr] == b.data
  }

  ghost predicate PtrsDistinct(bs: seq<Block>) {
    forall i, j :: 0 <= i < j < |bs| ==> bs[i].ptr != bs[j].ptr
  }

  ghost predicate PendingOwned(n: nat, m: Model) {
    m.cur.buffptr != NULL ==>
      && m.cur.buffptr in m.heap
      && |m.heap[m.cur.buffptr]| == m.cur.size > 0
      && forall i :: 0 <= i < |Window(n, m)| ==> Window(n, m)[i].ptr != m.cur.buffptr
  }

  ghost predicate AllCommands(bs: seq<Block>) {
    forall i :: 0 <= i < |bs| ==> IsCommand(bs[i])
  }

  ghost predicate AllBacked(m: Model, bs: seq<Block>) {
    forall i :: 0 <= i < |bs| ==> Backed(m, bs[i])
  }

  /** What every operation keeps, whatever the kernel's choices. */
  ghost predicate Inv(n: nat, m: Model) {
    && n > 0
    && NULL !in m.heap
    && AllCommands(m.commits)
    && AllBacked(m, Window(n, m))
    && PtrsDistinct(Window(n, m))
    && PendingOwned(n, m)
    && m.freed == Ptrs(Gone(n, m))
    && |Contents(n, m)| + m.cur.size < LOFF_LIMIT
  }

  function PtrSet(bs: seq<Block>): set<Ptr> {
    set i | 0 <= i < |bs| :: bs[i].ptr
  }

  /** The buffers the driver can still reach: the live slots and the command being assembled. */
  function Owned(n: nat, m: Model): set<Ptr> {
    PtrSet(Window(n, m)) + (if m.cur.buffptr == NULL then {} else {m.cur.buffptr})
  }

  /** Allocated buffers that nothing points to any more. */
  function Leaked(n: nat, m: Model): set<Ptr> {
    m.heap.Keys - Owned(n, m)
  }

  /** The size of the pending command is backed by a buffer. */
  predicate Tight(m: Model) {
    m.cur.buffptr == NULL ==> m.cur.size == 0
  }

  // ---------------------------------------------------------------- aesd_write

  /**
    The kernel's part in one aesd_write.  NULL stands for a failed allocation; `grown` may
    be the old address of the pending buffer; `junk` is what a new pending block contained
    before memcpy.
   */
  datatype WriteEnv = WriteEnv(
    interrupted: bool, kbuf: Ptr, copyFails: bool, grown: Ptr, junk: seq<byte>, rest: Ptr)

  /** The bytes of buf that go to the command being assembled. */
  function ChunkLength(buf: seq<byte>): (c: nat)
    ensures c <= |buf| && (buf != [] ==> c > 0)
  {
    if FirstNewline(buf) < |buf| then FirstNewline(buf) + 1 else |buf|
  }

  predicate HasNewline(buf: seq<byte>) {
    FirstNewline(buf) < |buf|
  }

  /** The bytes in front of a new chunk: the pending ones, or whatever new memory held when their buffer is lost. */
  function Front(m: Model, junk: seq<byte>): seq<byte>
    requires m.cur.size <= |junk|
  {
    if m.cur.buffptr in m.heap then m.heap[m.cur.buffptr] else junk[..m.cur.size]
  }

  /** krealloc and memcpy: the pending buffer, possibly moved, with `chunk` at its end. */
  function Grown(m: Model, chunk: seq<byte>, env: WriteEnv): Model
    requires |env.junk| == m.cur.size + |chunk|
  {
    m.(heap := (m.heap - {m.cur.buffptr})[env.grown := Front(m, env.junk) + chunk],
       cur := Entry(env.grown, m.cur.size + |chunk|))
  }

  /** The buffer that committing one more command gives back, if any. */
  function Oldest(n: nat, m: Model): Ptr
    requires n > 0
  {
    if |m.commits| >= n then m.commits[|m.commits| - n].ptr else NULL
  }

  /** The pending command joins the history and the command leaving the window is freed. */
  function Committed(n: nat, m: Model): Model
    requires n > 0
  {
    var oldest := Oldest(n, m);
    Model(m.commits + [Block(m.cur.buffptr, Pending(m))],
          EMPTY,
          m.heap - {oldest},
          if oldest == NULL then m.freed else m.freed + [oldest],
          m.locked)
  }

  /** A new pending buffer holding the bytes after the newline. */
  function Started(m: Model, p: Ptr, rest: seq<byte>): Model {
    m.(heap := m.heap[p := rest], cur := Entry(p, |rest|))
  }

  /** krealloc has failed: the pointer is overwritten with NULL, the size stays. */
  function Dropped(m: Model): Model {
    m.(cur := Entry(NULL, m.cur.size))
  }

  /** What the kernel may choose: new blocks do not overlap live ones and memory is finite. */
  predicate EnvOk(n: nat, m: Model, buf: seq<byte>, env: WriteEnv)
    requires n > 0
  {
    && (env.kbuf != NULL ==>
          && env.kbuf !in m.heap
          && |Contents(n, m)| + m.cur.size + |buf| < LOFF_LIMIT)
    && |env.junk| == m.cur.size + ChunkLength(buf)
    && (env.grown != NULL && env.grown != m.cur.buffptr ==> env.grown !in m.heap && env.grown != env.kbuf)
    && (env.rest != NULL ==>
          && env.rest != env.kbuf
          && env.rest !in Committed(n, Grown(m, buf[..ChunkLength(buf)], env)).heap)
  }

  datatype Result = Result(m: Model, ret: int)

  predicate TakesLockToWrite(pos: int, buf: seq<byte>) {
    pos >= 0 && buf != []
  }

  function WriteResult(n: nat, m: Model, pos: int, buf: seq<byte>, env: WriteEnv): Result
    requires n > 0 && EnvOk(n, m, buf, env)
  {
    if !TakesLockToWrite(pos, buf) then Result(m, -EINVAL)
    else if env.interrupted then Result(m, -ERESTARTSYS)
    else if env.kbuf == NULL then Result(m, -ENOMEM)
    else if env.copyFails then Result(m.(locked := true), -EFAULT)
    else if env.grown == NULL then Result(Dropped(m), -ENOMEM)
    else
      var c := ChunkLength(buf);
      var grown := Grown(m, buf[..c], env);
      if !HasNewline(buf) then Result(grown, c)
      else if c == |buf| || env.rest == NULL then Result(Committed(n, grown), c)
      else Result(Started(Committed(n, grown), env.rest, buf[c..]), |buf|)
  }

  predicate ReachesKrealloc(pos: int, buf: seq<byte>, env: WriteEnv) {
    TakesLockToWrite(pos, buf) && !env.interrupted && env.kbuf != NULL && !env.copyFails
  }

  /** krealloc fails, and a buffer was there to lose. */
  predicate LosesBuffer(m: Model, pos: int, buf: seq<byte>, env: WriteEnv) {
    ReachesKrealloc(pos, buf, env) && env.grown == NULL && m.cur.buffptr != NULL
  }

  /** The bytes a caller is told were taken. */
  function Taken(buf: seq<byte>, ret: int): seq<byte> {
    if 0 < ret <= |buf| then buf[..ret] else []
  }

  // ---------------------------------------------------------------- aesd_read

  datatype ReadOutcome = ReadOutcome(ret: int, data: seq<byte>, pos: int)

  /** A read stops at the count or at the end of the entry it starts in. */
  function ReadLength(es: seq<Entry>, pos: nat, count: nat): (r: nat)
    requires pos < Total(es)
    ensures r <= count && pos + r <= Total(es)
    ensures count > 0 ==> r > 0
  {
    var k := Locate(es, pos);
    SumMonotone(es, k + 1, |es|);
    if Sum(es, k + 1) - pos > count then count else Sum(es, k + 1) - pos
  }

  predicate TakesLockToRead(pos: int, count: nat) {
    pos >= 0 && count > 0
  }

  function ReadResult(n: nat, m: Model, pos: int, count: nat, interrupted: bool, copyFails: bool): ReadOutcome {
    EntriesMeasureContents(Window(n, m));
    if !TakesLockToRead(pos, count) then ReadOutcome(-EINVAL, [], pos)
    else if interrupted then ReadOutcome(-ERESTARTSYS, [], pos)
    else if pos >= |Contents(n, m)| then ReadOutcome(0, [], pos)
    else if copyFails then ReadOutcome(-EFAULT, [], pos)
    else
      var r := ReadLength(Entries(Window(n, m)), pos, count);
      ReadOutcome(r, Contents(n, m)[pos..pos + r], pos + r)
  }

  // ---------------------------------------------------------------- the two seeks

  const SEEK_SET := 0
  const SEEK_CUR := 1
  const SEEK_END := 2

  datatype SeekResult = SeekResult(m: Model, pos: int, ret: int)

  function LlseekTarget(n: nat, m: Model, pos: int, off: int, whence: int): Option<int> {
    if whence == SEEK_SET then Some(off)
    else if whence == SEEK_CUR then Some(ToLoff(pos + off))
    else if whence == SEEK_END then Some(ToLoff(|Contents(n, m)| + off))
    else None
  }

  /** A refused seek returns with the lock still held. */
  function LlseekResult(n: nat, m: Model, pos: int, off: int, whence: int, interrupted: bool): SeekResult {
    if interrupted then SeekResult(m, pos, -EINVAL)
    else
      match LlseekTarget(n, m, pos, off, whence)
      case None => SeekResult(m.(locked := true), pos, -EINVAL)
      case Some(target) =>
        if target < 0 then SeekResult(m.(locked := true), pos, -EINVAL)
        else SeekResult(m, target, target)
  }

  /** Where command k starts when commands are counted round and round the entries es. */
  function CommandStart(es: seq<Entry>, k: nat): nat
    requires |es| > 0
  {
    if k < |es| then Sum(es, k) else Total(es) + CommandStart(es, k - |es|)
  }

  /** The loop in the source counts commands with a signed int: larger indices are undefined there. */
  predicate CommandDefined(n: nat, m: Model, k: nat)
    requires n > 0
  {
    |m.commits| >= n ==> k < 0x8000_0000 && Pos(|m.commits|, n) + k <= 0x8000_0000
  }

  /** write_cmd is refused only when the ring is not full. */
  predicate CommandAccepted(n: nat, m: Model, k: nat, off: nat) {
    var w := Window(n, m);
    && (|m.commits| >= n || k < |w|)
    && |w| > 0
    && off <= |w[Pos(k, |w|)].data|
  }

  /** The file position a command seek computes, or None when it is refused. */
  function CommandTarget(n: nat, m: Model, k: nat, off: nat): Option<int> {
    if CommandAccepted(n, m, k, off) then Some(ToLoff(CommandStart(Entries(Window(n, m)), k) + off)) else None
  }

  function IoctlResult(n: nat, m: Model, pos: int, known: bool, k: nat, off: nat,
                       interrupted: bool, copyFails: bool): SeekResult
  {
    if !known then SeekResult(m, pos, -ENOTTY)
    else if copyFails then SeekResult(m, pos, -EFAULT)
    else if interrupted then SeekResult(m, pos, -EINVAL)
    else
      match CommandTarget(n, m, k, off)
      case None => SeekResult(m, pos, -EINVAL)
      case Some(target) => SeekResult(m, target, target)
  }

  // ---------------------------------------------------------------- cleanup

  /** aesd_cleanup_module frees the live slots and nothing else. */
  function CleanedUp(n: nat, m: Model): map<Ptr, seq<byte>> {
    m.heap - PtrSet(Window(n, m))
  }

  // ---------------------------------------------------------------- sizes of entries and contents

  lemma {:induction false} EntriesMeasure(bs: seq<Block>, k: nat)
    requires k <= |bs|
    ensures Sum(Entries(bs), k) == |Concat(Datas(bs[..k]))|
  {
    if k > 0 {
      EntriesMeasure(bs, k - 1);
      assert Datas(bs[..k]) == Datas(bs[..k - 1]) + [bs[k - 1].data];
      ConcatAppend(Datas(bs[..k - 1]), [bs[k - 1].data]);
      ConcatOne(bs[k - 1].data);
    }
  }

  lemma EntriesMeasureContents(bs: seq<Block>)
    ensures Total(Entries(bs)) == |Concat(Datas(bs))|
  {
    EntriesMeasure(bs, |bs|);
    assert bs[..|bs|] == bs;
  }

  /** Bytes Sum(k) .. Sum(k+1) of the contents are the bytes of block k. */
  lemma ContentsOfBlock(bs: seq<Block>, k: nat, from: nat, to: nat)
    requires k < |bs| && from <= to <= |bs[k].data|
    ensures var s := Sum(Entries(bs), k);
            && s + to <= |Concat(Datas(bs))|
            && Concat(Datas(bs))[s + from..s + to] == bs[k].data[from..to]
  {
    var ds := Datas(bs);
    EntriesMeasure(bs, k);
    ConcatSplit(ds, k);
    assert ds[..k] == Datas(bs[..k]);
  }
}
