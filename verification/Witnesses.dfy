/** Real runs, from module load, on which the obvious claims fail. */
module Witnesses {
  import opened Bytes
  import opened CircularBuffer
  import opened Lines
  import opened DeviceSpec
  import opened DeviceReads
  import opened Runs
  import opened RunStreams

  const A: byte := 65
  const B: byte := 66
  const C: byte := 67
  const GARBAGE: byte := 99

  /** One more call in front of a run. */
  lemma CallThen(n: nat, s: Sys, op: Op, rest: seq<Op>)
    requires n > 0 && Enabled(n, s, op) && Legal(n, Apply(n, s, op).sys, rest)
    ensures Legal(n, s, [op] + rest)
    ensures var r := Apply(n, s, op);
            && Run(n, s, [op] + rest) == Run(n, r.sys, rest)
            && Accepted(n, s, [op] + rest) == StepAccepts(op, r.ret) + Accepted(n, r.sys, rest)
            && (LosesBufferIn(n, s, [op] + rest) <==> StepLosesBuffer(s, op) || LosesBufferIn(n, r.sys, rest))
            && (KeepsLockIn(n, s, [op] + rest) <==> KeepsLock(n, s, op) || KeepsLockIn(n, r.sys, rest))
  {
    assert ([op] + rest)[0] == op && ([op] + rest)[1..] == rest;
  }

  const OPENED := Sys(FRESH, map[0 := 0])

  // ---------------------------------------------------------------- two newlines in one write

  const TWO_LINES := Op.Write(0, [NEWLINE, NEWLINE], WriteEnv(false, 1, false, 2, [NUL], 3))

  /** Everything succeeds, and yet one line stays pending. */
  lemma TwoNewlinesAreNotSplit(n: nat)
    requires n > 0
    ensures var ops := [Open(0), TWO_LINES];
            && Legal(n, START, ops) && !LosesBufferIn(n, START, ops)
            && Accepted(n, START, ops) == [[NEWLINE, NEWLINE]]
            && AssemblyOf(Run(n, START, ops).dev) != Split([NEWLINE, NEWLINE])
  {
    var buf := [NEWLINE, NEWLINE];
    assert Contents(n, FRESH) == [];
    assert FirstNewline(buf) == 0 && ChunkLength(buf) == 1;
    assert EnvOk(n, FRESH, buf, TWO_LINES.env);
    var r := Apply(n, OPENED, TWO_LINES);
    assert r.ret == 2;
    CallThen(n, OPENED, TWO_LINES, []);
    CallThen(n, START, Open(0), [TWO_LINES]);
    assert [Open(0)] + [TWO_LINES] == [Open(0), TWO_LINES];
    assert buf[..2] == buf;
    assert Accepted(n, START, [Open(0), TWO_LINES]) == [buf];
    assert buf == [NEWLINE] + [NEWLINE];
    NewlinesAppend([NEWLINE], [NEWLINE]);
    assert Newlines([NEWLINE]) == 1 by { assert [NEWLINE][1..] == []; }
    ConcatOne(buf);
    CommitsAreLines(n, [Open(0), TWO_LINES]);
  }

  // ---------------------------------------------------------------- krealloc fails on a pending buffer

  const PUT_A := Op.Write(0, [A], WriteEnv(false, 1, false, 2, [NUL], NULL))
  const LOSE_C := Op.Write(0, [C], WriteEnv(false, 1, false, NULL, [NUL, NUL], NULL))
  const PUT_B := Op.Write(0, [B, NEWLINE], WriteEnv(false, 1, false, 3, [GARBAGE, NUL, NUL], NULL))

  const AFTER_A := Sys(Model([], Entry(2, 1), map[2 := [A]], [], false), map[0 := 0])
  const AFTER_C := Sys(Model([], Entry(NULL, 1), map[2 := [A]], [], false), map[0 := 0])
  const AFTER_B := Sys(Model([Block(3, [GARBAGE, B, NEWLINE])], EMPTY,
                             map[2 := [A], 3 := [GARBAGE, B, NEWLINE]], [], false),
                       map[0 := 0])

  lemma PutsA(n: nat)
    requires n > 0
    ensures Enabled(n, OPENED, PUT_A) && Apply(n, OPENED, PUT_A) == Outcome(AFTER_A, 1, [])
    ensures !StepLosesBuffer(OPENED, PUT_A)
  {
    assert Contents(n, FRESH) == [];
    assert FirstNewline([A]) == 1 && [A][..1] == [A];
    assert EnvOk(n, FRESH, [A], PUT_A.env);
    assert Front(FRESH, [NUL]) + [A] == [A];
    assert Grown(FRESH, [A], PUT_A.env).heap == map[2 := [A]];
  }

  lemma LosesA(n: nat)
    requires n > 0
    ensures Enabled(n, AFTER_A, LOSE_C) && Apply(n, AFTER_A, LOSE_C) == Outcome(AFTER_C, -ENOMEM, [])
    ensures StepLosesBuffer(AFTER_A, LOSE_C)
  {
    assert Contents(n, AFTER_A.dev) == [];
    assert FirstNewline([C]) == 1;
  }

  lemma PutsB(n: nat)
    requires n > 0
    ensures Enabled(n, AFTER_C, PUT_B) && Apply(n, AFTER_C, PUT_B) == Outcome(AFTER_B, 2, [])
    ensures !StepLosesBuffer(AFTER_C, PUT_B)
  {
    var buf := [B, NEWLINE];
    assert Contents(n, AFTER_C.dev) == [];
    assert FirstNewline(buf) == 1 by { assert buf[1..] == [NEWLINE]; }
    assert buf[..2] == buf;
    assert EnvOk(n, AFTER_C.dev, buf, PUT_B.env);
    var g := Grown(AFTER_C.dev, buf, PUT_B.env);
    assert Front(AFTER_C.dev, PUT_B.env.junk) + buf == [GARBAGE, B, NEWLINE];
    assert g.heap == map[2 := [A], 3 := [GARBAGE, B, NEWLINE]];
    assert Committed(n, g) == AFTER_B.dev;
  }

  /**
    The byte accepted first is gone, a byte nobody wrote is committed in its place, and its
    buffer is never freed.
   */
  lemma LostBufferCommitsGarbage(n: nat)
    requires n > 0
    ensures var ops := [Open(0), PUT_A, LOSE_C, PUT_B];
            && Legal(n, START, ops) && LosesBufferIn(n, START, ops)
            && Concat(Accepted(n, START, ops)) == [A, B, NEWLINE]
            && Run(n, START, ops) == AFTER_B
            && History(AFTER_B.dev) + Pending(AFTER_B.dev) == [GARBAGE, B, NEWLINE]
            && 2 in Leaked(n, AFTER_B.dev)
  {
    PutsA(n);
    LosesA(n);
    PutsB(n);
    CallThen(n, AFTER_C, PUT_B, []);
    CallThen(n, AFTER_A, LOSE_C, [PUT_B]);
    CallThen(n, OPENED, PUT_A, [LOSE_C] + [PUT_B]);
    CallThen(n, START, Open(0), [PUT_A] + ([LOSE_C] + [PUT_B]));
    var ops := [Open(0), PUT_A, LOSE_C, PUT_B];
    assert [Open(0)] + ([PUT_A] + ([LOSE_C] + [PUT_B])) == ops;
    assert [A][..1] == [A] && [B, NEWLINE][..2] == [B, NEWLINE];
    assert Accepted(n, START, ops) == [[A]] + [[B, NEWLINE]];
    ConcatAppend([[A]], [[B, NEWLINE]]);
    ConcatOne([A]);
    ConcatOne([B, NEWLINE]);
    assert Datas(AFTER_B.dev.commits) == [[GARBAGE, B, NEWLINE]];
    ConcatOne([GARBAGE, B, NEWLINE]);
    assert Window(n, AFTER_B.dev) == AFTER_B.dev.commits;
  }

  // ---------------------------------------------------------------- the three exits that keep the lock

  const COPY_FAILS := Op.Write(0, [A], WriteEnv(false, 1, true, NULL, [NUL], NULL))
  const NO_SUCH_WHENCE := Op.Llseek(0, 0, 3, false)
  const BEFORE_START := Op.Llseek(0, -1, SEEK_SET, false)

  lemma LockKept(n: nat, op: Op)
    requires n > 0 && op in [COPY_FAILS, NO_SUCH_WHENCE, BEFORE_START]
    ensures var ops := [Open(0), op];
            && Legal(n, START, ops) && KeepsLockIn(n, START, ops)
            && Run(n, START, ops).dev.locked
  {
    assert Contents(n, FRESH) == [];
    assert FirstNewline([A]) == 1;
    CallThen(n, OPENED, op, []);
    CallThen(n, START, Open(0), [op]);
    assert [Open(0)] + [op] == [Open(0), op];
    LockFreeIff(n, START, [Open(0), op]);
  }

  // ---------------------------------------------------------------- seeking past the last command of a full ring

  function FilledHeap(j: nat): (h: map<Ptr, seq<byte>>)
    ensures forall p :: p in h <==> 1 <= p <= j
  {
    if j == 0 then map[] else FilledHeap(j - 1)[j := [NEWLINE]]
  }

  /** The device after j one-byte commands, none evicted yet. */
  function Filled(j: nat): Sys {
    Sys(Model(seq(j, i requires 0 <= i => Block(i + 1, [NEWLINE])), EMPTY, FilledHeap(j), [], false),
        map[0 := 0])
  }

  function PutLine(j: nat): Op {
    Op.Write(0, [NEWLINE], WriteEnv(false, j + 2, false, j + 1, [NUL], NULL))
  }

  function PutLines(j: nat, k: nat): seq<Op>
    requires j <= k
    decreases k - j
  {
    if j == k then [] else [PutLine(j)] + PutLines(j + 1, k)
  }

  lemma {:induction false} OneByteEach(pieces: seq<seq<byte>>)
    requires forall i :: 0 <= i < |pieces| ==> |pieces[i]| == 1
    ensures |Concat(pieces)| == |pieces|
  {
    if pieces != [] {
      OneByteEach(pieces[1..]);
    }
  }

  lemma FilledHolds(n: nat, j: nat)
    requires j <= n
    ensures Window(n, Filled(j).dev) == Filled(j).dev.commits && |Contents(n, Filled(j).dev)| == j
  {
    OneByteEach(Datas(Filled(j).dev.commits));
  }

  lemma PutLineFills(n: nat, j: nat)
    requires j < n < LOFF_LIMIT
    ensures Enabled(n, Filled(j), PutLine(j))
    ensures Apply(n, Filled(j), PutLine(j)).sys == Filled(j + 1)
  {
    var m, buf, env := Filled(j).dev, [NEWLINE], PutLine(j).env;
    FilledHolds(n, j);
    assert FirstNewline(buf) == 0 && buf[..1] == buf;
    assert EnvOk(n, m, buf, env);
    var g := Grown(m, buf, env);
    assert Front(m, env.junk) == [] && [] + buf == buf;
    assert g.heap == Filled(j + 1).dev.heap;
    assert Committed(n, g) == Filled(j + 1).dev;
  }

  lemma PutLineThen(n: nat, j: nat, rest: seq<Op>)
    requires j < n < LOFF_LIMIT && Legal(n, Filled(j + 1), rest)
    ensures Legal(n, Filled(j), [PutLine(j)] + rest)
    ensures Run(n, Filled(j), [PutLine(j)] + rest) == Run(n, Filled(j + 1), rest)
  {
    PutLineFills(n, j);
    CallThen(n, Filled(j), PutLine(j), rest);
  }

  lemma {:induction false} PutLinesFill(n: nat, j: nat, k: nat)
    requires j <= k <= n < LOFF_LIMIT && n > 0
    ensures Legal(n, Filled(j), PutLines(j, k)) && Run(n, Filled(j), PutLines(j, k)) == Filled(k)
    decreases k - j
  {
    if j < k {
      PutLinesFill(n, j + 1, k);
      PutLineThen(n, j, PutLines(j + 1, k));
    }
  }

  /**
    On a full ring of n commands a seek to command n, which does not exist, is accepted, and
    the next read reports end of file.
   */
  lemma SeekPastFullRing(n: nat)
    requires 0 < n < 256
    ensures var ops := [Open(0)] + PutLines(0, n);
            var seek := Op.Ioctl(0, true, n, 0, false, false);
            && Legal(n, START, ops) && |Run(n, START, ops).dev.commits| == n
            && Enabled(n, Run(n, START, ops), seek)
            && var r := Apply(n, Run(n, START, ops), seek);
            && r.ret == n
            && Enabled(n, r.sys, Read(0, 1, false, false))
            && Apply(n, r.sys, Read(0, 1, false, false)).ret == 0
  {
    var m := Filled(n).dev;
    PutLinesFill(n, 0, n);
    assert Filled(0) == OPENED;
    CallThen(n, START, Open(0), PutLines(0, n));
    FilledHolds(n, n);
    EntriesMeasureContents(Window(n, m));
    assert CommandStart(Entries(Window(n, m)), n) == n;
    assert Pos(n, n) == 0;
    assert CommandTarget(n, m, n, 0) == Some(n);
    ReadEndsAtEnd(n, m, n, 1);
  }
}
