/**
  Whole runs: any number of open files, any interleaving of system calls, any choices by
  the kernel.  Every call takes the device lock around its work, so calls interleave as
  whole steps.
 */
module Runs {
  import opened Bytes
  import opened CircularBuffer
  import opened Lines
  import opened DeviceSpec
  import opened DeviceWrites

  type Handle = nat

  datatype Op =
    | Open(h: Handle)
    | Release(h: Handle)
    | Read(h: Handle, count: nat, interrupted: bool, copyFails: bool)
    | Write(h: Handle, buf: seq<byte>, env: WriteEnv)
    | Llseek(h: Handle, off: int, whence: int, interrupted: bool)
    | Ioctl(h: Handle, known: bool, cmd: nat, cmdOff: nat, interrupted: bool, copyFails: bool)

  /** The device and the file position of every open file. */
  datatype Sys = Sys(dev: Model, pos: map<Handle, int>)

  datatype Outcome = Outcome(sys: Sys, ret: int, data: seq<byte>)

  const START := Sys(FRESH, map[])

  /** The call goes on to take the device lock, and is not interrupted while waiting for it. */
  predicate TakesLock(s: Sys, op: Op)
    requires op.h in s.pos
  {
    match op
    case Open(_) => false
    case Release(_) => false
    case Read(h, count, interrupted, _) => TakesLockToRead(s.pos[h], count) && !interrupted
    case Write(h, buf, env) => TakesLockToWrite(s.pos[h], buf) && !env.interrupted
    case Llseek(_, _, _, interrupted) => !interrupted
    case Ioctl(_, known, _, _, interrupted, copyFails) => known && !copyFails && !interrupted
  }

  /** The call can take place: the file is open, the kernel's choices make sense, the lock is free. */
  predicate Enabled(n: nat, s: Sys, op: Op)
    requires n > 0
  {
    if op.Open? then op.h !in s.pos
    else
      && op.h in s.pos
      && (TakesLock(s, op) ==> !s.dev.locked)
      && (op.Write? ==> EnvOk(n, s.dev, op.buf, op.env))
      && (op.Llseek? ==> -LOFF_LIMIT <= op.off < LOFF_LIMIT)
      && (op.Ioctl? ==> CommandDefined(n, s.dev, op.cmd))
  }

  function Apply(n: nat, s: Sys, op: Op): Outcome
    requires n > 0 && Enabled(n, s, op)
  {
    match op
    case Open(h) => Outcome(s.(pos := s.pos[h := 0]), 0, [])
    case Release(h) => Outcome(s.(pos := s.pos - {h}), 0, [])
    case Read(h, count, interrupted, copyFails) =>
      var r := ReadResult(n, s.dev, s.pos[h], count, interrupted, copyFails);
      Outcome(s.(pos := s.pos[h := r.pos]), r.ret, r.data)
    case Write(h, buf, env) =>
      var r := WriteResult(n, s.dev, s.pos[h], buf, env);
      Outcome(s.(dev := r.m), r.ret, [])
    case Llseek(h, off, whence, interrupted) =>
      var r := LlseekResult(n, s.dev, s.pos[h], off, whence, interrupted);
      Outcome(Sys(r.m, s.pos[h := r.pos]), r.ret, [])
    case Ioctl(h, known, cmd, off, interrupted, copyFails) =>
      var r := IoctlResult(n, s.dev, s.pos[h], known, cmd, off, interrupted, copyFails);
      Outcome(Sys(r.m, s.pos[h := r.pos]), r.ret, [])
  }

  predicate Legal(n: nat, s: Sys, ops: seq<Op>)
    requires n > 0
    decreases |ops|
  {
    ops == [] || (Enabled(n, s, ops[0]) && Legal(n, Apply(n, s, ops[0]).sys, ops[1..]))
  }

  function Run(n: nat, s: Sys, ops: seq<Op>): Sys
    requires n > 0 && Legal(n, s, ops)
    decreases |ops|
  {
    if ops == [] then s else Run(n, Apply(n, s, ops[0]).sys, ops[1..])
  }

  // ---------------------------------------------------------------- the invariant over runs

  /** A call other than a write leaves the device alone, except perhaps for the lock. */
  lemma OnlyWritesChange(n: nat, s: Sys, op: Op)
    requires n > 0 && Enabled(n, s, op) && !op.Write?
    ensures var d := Apply(n, s, op).sys.dev; d == s.dev || d == s.dev.(locked := true)
  {
  }

  lemma LockAside(n: nat, m: Model)
    requires Inv(n, m)
    ensures var l := m.(locked := true);
            && Inv(n, l) && Leaked(n, l) == Leaked(n, m)
            && Contents(n, l) == Contents(n, m) && AssemblyOf(l) == AssemblyOf(m) && Tight(l) == Tight(m)
  {
    var l := m.(locked := true);
    forall i | 0 <= i < |Window(n, m)|
      ensures Backed(l, Window(n, l)[i])
    {
      assert Backed(m, Window(n, m)[i]);
    }
  }

  lemma StepKeepsInv(n: nat, s: Sys, op: Op)
    requires Inv(n, s.dev) && Enabled(n, s, op)
    ensures Inv(n, Apply(n, s, op).sys.dev)
  {
    if op.Write? {
      WriteKeepsInv(n, s.dev, s.pos[op.h], op.buf, op.env);
    } else {
      OnlyWritesChange(n, s, op);
      LockAside(n, s.dev);
    }
  }

  lemma {:induction false} RunKeepsInv(n: nat, s: Sys, ops: seq<Op>)
    requires Inv(n, s.dev) && Legal(n, s, ops)
    ensures Inv(n, Run(n, s, ops).dev)
    decreases |ops|
  {
    if ops != [] {
      StepKeepsInv(n, s, ops[0]);
      RunKeepsInv(n, Apply(n, s, ops[0]).sys, ops[1..]);
    }
  }

  lemma FreshIsValid(n: nat)
    requires n > 0
    ensures Inv(n, FRESH) && Leaked(n, FRESH) == {} && Tight(FRESH)
    ensures AssemblyOf(FRESH) == NOTHING && Contents(n, FRESH) == []
  {
    assert Datas([]) == [];
    assert Window(n, FRESH) == [];
    assert Gone(n, FRESH) == [];
    assert Ptrs([]) == [];
  }

  // ---------------------------------------------------------------- the buffer ledger

  /** Somewhere in the run krealloc fails while a buffer is pending. */
  predicate LosesBufferIn(n: nat, s: Sys, ops: seq<Op>)
    requires n > 0 && Legal(n, s, ops)
    decreases |ops|
  {
    ops != [] && (StepLosesBuffer(s, ops[0]) || LosesBufferIn(n, Apply(n, s, ops[0]).sys, ops[1..]))
  }

  predicate StepLosesBuffer(s: Sys, op: Op) {
    op.Write? && op.h in s.pos && LosesBuffer(s.dev, s.pos[op.h], op.buf, op.env)
  }

  lemma StepLeaks(n: nat, s: Sys, op: Op)
    requires Inv(n, s.dev) && Enabled(n, s, op)
    ensures var d := Apply(n, s, op).sys.dev;
            && Leaked(n, s.dev) <= Leaked(n, d)
            && (Leaked(n, d) == Leaked(n, s.dev) <==> !StepLosesBuffer(s, op))
  {
    if op.Write? {
      WriteLeaks(n, s.dev, s.pos[op.h], op.buf, op.env);
    } else {
      OnlyWritesChange(n, s, op);
      LockAside(n, s.dev);
    }
  }

  lemma {:induction false} RunLeaks(n: nat, s: Sys, ops: seq<Op>)
    requires Inv(n, s.dev) && Legal(n, s, ops)
    ensures Leaked(n, s.dev) <= Leaked(n, Run(n, s, ops).dev)
    ensures Leaked(n, Run(n, s, ops).dev) == Leaked(n, s.dev) <==> !LosesBufferIn(n, s, ops)
    decreases |ops|
  {
    if ops != [] {
      StepKeepsInv(n, s, ops[0]);
      StepLeaks(n, s, ops[0]);
      RunLeaks(n, Apply(n, s, ops[0]).sys, ops[1..]);
    }
  }

  lemma OwnedIsAllocated(n: nat, m: Model)
    requires Inv(n, m)
    ensures Owned(n, m) <= m.heap.Keys
  {
    forall i | 0 <= i < |Window(n, m)|
      ensures Window(n, m)[i].ptr in m.heap
    {
      assert Backed(m, Window(n, m)[i]);
    }
  }

  /**
    The ledger over a whole run from module load: the allocated buffers are exactly the live
    slots' and the pending one, if and only if krealloc never failed on a pending buffer.
    In every run the evicted buffers have been freed once each, in commit order, and no live
    buffer has been freed or is shared.
   */
  lemma Ledger(n: nat, ops: seq<Op>)
    requires n > 0 && Legal(n, START, ops)
    ensures var m := Run(n, START, ops).dev;
            && (m.heap.Keys == Owned(n, m) <==> !LosesBufferIn(n, START, ops))
            && Owned(n, m) <= m.heap.Keys
            && m.freed == Ptrs(m.commits[..|m.commits| - |Window(n, m)|])
            && PtrsDistinct(Window(n, m)) && PendingOwned(n, m)
            && AllBacked(m, Window(n, m))
  {
    FreshIsValid(n);
    RunKeepsInv(n, START, ops);
    RunLeaks(n, START, ops);
    OwnedIsAllocated(n, Run(n, START, ops).dev);
  }

  /** After clean-up only the pending buffer can be left, unless krealloc failed on one. */
  lemma CleanupLeaves(n: nat, ops: seq<Op>)
    requires n > 0 && Legal(n, START, ops)
    ensures var m := Run(n, START, ops).dev;
            var rest := CleanedUp(n, m).Keys;
            && (m.cur.buffptr != NULL ==> m.cur.buffptr in rest)
            && (rest == (if m.cur.buffptr == NULL then {} else {m.cur.buffptr}) <==> !LosesBufferIn(n, START, ops))
            && rest == Leaked(n, m) + (if m.cur.buffptr == NULL then {} else {m.cur.buffptr})
            && forall p :: p in rest ==> CleanedUp(n, m)[p] == m.heap[p]
  {
    var m := Run(n, START, ops).dev;
    Ledger(n, ops);
    assert m.cur.buffptr != NULL ==> m.cur.buffptr !in PtrSet(Window(n, m));
    assert CleanedUp(n, m).Keys == m.heap.Keys - PtrSet(Window(n, m));
  }
}
