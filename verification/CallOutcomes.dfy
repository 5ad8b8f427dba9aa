/**
  Exactly when each system call gives each of its answers, in terms of its arguments, the
  kernel's choices and the contents; what a failed call leaves as it was; and how the moves
  of the file position combine.
 */
module CallOutcomes {
  import opened Bytes
  import opened CircularBuffer
  import opened DeviceSpec
  import opened Runs

  // ---------------------------------------------------------------- aesd_write

  /**
    Every answer of a write, each exactly when.  The position plays no part beyond its sign.
    A write falls short only at its first newline, and only if there are bytes behind it for
    which no buffer can be had.
   */
  lemma WriteAnswers(n: nat, m: Model, pos: int, buf: seq<byte>, env: WriteEnv)
    requires n > 0 && EnvOk(n, m, buf, env)
    ensures var ret := WriteResult(n, m, pos, buf, env).ret;
            var valid := pos >= 0 && |buf| > 0;
            && (ret == -EINVAL <==> !valid)
            && (ret == -ERESTARTSYS <==> valid && env.interrupted)
            && (ret == -ENOMEM <==> valid && !env.interrupted
                                    && (env.kbuf == NULL || (!env.copyFails && env.grown == NULL)))
            && (ret == -EFAULT <==> valid && !env.interrupted && env.kbuf != NULL && env.copyFails)
            && (ret > 0 <==> valid && !env.interrupted && env.kbuf != NULL && !env.copyFails && env.grown != NULL)
            && (ret > 0 ==> ret <= |buf|)
            && (0 < ret < |buf| ==> env.rest == NULL && buf[ret - 1] == NEWLINE && NEWLINE !in buf[..ret - 1])
            && (ret == |buf| > 0 ==> env.rest != NULL || NEWLINE !in buf[..|buf| - 1])
  {
  }

  /** The driver only appends: where the handle stands makes no difference to a write. */
  lemma WriteIgnoresPosition(n: nat, m: Model, p: nat, q: nat, buf: seq<byte>, env: WriteEnv)
    requires n > 0 && EnvOk(n, m, buf, env)
    ensures WriteResult(n, m, p, buf, env) == WriteResult(n, m, q, buf, env)
  {
  }

  /**
    A write that fails leaves everything as it was, except that a failed copy keeps the lock
    and a failed krealloc drops the pointer to the pending buffer.
   */
  lemma FailedWriteKeeps(n: nat, m: Model, pos: int, buf: seq<byte>, env: WriteEnv)
    requires n > 0 && EnvOk(n, m, buf, env)
    ensures var r := WriteResult(n, m, pos, buf, env);
            r.ret <= 0 ==>
              && r.m.commits == m.commits && r.m.heap == m.heap && r.m.freed == m.freed
              && r.m.cur.size == m.cur.size
              && r.m.cur.buffptr == (if r.ret == -ENOMEM && env.kbuf != NULL then NULL else m.cur.buffptr)
              && (r.m.locked <==> m.locked || r.ret == -EFAULT)
    ensures WriteResult(n, m, pos, buf, env).ret > 0 ==> WriteResult(n, m, pos, buf, env).m.locked == m.locked
  {
  }

  // ---------------------------------------------------------------- aesd_read

  /** Every answer of a read, each exactly when; a read that returns no bytes moves nothing. */
  lemma ReadAnswers(n: nat, m: Model, pos: int, count: nat, interrupted: bool, copyFails: bool)
    ensures var r := ReadResult(n, m, pos, count, interrupted, copyFails);
            var valid := pos >= 0 && count > 0;
            var atEnd := pos >= |Contents(n, m)|;
            && (r.ret == -EINVAL <==> !valid)
            && (r.ret == -ERESTARTSYS <==> valid && interrupted)
            && (r.ret == 0 <==> valid && !interrupted && atEnd)
            && (r.ret == -EFAULT <==> valid && !interrupted && !atEnd && copyFails)
            && (r.ret > 0 <==> valid && !interrupted && !atEnd && !copyFails)
            && (r.ret <= 0 ==> r.pos == pos && r.data == [])
            && (r.ret > 0 ==> r == ReadResult(n, m, pos, count, false, false))
  {
    EntriesMeasureContents(Window(n, m));
  }

  // ---------------------------------------------------------------- aesd_llseek

  /** A 64-bit sum of two loff_t values: at most one turn too far. */
  lemma SumInLoff(a: int, b: int)
    requires -LOFF_LIMIT <= a < LOFF_LIMIT && -LOFF_LIMIT <= b < LOFF_LIMIT
    ensures ToLoff(a + b) == if a + b >= LOFF_LIMIT then a + b - 2 * LOFF_LIMIT
                             else if a + b < -LOFF_LIMIT then a + b + 2 * LOFF_LIMIT
                             else a + b
  {
    if a + b >= LOFF_LIMIT {
      assert Signed(a + b, LOFF_LIMIT) == Signed(a + b - 2 * LOFF_LIMIT, LOFF_LIMIT);
    } else if a + b < -LOFF_LIMIT {
      assert Signed(a + b, LOFF_LIMIT) == Signed(a + b + 2 * LOFF_LIMIT, LOFF_LIMIT);
    }
  }

  /** What the offset is counted from: 0, the position or the end, for whence 0, 1 and 2. */
  function Base(n: nat, m: Model, pos: int, whence: int): Option<int> {
    match whence
    case 0 => Some(0)
    case 1 => Some(pos)
    case 2 => Some(|Contents(n, m)|)
    case _ => None
  }

  /**
    From a position that is not negative, llseek succeeds exactly when whence is known and the
    exact sum lies within a loff_t and is not negative.  Then that sum is the new position and
    the answer, and nothing else changes; otherwise the position stays, and unless the call
    was interrupted the lock stays taken.
   */
  lemma LlseekAnswers(n: nat, m: Model, pos: int, off: int, whence: int, interrupted: bool)
    requires 0 <= pos < LOFF_LIMIT && -LOFF_LIMIT <= off < LOFF_LIMIT && |Contents(n, m)| < LOFF_LIMIT
    ensures var r := LlseekResult(n, m, pos, off, whence, interrupted);
            var base := Base(n, m, pos, whence);
            if !interrupted && base.Some? && 0 <= base.value + off < LOFF_LIMIT
            then r == SeekResult(m, base.value + off, base.value + off)
            else r == SeekResult(if interrupted then m else m.(locked := true), pos, -EINVAL)
  {
    if Base(n, m, pos, whence).Some? {
      SumInLoff(Base(n, m, pos, whence).value, off);
    }
  }

  /** From every position, a negative one after a wrapped command seek included: SEEK_CUR adds in 64 bits. */
  lemma SeekCurWraps(n: nat, m: Model, pos: int, off: int)
    requires -LOFF_LIMIT <= pos < LOFF_LIMIT && -LOFF_LIMIT <= off < LOFF_LIMIT
    ensures var r := LlseekResult(n, m, pos, off, 1, false);
            var sum := pos + off;
            && (r.ret >= 0 <==> 0 <= sum < LOFF_LIMIT || sum < -LOFF_LIMIT)
            && (0 <= sum < LOFF_LIMIT ==> r.pos == sum)
            && (sum < -LOFF_LIMIT ==> r.pos == sum + 2 * LOFF_LIMIT)
  {
    SumInLoff(pos, off);
  }

  /** SEEK_CUR undoes itself, and adds to the SEEK_SET before it. */
  lemma SeekSetThenCur(n: nat, m: Model, pos: int, a: int, b: int)
    requires 0 <= a < LOFF_LIMIT && 0 <= a + b < LOFF_LIMIT
    ensures var first := LlseekResult(n, m, pos, a, 0, false);
            var second := LlseekResult(n, first.m, first.pos, b, 1, false);
            && first == SeekResult(m, a, a)
            && second == SeekResult(m, a + b, a + b) == LlseekResult(n, m, pos, a + b, 0, false)
            && LlseekResult(n, second.m, second.pos, 0 - b, 1, false) == first
  {
  }

  /** SEEK_END is SEEK_SET counted from the end of the contents, for every offset, past the end too. */
  lemma SeekEndIsSet(n: nat, m: Model, pos: int, off: int)
    requires |Contents(n, m)| < LOFF_LIMIT && -LOFF_LIMIT <= off && |Contents(n, m)| + off < LOFF_LIMIT
    ensures LlseekResult(n, m, pos, off, 2, false) == LlseekResult(n, m, pos, |Contents(n, m)| + off, 0, false)
  {
  }

  /** Any llseek that does not succeed leaves the position and the data alone. */
  lemma FailedLlseekKeeps(n: nat, m: Model, pos: int, off: int, whence: int, interrupted: bool)
    ensures var r := LlseekResult(n, m, pos, off, whence, interrupted);
            && (r.ret < 0 ==> r.ret == -EINVAL && r.pos == pos
                              && (r.m == if interrupted then m else m.(locked := true)))
            && (r.ret >= 0 ==> r.m == m && r.pos == r.ret)
            && (interrupted ==> r.ret < 0)
  {
  }

  // ---------------------------------------------------------------- aesd_ioctl

  /** A seek command the driver does not carry out, by its arguments, the kernel's part and the ring. */
  predicate NotCarriedOut(n: nat, m: Model, known: bool, k: nat, off: nat, interrupted: bool, copyFails: bool) {
    !known || copyFails || interrupted || CommandTarget(n, m, k, off) == None
  }

  /**
    Every error of the seek command, each exactly when, and that it leaves device and position
    as they were.  A seek that is carried out puts the position it answers with, even one that
    is negative after wrapping.
   */
  lemma IoctlAnswers(n: nat, m: Model, pos: int, known: bool, k: nat, off: nat, interrupted: bool, copyFails: bool)
    ensures var r := IoctlResult(n, m, pos, known, k, off, interrupted, copyFails);
            && r.m == m
            && (NotCarriedOut(n, m, known, k, off, interrupted, copyFails) ==>
                  && r.pos == pos
                  && r.ret == if !known then -ENOTTY else if copyFails then -EFAULT else -EINVAL)
            && (!NotCarriedOut(n, m, known, k, off, interrupted, copyFails) ==>
                  CommandTarget(n, m, k, off) == Some(r.ret) && r.pos == r.ret)
  {
  }

  // ---------------------------------------------------------------- calls on a device whose lock was kept

  /** The call fails: it answers with an error and leaves its file position alone. */
  predicate Fails(n: nat, s: Sys, op: Op)
    requires n > 0 && Enabled(n, s, op)
  {
    Apply(n, s, op).ret < 0 && Apply(n, s, op).data == [] && Apply(n, s, op).sys == s
  }

  /** Every call of the run that is not an open or a close fails. */
  predicate AllFail(n: nat, s: Sys, ops: seq<Op>)
    requires n > 0 && Legal(n, s, ops)
    decreases |ops|
  {
    ops == [] ||
    ((ops[0].Open? || ops[0].Release? || Fails(n, s, ops[0])) && AllFail(n, Apply(n, s, ops[0]).sys, ops[1..]))
  }

  lemma LockedCallFails(n: nat, s: Sys, op: Op)
    requires n > 0 && Enabled(n, s, op) && s.dev.locked && !op.Open? && !op.Release?
    ensures Fails(n, s, op)
  {
    var p := s.pos[op.h];
    assert s.pos[op.h := p] == s.pos;
    match op
    case Read(h, count, interrupted, copyFails) => ReadAnswers(n, s.dev, p, count, interrupted, copyFails);
    case Write(h, buf, env) => WriteAnswers(n, s.dev, p, buf, env);
    case Llseek(h, off, whence, interrupted) => FailedLlseekKeeps(n, s.dev, p, off, whence, interrupted);
    case Ioctl(h, known, k, off, interrupted, copyFails) =>
      IoctlAnswers(n, s.dev, p, known, k, off, interrupted, copyFails);
  }

  /**
    Once an exit has kept the lock, the device is dead: whatever is called afterwards, no read,
    write or seek returns anything but an error, and the device never changes again.
   */
  lemma {:induction false} KeptLockStopsDevice(n: nat, s: Sys, ops: seq<Op>)
    requires n > 0 && Legal(n, s, ops) && s.dev.locked
    ensures AllFail(n, s, ops) && Run(n, s, ops).dev == s.dev
    decreases |ops|
  {
    if ops != [] {
      if !ops[0].Open? && !ops[0].Release? {
        LockedCallFails(n, s, ops[0]);
      }
      KeptLockStopsDevice(n, Apply(n, s, ops[0]).sys, ops[1..]);
    }
  }

  /** While the lock is kept, a call returns exactly if it never gets as far as taking it. */
  lemma KeptLockAdmits(n: nat, s: Sys, op: Op)
    requires n > 0 && s.dev.locked && op.h in s.pos && !op.Open?
    requires op.Write? ==> EnvOk(n, s.dev, op.buf, op.env)
    requires op.Llseek? ==> -LOFF_LIMIT <= op.off < LOFF_LIMIT
    requires op.Ioctl? ==> CommandDefined(n, s.dev, op.cmd)
    ensures Enabled(n, s, op) <==>
            match op
            case Open(_) => false
            case Release(_) => true
            case Read(h, count, interrupted, _) => s.pos[h] < 0 || count == 0 || interrupted
            case Write(h, buf, env) => s.pos[h] < 0 || |buf| == 0 || env.interrupted
            case Llseek(_, _, _, interrupted) => interrupted
            case Ioctl(_, known, _, _, interrupted, copyFails) => !known || copyFails || interrupted
  {
  }

  /** While the lock is free, an open handle can be used for every call whose arguments make sense. */
  lemma FreeLockAdmits(n: nat, s: Sys, op: Op)
    requires n > 0 && !s.dev.locked && !op.Open?
    ensures Enabled(n, s, op) <==>
            && op.h in s.pos
            && (op.Write? ==> EnvOk(n, s.dev, op.buf, op.env))
            && (op.Llseek? ==> -LOFF_LIMIT <= op.off < LOFF_LIMIT)
            && (op.Ioctl? ==> CommandDefined(n, s.dev, op.cmd))
  {
  }
}
