/** What aesd_read and the two seeks mean in terms of the command stream. */
module DeviceReads {
  import opened Bytes
  import opened CircularBuffer
  import opened DeviceSpec
  import opened DeviceWrites

  // ---------------------------------------------------------------- aesd_read

  /**
    A successful read at p returns the bytes of the history that start p bytes after the
    evicted ones, at least one byte and never more than asked for.
   */
  lemma ReadIsStream(n: nat, m: Model, pos: int, count: nat, interrupted: bool, copyFails: bool)
    requires ReadResult(n, m, pos, count, interrupted, copyFails).ret > 0
    ensures var r := ReadResult(n, m, pos, count, interrupted, copyFails);
            var start := EvictedBytes(n, m) + pos;
            && r.ret <= count
            && r.pos == pos + r.ret <= |Contents(n, m)|
            && start + r.ret <= |History(m)|
            && r.data == Contents(n, m)[pos..pos + r.ret] == History(m)[start..start + r.ret]
  {
    EntriesMeasureContents(Window(n, m));
    HistoryIsGoneThenContents(n, m);
  }

  /** With valid arguments and no fault, end of file is reported exactly at or past the end. */
  lemma ReadEndsAtEnd(n: nat, m: Model, pos: int, count: nat)
    requires TakesLockToRead(pos, count)
    ensures ReadResult(n, m, pos, count, false, false).ret >= 0
    ensures ReadResult(n, m, pos, count, false, false).ret == 0 <==> pos >= |Contents(n, m)|
  {
    EntriesMeasureContents(Window(n, m));
  }

  lemma ReadLengthAt(es: seq<Entry>, off: nat, k: nat, count: nat)
    requires k < |es| && Sum(es, k) <= off < Sum(es, k + 1)
    ensures off < Total(es)
    ensures ReadLength(es, off, count) == if Sum(es, k + 1) - off < count then Sum(es, k + 1) - off else count
  {
    LocateAt(es, off, k);
  }

  /** A read that starts inside live command k takes bytes of that command, and stops at its end. */
  lemma ReadStopsAtEntry(n: nat, m: Model, k: nat, p: nat, count: nat)
    requires count > 0 && k < |Window(n, m)|
    requires Sum(Entries(Window(n, m)), k) <= p < Sum(Entries(Window(n, m)), k + 1)
    ensures var w := Window(n, m);
            var b := p - Sum(Entries(w), k);
            var r := ReadResult(n, m, p, count, false, false);
            && r.ret == (if |w[k].data| - b < count then |w[k].data| - b else count)
            && r.data == w[k].data[b..b + r.ret]
  {
    var w := Window(n, m);
    EntriesMeasureContents(w);
    ReadLengthAt(Entries(w), p, k, count);
    var b := p - Sum(Entries(w), k);
    ContentsOfBlock(w, k, b, b + ReadLength(Entries(w), p, count));
  }

  /** Repeated reads through one handle of an otherwise idle device. */
  function ReadOn(n: nat, m: Model, pos: nat, counts: seq<nat>): seq<byte>
    decreases |counts|
  {
    if counts == [] then []
    else
      var r := ReadResult(n, m, pos, counts[0], false, false);
      if r.ret <= 0 then [] else r.data + ReadOn(n, m, r.pos, counts[1..])
  }

  lemma ReadOnStep(n: nat, m: Model, pos: nat, counts: seq<nat>)
    requires pos <= |Contents(n, m)| && counts != [] && counts[0] > 0
    ensures var c := Contents(n, m);
            var q := ReadResult(n, m, pos, counts[0], false, false).pos;
            if pos == |c| then ReadOn(n, m, pos, counts) == []
            else pos < q <= |c| && ReadOn(n, m, pos, counts) == c[pos..q] + ReadOn(n, m, q, counts[1..])
  {
    ReadEndsAtEnd(n, m, pos, counts[0]);
    if pos < |Contents(n, m)| {
      ReadIsStream(n, m, pos, counts[0], false, false);
    }
  }

  /**
    The pieces are consecutive, and once there are as many reads as bytes left they are
    everything from the start position on, whatever the counts.
   */
  lemma {:induction false} ReadToEnd(n: nat, m: Model, pos: nat, counts: seq<nat>)
    requires pos <= |Contents(n, m)|
    requires forall i :: 0 <= i < |counts| ==> counts[i] > 0
    ensures ReadOn(n, m, pos, counts) <= Contents(n, m)[pos..]
    ensures |counts| >= |Contents(n, m)| - pos ==> ReadOn(n, m, pos, counts) == Contents(n, m)[pos..]
    decreases |counts|
  {
    if counts != [] {
      ReadOnStep(n, m, pos, counts);
      if pos < |Contents(n, m)| {
        var q := ReadResult(n, m, pos, counts[0], false, false).pos;
        ReadToEnd(n, m, q, counts[1..]);
        JoinPieces(Contents(n, m), pos, q, ReadOn(n, m, q, counts[1..]));
      }
    }
  }

  lemma JoinPieces<T>(s: seq<T>, i: nat, j: nat, rest: seq<T>)
    requires i <= j <= |s| && rest <= s[j..]
    ensures s[i..j] + rest <= s[i..]
    ensures rest == s[j..] ==> s[i..j] + rest == s[i..]
  {
  }

  // ---------------------------------------------------------------- SEEK_END

  lemma SeekEndTarget(n: nat, m: Model, pos: int, k: nat)
    requires k <= |Contents(n, m)| < LOFF_LIMIT
    ensures var p := |Contents(n, m)| - k;
            LlseekResult(n, m, pos, 0 - k, SEEK_END, false) == SeekResult(m, p, p)
  {
  }

  /** SEEK_END with offset -k goes to the last k bytes, and reading on from there yields them. */
  lemma SeekEndReadsTail(n: nat, m: Model, pos: int, k: nat, counts: seq<nat>)
    requires k <= |Contents(n, m)| < LOFF_LIMIT
    requires |counts| >= k && forall i :: 0 <= i < |counts| ==> counts[i] > 0
    ensures var s := LlseekResult(n, m, pos, 0 - k, SEEK_END, false);
            && s.m == m && s.ret == s.pos == |Contents(n, m)| - k
            && ReadOn(n, m, |Contents(n, m)| - k, counts) == LastN(k, Contents(n, m))
  {
    SeekEndTarget(n, m, pos, k);
    ReadToEnd(n, m, |Contents(n, m)| - k, counts);
  }

  // ---------------------------------------------------------------- AESDCHAR_IOCSEEKTO

  /** The source adds up sizes entry by entry, going round; this is what one step adds. */
  lemma {:induction false} CommandStartStep(es: seq<Entry>, k: nat)
    requires |es| > 0
    ensures CommandStart(es, k + 1) == CommandStart(es, k) + es[Pos(k, |es|)].size
  {
    if k >= |es| {
      CommandStartStep(es, k - |es|);
    } else if k == |es| - 1 {
      assert CommandStart(es, 0) == 0;
    }
  }

  /** Whole turns count for the whole total. */
  lemma {:induction false} CommandStartClosed(es: seq<Entry>, k: nat)
    requires |es| > 0
    ensures CommandStart(es, k) == (k / |es|) * Total(es) + Sum(es, k % |es|)
  {
    if k < |es| {
      DivModUnique(k, 0, k, |es|);
    } else {
      CommandStartClosed(es, k - |es|);
      var q, r := (k - |es|) / |es|, (k - |es|) % |es|;
      assert k - |es| == q * |es| + r;
      OneMoreTurn(q, |es|);
      DivModUnique(k, q + 1, r, |es|);
      OneMoreTurn(q, Total(es));
    }
  }

  lemma OneMoreTurn(q: int, total: nat)
    ensures (q + 1) * total == q * total + total
  {
  }

  lemma TargetLive(n: nat, m: Model, k: nat, off: nat)
    requires k < |Window(n, m)| && |Contents(n, m)| < LOFF_LIMIT
    ensures var w := Window(n, m);
            && CommandTarget(n, m, k, off) ==
                 (if off <= |w[k].data| then Some(Sum(Entries(w), k) + off) else None)
            && Sum(Entries(w), k) + |w[k].data| == Sum(Entries(w), k + 1) <= |Contents(n, m)|
  {
    var w := Window(n, m);
    var es := Entries(w);
    EntriesMeasureContents(w);
    SumMonotone(es, k + 1, |es|);
  }

  /**
    Seek and lookup are inverse: seeking to byte off of live command k goes to the flat
    position p at which the lookup finds entry k, byte off.
   */
  lemma SeekLookupInverse(n: nat, m: Model, k: nat, off: nat, p: nat)
    requires |Contents(n, m)| < LOFF_LIMIT
    requires k < |Window(n, m)| && off < |Window(n, m)[k].data|
    ensures CommandTarget(n, m, k, off) == Some(p) ==>
              var es := Entries(Window(n, m));
              && p < |Contents(n, m)| && Locate(es, p) == k && p - Sum(es, k) == off
    ensures CommandTarget(n, m, k, off).Some?
  {
    TargetLive(n, m, k, off);
    if CommandTarget(n, m, k, off) == Some(p) {
      LocateAt(Entries(Window(n, m)), p, k);
    }
  }

  /** Every readable position is the target of a live command and a byte inside it ... */
  lemma SeekReachesEveryPosition(n: nat, m: Model, p: nat)
    requires p < |Contents(n, m)| < LOFF_LIMIT
    ensures var w := Window(n, m);
            var k := Locate(Entries(w), p);
            && k < |w| && 0 <= p - Sum(Entries(w), k) < |w[k].data|
            && CommandTarget(n, m, k, p - Sum(Entries(w), k)) == Some(p)
  {
    EntriesMeasureContents(Window(n, m));
    var es := Entries(Window(n, m));
    TargetLive(n, m, Locate(es, p), p - Sum(es, Locate(es, p)));
  }

  /** ... and of only one such pair. */
  lemma SeekIsInjective(n: nat, m: Model, k: nat, off: nat, k': nat, off': nat)
    requires |Contents(n, m)| < LOFF_LIMIT
    requires k < |Window(n, m)| && off < |Window(n, m)[k].data|
    requires k' < |Window(n, m)| && off' < |Window(n, m)[k'].data|
    requires CommandTarget(n, m, k, off) == CommandTarget(n, m, k', off')
    ensures k == k' && off == off'
  {
    TargetLive(n, m, k, off);
    var p := CommandTarget(n, m, k, off).value;
    SeekLookupInverse(n, m, k, off, p);
    SeekLookupInverse(n, m, k', off', p);
  }

  /** Within the live commands a seek stays in the contents, and the end of one is the start of the next. */
  lemma SeekWithinLive(n: nat, m: Model, k: nat, off: nat)
    requires |Contents(n, m)| < LOFF_LIMIT && k < |Window(n, m)|
    ensures CommandTarget(n, m, k, off).Some? <==> off <= |Window(n, m)[k].data|
    ensures CommandTarget(n, m, k, off).Some? ==> 0 <= CommandTarget(n, m, k, off).value <= |Contents(n, m)|
    ensures k + 1 < |Window(n, m)| ==>
              CommandTarget(n, m, k, |Window(n, m)[k].data|) == CommandTarget(n, m, k + 1, 0)
  {
    TargetLive(n, m, k, off);
    TargetLive(n, m, k, |Window(n, m)[k].data|);
    if k + 1 < |Window(n, m)| {
      TargetLive(n, m, k + 1, 0);
    }
  }

  /**
    Beyond the live commands: refused on a ring that is not full; on a full one the command
    is looked up modulo n, and the exact position is past the end by whole turns.  The next
    read reports end of file exactly when that position, converted to a loff_t, is still at
    or past the end; it always is when the exact position fits.
   */
  lemma SeekBeyondLive(n: nat, m: Model, k: nat, off: nat, count: nat)
    requires n > 0 && k >= |Window(n, m)| && count > 0
    ensures |m.commits| < n ==> CommandTarget(n, m, k, off) == None
    ensures |m.commits| >= n ==>
              var w := Window(n, m);
              (CommandTarget(n, m, k, off).Some? <==> off <= |w[Pos(k, n)].data|)
    ensures CommandTarget(n, m, k, off).Some? ==>
              var exact := CommandStart(Entries(Window(n, m)), k) + off;
              var p := CommandTarget(n, m, k, off).value;
              && exact >= |Contents(n, m)|
              && p == ToLoff(exact)
              && (exact < LOFF_LIMIT ==> p == exact)
              && (ReadResult(n, m, p, count, false, false).ret == 0 <==> p >= |Contents(n, m)|)
  {
    EntriesMeasureContents(Window(n, m));
    if CommandTarget(n, m, k, off).Some? && CommandTarget(n, m, k, off).value >= 0 {
      ReadEndsAtEnd(n, m, CommandTarget(n, m, k, off).value, count);
    }
  }

  /**
    The command seek for every index: accepted exactly when the ring is full or the command
    is live, and the offset is at most the size of command k modulo the number of live
    commands; the position is then whole turns plus the sizes before that command plus the
    offset, in 64 bits.
   */
  lemma SeekExact(n: nat, m: Model, k: nat, off: nat)
    requires n > 0
    ensures var w := Window(n, m);
            CommandTarget(n, m, k, off) ==
              if |w| > 0 && (|m.commits| >= n || k < |w|) && off <= |w[k % |w|].data|
              then Some(ToLoff((k / |w|) * |Contents(n, m)| + Sum(Entries(w), k % |w|) + off))
              else None
  {
    var w := Window(n, m);
    if |w| > 0 {
      PosIsMod(k, |w|);
      CommandStartClosed(Entries(w), k);
      EntriesMeasureContents(w);
    }
  }
}
