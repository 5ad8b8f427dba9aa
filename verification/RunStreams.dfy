/** Whole runs seen from the outside: what writers put in, what readers get out. */
module RunStreams {
  import opened Bytes
  import opened CircularBuffer
  import opened Lines
  import opened DeviceSpec
  import opened DeviceWrites
  import opened DeviceReads
  import opened Runs
  import opened CallOutcomes

  // ---------------------------------------------------------------- writers

  /** What one call adds to the accepted bytes: buf[..r] for a write that returns r > 0. */
  function StepAccepts(op: Op, ret: int): seq<seq<byte>> {
    if op.Write? && ret > 0 then [Taken(op.buf, ret)] else []
  }

  /** The accepted pieces of a run, in the order the calls took the lock. */
  function Accepted(n: nat, s: Sys, ops: seq<Op>): seq<seq<byte>>
    requires n > 0 && Legal(n, s, ops)
    decreases |ops|
  {
    if ops == [] then []
    else
      var r := Apply(n, s, ops[0]);
      StepAccepts(ops[0], r.ret) + Accepted(n, r.sys, ops[1..])
  }

  lemma StepFeeds(n: nat, s: Sys, op: Op)
    requires Inv(n, s.dev) && Enabled(n, s, op) && Tight(s.dev) && !StepLosesBuffer(s, op)
    ensures var r := Apply(n, s, op);
            Tight(r.sys.dev) && AssemblyOf(r.sys.dev) == FeedAll(AssemblyOf(s.dev), StepAccepts(op, r.ret))
  {
    if op.Write? {
      TightWriteFeeds(n, s.dev, s.pos[op.h], op.buf, op.env);
      var r := Apply(n, s, op);
      if r.ret > 0 {
        FeedOne(AssemblyOf(s.dev), Taken(op.buf, r.ret));
      }
    } else {
      OnlyWritesChange(n, s, op);
      LockAside(n, s.dev);
    }
  }

  lemma FeedOne(a: Assembly, buf: seq<byte>)
    ensures FeedAll(a, [buf]) == Feed(a, buf)
  {
    assert [buf][1..] == [];
  }

  /** The state a run ends in is a function of the accepted pieces alone. */
  lemma {:induction false} RunFeeds(n: nat, s: Sys, ops: seq<Op>)
    requires Inv(n, s.dev) && Legal(n, s, ops) && Tight(s.dev) && !LosesBufferIn(n, s, ops)
    ensures Tight(Run(n, s, ops).dev)
    ensures AssemblyOf(Run(n, s, ops).dev) == FeedAll(AssemblyOf(s.dev), Accepted(n, s, ops))
    decreases |ops|
  {
    if ops != [] {
      var r := Apply(n, s, ops[0]);
      StepKeepsInv(n, s, ops[0]);
      StepFeeds(n, s, ops[0]);
      RunFeeds(n, r.sys, ops[1..]);
      FeedAllAppend(AssemblyOf(s.dev), StepAccepts(ops[0], r.ret), Accepted(n, r.sys, ops[1..]));
    }
  }

  /**
    Conservation of bytes: over any run in which krealloc does not fail on a pending buffer,
    the committed commands followed by the pending bytes are the accepted bytes, in order.
   */
  lemma Conservation(n: nat, ops: seq<Op>)
    requires n > 0 && Legal(n, START, ops) && !LosesBufferIn(n, START, ops)
    ensures var m := Run(n, START, ops).dev;
            History(m) + Pending(m) == Concat(Accepted(n, START, ops))
  {
    FreshIsValid(n);
    RunFeeds(n, START, ops);
    FeedAllConserves(NOTHING, Accepted(n, START, ops));
    NothingAppended(Concat(Accepted(n, START, ops)));
    NothingAppended<byte>([]);
  }

  /**
    Exactly which writes conserve the stream, in every state the device can be in: krealloc
    must not fail on a pending buffer, and once a buffer has been lost the next write that
    gets one puts uninitialised bytes into the stream.
   */
  lemma WriteConservesIff(n: nat, m: Model, pos: int, buf: seq<byte>, env: WriteEnv)
    requires Inv(n, m) && EnvOk(n, m, buf, env)
    ensures var r := WriteResult(n, m, pos, buf, env);
            Stream(AssemblyOf(r.m)) == Stream(AssemblyOf(m)) + Taken(buf, r.ret)
            <==> !LosesBuffer(m, pos, buf, env)
                 && (Tight(m) || !(ReachesKrealloc(pos, buf, env) && env.grown != NULL))
  {
    var r := WriteResult(n, m, pos, buf, env);
    WriteFeeds(n, m, pos, buf, env);
    FoundWhenTight(n, m, env.junk);
    if r.ret > 0 {
      FeedConserves(Found(m, env.junk), Taken(buf, r.ret));
    } else {
      NothingAppended(Stream(AssemblyOf(m)));
      assert LosesBuffer(m, pos, buf, env) ==> |Pending(m)| > 0;
    }
  }

  /** At every moment of the run, commits and pending bytes are what has been accepted, acc before it. */
  predicate ConservedIn(n: nat, s: Sys, ops: seq<Op>, acc: seq<byte>)
    requires n > 0 && Legal(n, s, ops)
    decreases |ops|
  {
    && Stream(AssemblyOf(s.dev)) == acc
    && (ops == [] ||
        var r := Apply(n, s, ops[0]);
        ConservedIn(n, r.sys, ops[1..], acc + Concat(StepAccepts(ops[0], r.ret))))
  }

  lemma StepConservesIff(n: nat, s: Sys, op: Op)
    requires Inv(n, s.dev) && Enabled(n, s, op) && Tight(s.dev)
    ensures var r := Apply(n, s, op);
            && (Stream(AssemblyOf(r.sys.dev)) == Stream(AssemblyOf(s.dev)) + Concat(StepAccepts(op, r.ret))
                <==> !StepLosesBuffer(s, op))
            && (!StepLosesBuffer(s, op) ==> Tight(r.sys.dev))
  {
    if op.Write? {
      WriteConservesIff(n, s.dev, s.pos[op.h], op.buf, op.env);
      WriteFeeds(n, s.dev, s.pos[op.h], op.buf, op.env);
      ConcatOne(Taken(op.buf, Apply(n, s, op).ret));
    } else {
      OnlyWritesChange(n, s, op);
      LockAside(n, s.dev);
      NothingAppended(Stream(AssemblyOf(s.dev)));
    }
  }

  lemma {:induction false} RunConservesIff(n: nat, s: Sys, ops: seq<Op>, acc: seq<byte>)
    requires Inv(n, s.dev) && Legal(n, s, ops) && Tight(s.dev) && Stream(AssemblyOf(s.dev)) == acc
    ensures ConservedIn(n, s, ops, acc) <==> !LosesBufferIn(n, s, ops)
    decreases |ops|
  {
    if ops != [] {
      var r := Apply(n, s, ops[0]);
      StepKeepsInv(n, s, ops[0]);
      StepConservesIff(n, s, ops[0]);
      if !StepLosesBuffer(s, ops[0]) {
        RunConservesIff(n, r.sys, ops[1..], acc + Concat(StepAccepts(ops[0], r.ret)));
      }
    }
  }

  /**
    Exactly which runs conserve every byte: the stream is the accepted bytes at every moment
    if and only if krealloc never fails on a pending buffer.
   */
  lemma ConservationIff(n: nat, ops: seq<Op>)
    requires n > 0 && Legal(n, START, ops)
    ensures ConservedIn(n, START, ops, []) <==> !LosesBufferIn(n, START, ops)
  {
    FreshIsValid(n);
    RunConservesIff(n, START, ops, []);
  }

  /**
    Exactly when a run commits the lines of what it accepted: no accepted piece may hold a
    second newline, since the driver does not look behind the first.
   */
  lemma CommitsAreLines(n: nat, ops: seq<Op>)
    requires n > 0 && Legal(n, START, ops) && !LosesBufferIn(n, START, ops)
    ensures AssemblyOf(Run(n, START, ops).dev) == Split(Concat(Accepted(n, START, ops)))
            <==> AtMostOneNewlineEach(Accepted(n, START, ops))
  {
    FreshIsValid(n);
    RunFeeds(n, START, ops);
    AssemblyIsSplit(Accepted(n, START, ops));
  }

  /** At every moment of the run, commits and pending bytes are the lines and tail of what was accepted. */
  predicate LinesIn(n: nat, s: Sys, ops: seq<Op>, acc: seq<byte>)
    requires n > 0 && Legal(n, s, ops)
    decreases |ops|
  {
    && AssemblyOf(s.dev) == Split(acc)
    && (ops == [] ||
        var r := Apply(n, s, ops[0]);
        LinesIn(n, r.sys, ops[1..], acc + Concat(StepAccepts(ops[0], r.ret))))
  }

  lemma {:induction false} LinesAreConserved(n: nat, s: Sys, ops: seq<Op>, acc: seq<byte>)
    requires n > 0 && Legal(n, s, ops) && LinesIn(n, s, ops, acc)
    ensures ConservedIn(n, s, ops, acc)
    ensures AssemblyOf(Run(n, s, ops).dev) == Split(acc + Concat(Accepted(n, s, ops)))
    decreases |ops|
  {
    SplitConserves(acc);
    if ops == [] {
      NothingAppended(acc);
    } else {
      var r := Apply(n, s, ops[0]);
      var step, rest := StepAccepts(ops[0], r.ret), Accepted(n, r.sys, ops[1..]);
      LinesAreConserved(n, r.sys, ops[1..], acc + Concat(step));
      ConcatAppend(step, rest);
      Assoc(acc, Concat(step), Concat(rest));
    }
  }

  lemma {:induction false} SplitStaysSplit(n: nat, s: Sys, ops: seq<Op>, acc: seq<byte>)
    requires Inv(n, s.dev) && Legal(n, s, ops) && Tight(s.dev) && !LosesBufferIn(n, s, ops)
    requires AssemblyOf(s.dev) == Split(acc) && AtMostOneNewlineEach(Accepted(n, s, ops))
    ensures LinesIn(n, s, ops, acc)
    decreases |ops|
  {
    if ops != [] {
      var r := Apply(n, s, ops[0]);
      var step, rest := StepAccepts(ops[0], r.ret), Accepted(n, r.sys, ops[1..]);
      assert forall i :: 0 <= i < |step| ==> step[i] == (step + rest)[i];
      assert forall i :: 0 <= i < |rest| ==> rest[i] == (step + rest)[|step| + i];
      StepKeepsInv(n, s, ops[0]);
      StepFeeds(n, s, ops[0]);
      FeedAllSplits(AssemblyOf(s.dev), acc, step);
      SplitStaysSplit(n, r.sys, ops[1..], acc + Concat(step));
    }
  }

  /**
    Exactly which runs commit lines, without any hypothesis on the run: at every moment the
    commits and pending bytes are the lines and tail of the accepted stream if and only if
    krealloc never fails on a pending buffer and no accepted piece holds two newlines.
   */
  lemma LinesIff(n: nat, ops: seq<Op>)
    requires n > 0 && Legal(n, START, ops)
    ensures LinesIn(n, START, ops, [])
            <==> !LosesBufferIn(n, START, ops) && AtMostOneNewlineEach(Accepted(n, START, ops))
  {
    FreshIsValid(n);
    ConservationIff(n, ops);
    NothingAppended(Concat(Accepted(n, START, ops)));
    assert Split([]) == NOTHING;
    if LinesIn(n, START, ops, []) {
      LinesAreConserved(n, START, ops, []);
      CommitsAreLines(n, ops);
    } else if !LosesBufferIn(n, START, ops) && AtMostOneNewlineEach(Accepted(n, START, ops)) {
      SplitStaysSplit(n, START, ops, []);
    }
  }

  lemma ContentsFromAssembly(n: nat, m: Model)
    ensures Contents(n, m) == Concat(LastN(n, AssemblyOf(m).lines))
  {
    assert Datas(Window(n, m)) == LastN(n, Datas(m.commits));
  }

  /**
    Chunking does not matter: two runs that accept the same stream, each in pieces with at
    most one newline, end with the same readable contents and the same pending bytes,
    namely the last n lines of the stream and its unterminated tail.
   */
  lemma ChunkingIndependence(n: nat, ops: seq<Op>, ops': seq<Op>)
    requires n > 0 && Legal(n, START, ops) && !LosesBufferIn(n, START, ops)
    requires Legal(n, START, ops') && !LosesBufferIn(n, START, ops')
    requires AtMostOneNewlineEach(Accepted(n, START, ops))
    requires AtMostOneNewlineEach(Accepted(n, START, ops'))
    requires Concat(Accepted(n, START, ops)) == Concat(Accepted(n, START, ops'))
    ensures var m, m' := Run(n, START, ops).dev, Run(n, START, ops').dev;
            var split := Split(Concat(Accepted(n, START, ops)));
            && Datas(Window(n, m)) == Datas(Window(n, m')) == LastN(n, split.lines)
            && Contents(n, m) == Contents(n, m') == Concat(LastN(n, split.lines))
            && Pending(m) == Pending(m') == split.tail
  {
    RunEndsInLines(n, ops);
    RunEndsInLines(n, ops');
  }

  /** The last n lines of what was accepted are readable, the tail is pending. */
  lemma RunEndsInLines(n: nat, ops: seq<Op>)
    requires n > 0 && Legal(n, START, ops) && !LosesBufferIn(n, START, ops)
    requires AtMostOneNewlineEach(Accepted(n, START, ops))
    ensures var m, split := Run(n, START, ops).dev, Split(Concat(Accepted(n, START, ops)));
            && Datas(Window(n, m)) == LastN(n, split.lines)
            && Contents(n, m) == Concat(LastN(n, split.lines))
            && Pending(m) == split.tail
  {
    CommitsAreLines(n, ops);
    var m := Run(n, START, ops).dev;
    ContentsFromAssembly(n, m);
    assert Datas(Window(n, m)) == LastN(n, AssemblyOf(m).lines);
  }

  // ---------------------------------------------------------------- byte counts survive every failure

  lemma WriteCounts(n: nat, m: Model, pos: int, buf: seq<byte>, env: WriteEnv)
    requires Inv(n, m) && EnvOk(n, m, buf, env)
    ensures var r := WriteResult(n, m, pos, buf, env);
            |History(r.m)| + r.m.cur.size == |History(m)| + m.cur.size + |Taken(buf, r.ret)|
  {
    if ReachesKrealloc(pos, buf, env) && env.grown != NULL {
      var c := ChunkLength(buf);
      var g := Grown(m, buf[..c], env);
      GrownKeeps(n, m, buf, env);
      if HasNewline(buf) {
        HistoryStep(g, Block(g.cur.buffptr, Pending(g)));
      }
    }
  }

  /**
    Even through failed krealloc calls, committed bytes plus the pending size count exactly
    the bytes reported as written.
   */
  lemma {:induction false} CountsAgree(n: nat, s: Sys, ops: seq<Op>)
    requires Inv(n, s.dev) && Legal(n, s, ops)
    ensures var m := Run(n, s, ops).dev;
            |History(m)| + m.cur.size == |History(s.dev)| + s.dev.cur.size + |Concat(Accepted(n, s, ops))|
    decreases |ops|
  {
    if ops != [] {
      var r := Apply(n, s, ops[0]);
      StepKeepsInv(n, s, ops[0]);
      CountsAgree(n, r.sys, ops[1..]);
      ConcatAppend(StepAccepts(ops[0], r.ret), Accepted(n, r.sys, ops[1..]));
      if ops[0].Write? {
        WriteCounts(n, s.dev, s.pos[ops[0].h], ops[0].buf, ops[0].env);
        ConcatOne(Taken(ops[0].buf, r.ret));
      } else {
        OnlyWritesChange(n, s, ops[0]);
      }
    }
  }

  // ---------------------------------------------------------------- readers

  /** A successful read, placed in the stream of all committed bytes. */
  datatype Span = Span(start: nat, evicted: nat, data: seq<byte>)

  function StepSpans(n: nat, s: Sys, op: Op, h: Handle): seq<Span>
    requires n > 0 && Enabled(n, s, op)
  {
    if op.Read? && op.h == h && Apply(n, s, op).ret > 0 then
      [Span(EvictedBytes(n, s.dev) + s.pos[h], EvictedBytes(n, s.dev), Apply(n, s, op).data)]
    else []
  }

  /** The successful reads through handle h in a run. */
  function Spans(n: nat, s: Sys, ops: seq<Op>, h: Handle): seq<Span>
    requires n > 0 && Legal(n, s, ops)
    decreases |ops|
  {
    if ops == [] then []
    else StepSpans(n, s, ops[0], h) + Spans(n, Apply(n, s, ops[0]).sys, ops[1..], h)
  }

  /** The call gives handle h a position: it opens or closes h, or is a seek through h that is carried out. */
  predicate Repositions(n: nat, s: Sys, op: Op, h: Handle)
    requires n > 0 && Enabled(n, s, op)
  {
    op.h == h &&
    match op
    case Open(_) => true
    case Release(_) => true
    case Read(_, _, _, _) => false
    case Write(_, _, _) => false
    case Llseek(_, _, _, _) => Apply(n, s, op).ret >= 0
    case Ioctl(_, known, cmd, cmdOff, interrupted, copyFails) =>
      !NotCarriedOut(n, s.dev, known, cmd, cmdOff, interrupted, copyFails)
  }

  /** The run reads and writes through h, and may try seeks through it that fail. */
  predicate NeverRepositions(n: nat, s: Sys, ops: seq<Op>, h: Handle)
    requires n > 0 && Legal(n, s, ops)
    decreases |ops|
  {
    ops == [] || (!Repositions(n, s, ops[0], h) && NeverRepositions(n, Apply(n, s, ops[0]).sys, ops[1..], h))
  }

  lemma CommitsExtendHistory(n: nat, m: Model, d: Model)
    requires n > 0 && m.commits <= d.commits && |d.commits| <= |m.commits| + 1
    ensures History(m) <= History(d) && EvictedBytes(n, m) <= EvictedBytes(n, d)
  {
    if |d.commits| == |m.commits| {
      assert d.commits == m.commits;
    } else {
      var b := d.commits[|m.commits|];
      assert d.commits == m.commits + [b];
      HistoryStep(m, b);
      ContentsStep(n, m, d, b);
    }
  }

  lemma WriteExtendsCommits(n: nat, m: Model, pos: int, buf: seq<byte>, env: WriteEnv)
    requires n > 0 && EnvOk(n, m, buf, env)
    ensures var d := WriteResult(n, m, pos, buf, env).m;
            m.commits <= d.commits && |d.commits| <= |m.commits| + 1
  {
  }

  lemma StepExtendsHistory(n: nat, s: Sys, op: Op)
    requires Inv(n, s.dev) && Enabled(n, s, op)
    ensures var d := Apply(n, s, op).sys.dev;
            History(s.dev) <= History(d) && EvictedBytes(n, s.dev) <= EvictedBytes(n, d)
  {
    if op.Write? {
      WriteExtendsCommits(n, s.dev, s.pos[op.h], op.buf, op.env);
      CommitsExtendHistory(n, s.dev, Apply(n, s, op).sys.dev);
    } else {
      OnlyWritesChange(n, s, op);
    }
  }

  lemma {:induction false} RunExtendsHistory(n: nat, s: Sys, ops: seq<Op>)
    requires Inv(n, s.dev) && Legal(n, s, ops)
    ensures History(s.dev) <= History(Run(n, s, ops).dev)
    ensures EvictedBytes(n, s.dev) <= EvictedBytes(n, Run(n, s, ops).dev)
    decreases |ops|
  {
    if ops != [] {
      StepKeepsInv(n, s, ops[0]);
      StepExtendsHistory(n, s, ops[0]);
      RunExtendsHistory(n, Apply(n, s, ops[0]).sys, ops[1..]);
    }
  }

  /** A span is the bytes of the stream `all` from its start. */
  predicate OfStream(span: Span, all: seq<byte>) {
    span.start + |span.data| <= |all| && span.data == all[span.start..span.start + |span.data|]
  }

  /** The spans lie one behind the other; the gaps are the bytes evicted in between. */
  predicate InSequence(start: nat, evicted: nat, spans: seq<Span>)
    decreases |spans|
  {
    spans == [] ||
    (&& spans[0].start - start == spans[0].evicted - evicted >= 0
     && |spans[0].data| > 0
     && InSequence(spans[0].start + |spans[0].data|, spans[0].evicted, spans[1..]))
  }

  lemma StepWithoutSpan(n: nat, s: Sys, op: Op, h: Handle)
    requires n > 0 && Enabled(n, s, op) && h in s.pos
    requires !Repositions(n, s, op, h)
    requires StepSpans(n, s, op, h) == []
    ensures var s' := Apply(n, s, op).sys;
            h in s'.pos && s'.pos[h] == s.pos[h]
  {
    if op.h == h {
      match op
      case Read(_, count, interrupted, copyFails) =>
        ReadAnswers(n, s.dev, s.pos[h], count, interrupted, copyFails);
      case Llseek(_, off, whence, interrupted) =>
        FailedLlseekKeeps(n, s.dev, s.pos[h], off, whence, interrupted);
      case Ioctl(_, known, cmd, cmdOff, interrupted, copyFails) =>
        IoctlAnswers(n, s.dev, s.pos[h], known, cmd, cmdOff, interrupted, copyFails);
      case _ =>
    }
  }

  lemma StepWithSpan(n: nat, s: Sys, op: Op, h: Handle)
    requires n > 0 && Enabled(n, s, op) && h in s.pos && StepSpans(n, s, op, h) != []
    ensures var s' := Apply(n, s, op).sys;
            var span := StepSpans(n, s, op, h)[0];
            && StepSpans(n, s, op, h) == [span]
            && s' == s.(pos := s.pos[h := s.pos[h] + |span.data|])
            && |span.data| > 0
            && span.start == EvictedBytes(n, s.dev) + s.pos[h] && span.evicted == EvictedBytes(n, s.dev)
            && OfStream(span, History(s.dev))
  {
    var r := ReadResult(n, s.dev, s.pos[h], op.count, op.interrupted, op.copyFails);
    assert Apply(n, s, op) == Outcome(s.(pos := s.pos[h := r.pos]), r.ret, r.data);
    ReadIsStream(n, s.dev, s.pos[h], op.count, op.interrupted, op.copyFails);
    assert |r.data| == r.ret;
  }

  /**
    Putting the spans of one step in front: either none, when reading later picks up where it
    stopped even if what lies between has been evicted, or one that starts right here.
   */
  predicate Links(start: nat, evicted: nat, head: seq<Span>, start': nat, evicted': nat) {
    if head == [] then evicted <= evicted' && start' - evicted' == start - evicted
    else
      && |head| == 1 && head[0].start == start && head[0].evicted == evicted && |head[0].data| > 0
      && evicted' == evicted && start' == start + |head[0].data|
  }

  lemma SpansInFront(start: nat, evicted: nat, head: seq<Span>, start': nat, evicted': nat, tail: seq<Span>)
    requires Links(start, evicted, head, start', evicted') && InSequence(start', evicted', tail)
    ensures InSequence(start, evicted, head + tail)
  {
    if head == [] {
      NothingAppended(tail);
    } else {
      assert head + tail != [] && (head + tail)[0] == head[0] && (head + tail)[1..] == tail;
    }
  }

  lemma StepLinks(n: nat, s: Sys, op: Op, h: Handle)
    requires Inv(n, s.dev) && Enabled(n, s, op) && h in s.pos && s.pos[h] >= 0
    requires !Repositions(n, s, op, h)
    ensures var s' := Apply(n, s, op).sys;
            && h in s'.pos && s'.pos[h] >= 0
            && Links(EvictedBytes(n, s.dev) + s.pos[h], EvictedBytes(n, s.dev), StepSpans(n, s, op, h),
                     EvictedBytes(n, s'.dev) + s'.pos[h], EvictedBytes(n, s'.dev))
  {
    if StepSpans(n, s, op, h) == [] {
      StepWithoutSpan(n, s, op, h);
      StepExtendsHistory(n, s, op);
    } else {
      StepWithSpan(n, s, op, h);
    }
  }

  /** The spans continue the stream from where handle h stands. */
  predicate Continues(n: nat, s: Sys, h: Handle, spans: seq<Span>)
    requires h in s.pos && s.pos[h] >= 0
  {
    InSequence(EvictedBytes(n, s.dev) + s.pos[h], EvictedBytes(n, s.dev), spans)
  }

  lemma StepContinues(n: nat, s: Sys, op: Op, h: Handle, later: seq<Span>)
    requires Inv(n, s.dev) && Enabled(n, s, op) && h in s.pos && s.pos[h] >= 0
    requires !Repositions(n, s, op, h)
    ensures var s' := Apply(n, s, op).sys;
            && h in s'.pos && s'.pos[h] >= 0
            && (Continues(n, s', h, later) ==> Continues(n, s, h, StepSpans(n, s, op, h) + later))
  {
    StepLinks(n, s, op, h);
    var s' := Apply(n, s, op).sys;
    var e, e' := EvictedBytes(n, s.dev), EvictedBytes(n, s'.dev);
    if Continues(n, s', h, later) {
      SpansInFront(e + s.pos[h], e, StepSpans(n, s, op, h), e' + s'.pos[h], e', later);
    }
  }

  lemma {:induction false} SpansContinue(n: nat, s: Sys, ops: seq<Op>, h: Handle)
    requires Inv(n, s.dev) && Legal(n, s, ops) && NeverRepositions(n, s, ops, h)
    requires h in s.pos && s.pos[h] >= 0
    ensures Continues(n, s, h, Spans(n, s, ops, h))
    decreases |ops|
  {
    if ops != [] {
      var s' := Apply(n, s, ops[0]).sys;
      StepKeepsInv(n, s, ops[0]);
      StepContinues(n, s, ops[0], h, Spans(n, s', ops[1..], h));
      SpansContinue(n, s', ops[1..], h);
    }
  }

  predicate AllOfStream(spans: seq<Span>, all: seq<byte>) {
    forall i :: 0 <= i < |spans| ==> OfStream(spans[i], all)
  }

  lemma OfLongerStream(span: Span, all: seq<byte>, more: seq<byte>)
    requires OfStream(span, all) && all <= more
    ensures OfStream(span, more)
  {
  }

  lemma StepOfStream(n: nat, s: Sys, op: Op, h: Handle, later: seq<Span>, all: seq<byte>)
    requires Inv(n, s.dev) && Enabled(n, s, op) && h in s.pos && s.pos[h] >= 0
    requires !Repositions(n, s, op, h)
    requires AllOfStream(later, all) && History(Apply(n, s, op).sys.dev) <= all
    ensures AllOfStream(StepSpans(n, s, op, h) + later, all)
  {
    var head := StepSpans(n, s, op, h);
    if head == [] {
      NothingAppended(later);
    } else {
      StepWithSpan(n, s, op, h);
      OfLongerStream(head[0], History(Apply(n, s, op).sys.dev), all);
    }
  }

  lemma {:induction false} SpansOfStream(n: nat, s: Sys, ops: seq<Op>, h: Handle)
    requires Inv(n, s.dev) && Legal(n, s, ops) && h in s.pos
    requires NeverRepositions(n, s, ops, h) && s.pos[h] >= 0
    ensures AllOfStream(Spans(n, s, ops, h), History(Run(n, s, ops).dev))
    decreases |ops|
  {
    if ops != [] {
      var s' := Apply(n, s, ops[0]).sys;
      StepKeepsInv(n, s, ops[0]);
      StepLinks(n, s, ops[0], h);
      SpansOfStream(n, s', ops[1..], h);
      RunExtendsHistory(n, s', ops[1..]);
      StepOfStream(n, s, ops[0], h, Spans(n, s', ops[1..], h), History(Run(n, s, ops).dev));
    }
  }

  /**
    The stream theorem.  In every interleaving, the successful reads through a handle are
    consecutive stretches of the stream of committed bytes as long as no seek through it is
    carried out: each returns exactly the bytes at its stream position, positions only grow,
    no byte is returned twice, and each gap is exactly the number of bytes evicted since the
    previous read.  Calls through the handle that fail, seeks included, disturb nothing.
   */
  lemma ReadsFollowStream(n: nat, ops: seq<Op>, more: seq<Op>, h: Handle)
    requires n > 0 && Legal(n, START, ops) && h in Run(n, START, ops).pos && Run(n, START, ops).pos[h] >= 0
    requires Legal(n, Run(n, START, ops), more) && NeverRepositions(n, Run(n, START, ops), more, h)
    ensures var s := Run(n, START, ops);
            var spans := Spans(n, s, more, h);
            && Continues(n, s, h, spans)
            && AllOfStream(spans, History(Run(n, s, more).dev))
  {
    FreshIsValid(n);
    RunKeepsInv(n, START, ops);
    SpansContinue(n, Run(n, START, ops), more, h);
    SpansOfStream(n, Run(n, START, ops), more, h);
  }

  // ---------------------------------------------------------------- the lock

  /** The calls that return with buffer_lock held. */
  predicate KeepsLock(n: nat, s: Sys, op: Op)
    requires n > 0 && Enabled(n, s, op)
  {
    match op
    case Write(h, buf, env) =>
      TakesLockToWrite(s.pos[h], buf) && !env.interrupted && env.kbuf != NULL && env.copyFails
    case Llseek(h, off, whence, interrupted) =>
      !interrupted && (match LlseekTarget(n, s.dev, s.pos[h], off, whence)
                       case None => true
                       case Some(target) => target < 0)
    case _ => false
  }

  predicate KeepsLockIn(n: nat, s: Sys, ops: seq<Op>)
    requires n > 0 && Legal(n, s, ops)
    decreases |ops|
  {
    ops != [] && (KeepsLock(n, s, ops[0]) || KeepsLockIn(n, Apply(n, s, ops[0]).sys, ops[1..]))
  }

  lemma StepLock(n: nat, s: Sys, op: Op)
    requires n > 0 && Enabled(n, s, op)
    ensures Apply(n, s, op).sys.dev.locked <==> s.dev.locked || KeepsLock(n, s, op)
  {
  }

  /** The lock is free after a run if and only if no call took one of the exits that keep it. */
  lemma {:induction false} LockFreeIff(n: nat, s: Sys, ops: seq<Op>)
    requires n > 0 && Legal(n, s, ops)
    ensures Run(n, s, ops).dev.locked <==> s.dev.locked || KeepsLockIn(n, s, ops)
    decreases |ops|
  {
    if ops != [] {
      StepLock(n, s, ops[0]);
      LockFreeIff(n, Apply(n, s, ops[0]).sys, ops[1..]);
    }
  }
}
