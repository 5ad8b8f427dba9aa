/** Atomicity and linearizability of the server's critical sections, over every interleaving. */
module ServerProofs {
  import opened Bytes
  import opened CircularBuffer
  import opened Lines
  import opened DeviceSpec
  import opened DeviceWrites
  import opened DeviceReads
  import opened Runs
  import opened RunStreams
  import opened Server
  import ServerCalls

  // ---------------------------------------------------------------- one move and the device

  /** Only appending changes the device. */
  lemma OtherActsKeepDevice(n: nat, jobs: Jobs, s: Srv, t: Session, act: Act)
    requires n > 0 && CanAct(n, jobs, s, t, act) && !act.Append?
    ensures Next(n, jobs, s, t, act).sys.dev == s.sys.dev
  {
  }

  /** A successful append feeds its chunk to the assembly. */
  lemma AppendFeeds(n: nat, jobs: Jobs, s: Srv, t: Session, env: WriteEnv)
    requires DeviceInv(n, s) && CanAct(n, jobs, s, t, Append(env))
    ensures var d := Next(n, jobs, s, t, Append(env)).sys.dev;
            && Inv(n, d) && Tight(d) && !d.locked
            && AssemblyOf(d) == Feed(AssemblyOf(s.sys.dev), jobs[t].chunk)
  {
    var chunk := jobs[t].chunk;
    WriteKeepsInv(n, s.sys.dev, s.sys.pos[t], chunk, env);
    TightWriteFeeds(n, s.sys.dev, s.sys.pos[t], chunk, env);
    assert chunk[..|chunk|] == chunk;
  }

  lemma NextKeepsDevice(n: nat, jobs: Jobs, s: Srv, t: Session, act: Act)
    requires DeviceInv(n, s) && CanAct(n, jobs, s, t, act)
    ensures DeviceInv(n, Next(n, jobs, s, t, act))
  {
    if act.Append? {
      AppendFeeds(n, jobs, s, t, act.env);
    } else {
      OtherActsKeepDevice(n, jobs, s, t, act);
    }
  }

  // ---------------------------------------------------------------- mutual exclusion

  lemma ActorOwns(n: nat, jobs: Jobs, s: Srv, t: Session, act: Act)
    requires n > 0 && MutexInv(jobs, s) && CanAct(n, jobs, s, t, act)
    ensures if act.Take? then s.owner == None else s.owner == Some(t)
    ensures forall u :: u in s.phase && u != t ==> Idle(s.phase[u])
  {
  }

  /** What one move does to the sessions and the open files. */
  lemma NextTouchesActor(n: nat, jobs: Jobs, s: Srv, t: Session, act: Act)
    requires n > 0 && MutexInv(jobs, s) && CanAct(n, jobs, s, t, act)
    ensures var s' := Next(n, jobs, s, t, act);
            && s'.phase.Keys == s.phase.Keys
            && (forall u :: u in s.phase && u != t ==>
                  s'.phase[u] == s.phase[u] && (u in s'.sys.pos <==> u in s.sys.pos))
            && (t in s'.sys.pos <==> HasFile(s'.phase[t]))
            && s'.owner == (if act.Finish? then None else Some(t))
            && (Idle(s'.phase[t]) <==> act.Finish?)
  {
    ActorOwns(n, jobs, s, t, act);
  }

  /** A file is open only in a session that holds file_mutex and is between opening and closing it. */
  lemma OnlyHolderHasFile(n: nat, jobs: Jobs, moves: seq<Move>, t: Session)
    requires n > 0 && Possible(n, jobs, Initial(jobs), moves)
    requires t in AfterMoves(n, jobs, Initial(jobs), moves).phase
    ensures var s := AfterMoves(n, jobs, Initial(jobs), moves);
            t in s.sys.pos ==>
              && s.owner == Some(t)
              && !s.phase[t].Ready? && !s.phase[t].Locked? && !s.phase[t].Done? && !s.phase[t].Stuck?
  {
    InitialInv(n, jobs);
    MovesKeepInv(n, jobs, Initial(jobs), moves);
  }

  lemma NextKeepsMutex(n: nat, jobs: Jobs, s: Srv, t: Session, act: Act)
    requires n > 0 && MutexInv(jobs, s) && CanAct(n, jobs, s, t, act)
    ensures MutexInv(jobs, Next(n, jobs, s, t, act))
  {
    ActorOwns(n, jobs, s, t, act);
    NextTouchesActor(n, jobs, s, t, act);
  }

  // ---------------------------------------------------------------- reading back

  lemma BeginsReading(n: nat, jobs: Jobs, s: Srv, t: Session, act: Act)
    requires DeviceInv(n, s) && CanAct(n, jobs, s, t, act) && (act.Rewind? || act.Seek?)
    ensures ReadInv(n, Next(n, jobs, s, t, act), t)
  {
    OtherActsKeepDevice(n, jobs, s, t, act);
    var s' := Next(n, jobs, s, t, act);
    if s'.phase[t].Reading? {
      NothingAppended(Suffix(s'.phase[t].base, s'.phase[t].from));
    }
  }

  lemma GotMore(c: seq<byte>, p: nat, q: nat, got: seq<byte>, from: int)
    requires p <= q <= |c| && got + Suffix(c, p) == Suffix(c, from)
    ensures (got + c[p..q]) + Suffix(c, q) == Suffix(c, from)
  {
    assert c[p..] == c[p..q] + c[q..];
    Assoc(got, c[p..q], c[q..]);
  }

  /** One more read from position p, seen from the position reading began at. */
  lemma ReadStep(n: nat, m: Model, p: int, count: nat, from: int, got: seq<byte>)
    requires count > 0 && got + Suffix(Contents(n, m), p) == Suffix(Contents(n, m), from)
    ensures var r := ReadResult(n, m, p, count, false, false);
            if r.ret > 0
            then (got + r.data) + Suffix(Contents(n, m), r.pos) == Suffix(Contents(n, m), from)
            else got == Suffix(Contents(n, m), from)
  {
    if 0 <= p < |Contents(n, m)| {
      ReadEndsAtEnd(n, m, p, count);
      var r := ReadResult(n, m, p, count, false, false);
      ReadIsStream(n, m, p, count, false, false);
      assert r.data == Contents(n, m)[p..r.pos];
      GotMore(Contents(n, m), p, r.pos, got, from);
    } else {
      assert Suffix(Contents(n, m), p) == [];
      NothingAppended(got);
    }
  }

  lemma ReadsMore(n: nat, jobs: Jobs, s: Srv, t: Session, count: nat)
    requires DeviceInv(n, s) && CanAct(n, jobs, s, t, ReadMore(count)) && ReadInv(n, s, t)
    ensures ReadInv(n, Next(n, jobs, s, t, ReadMore(count)), t)
  {
    OtherActsKeepDevice(n, jobs, s, t, ReadMore(count));
    ReadStep(n, s.sys.dev, s.sys.pos[t], count, s.phase[t].from, s.phase[t].got);
  }

  lemma NextKeepsReads(n: nat, jobs: Jobs, s: Srv, t: Session, act: Act, u: Session)
    requires DeviceInv(n, s) && MutexInv(jobs, s) && CanAct(n, jobs, s, t, act)
    requires u in s.phase && ReadInv(n, s, u)
    ensures u in Next(n, jobs, s, t, act).phase && ReadInv(n, Next(n, jobs, s, t, act), u)
  {
    NextTouchesActor(n, jobs, s, t, act);
    if u != t {
      ActorOwns(n, jobs, s, t, act);
    } else if act.Rewind? || act.Seek? {
      BeginsReading(n, jobs, s, t, act);
    } else if act.ReadMore? {
      ReadsMore(n, jobs, s, t, act.count);
    }
  }

  // ---------------------------------------------------------------- the order of appends

  lemma ChunksAppend(jobs: Jobs, order: seq<Session>, t: Session)
    requires t in jobs && jobs[t].Packet?
    ensures Chunks(jobs, order + [t]) == Chunks(jobs, order) + [jobs[t].chunk]
  {
  }

  /** Taking the mutex puts an appending session at the end of the order; its chunk is not in yet. */
  lemma TakeAppended(n: nat, jobs: Jobs, s: Srv, t: Session)
    requires n > 0 && CanAct(n, jobs, s, t, Take)
    ensures Appended(jobs, Next(n, jobs, s, t, Take)) == Appended(jobs, s) == s.order
  {
    if jobs[t].Packet? {
      assert (s.order + [t])[..|s.order|] == s.order;
    }
  }

  lemma TakeKeepsOrder(n: nat, jobs: Jobs, s: Srv, t: Session)
    requires n > 0 && MutexInv(jobs, s) && OrderInv(n, jobs, s) && CanAct(n, jobs, s, t, Take)
    ensures OrderInv(n, jobs, Next(n, jobs, s, t, Take))
  {
    TakeAppended(n, jobs, s, t);
    assert forall i :: 0 <= i < |s.order| ==> s.order[i] != t;
  }

  /** The appending session is the last of the order, and the only one not yet in the device. */
  lemma LastIsMissing(jobs: Jobs, s: Srv)
    requires Appending(jobs, s) && |s.order| > 0 && s.order[|s.order| - 1] == s.owner.value
    ensures s.order == Appended(jobs, s) + [s.owner.value]
  {
  }

  /** Appending brings in the last of the order. */
  lemma AppendingIsLast(n: nat, jobs: Jobs, s: Srv, t: Session, env: WriteEnv)
    requires n > 0 && MutexInv(jobs, s) && OrderInv(n, jobs, s) && CanAct(n, jobs, s, t, Append(env))
    ensures s.order == Appended(jobs, s) + [t]
    ensures var s' := Next(n, jobs, s, t, Append(env)); Appended(jobs, s') == s.order == s'.order
  {
    ActorOwns(n, jobs, s, t, Append(env));
    LastIsMissing(jobs, s);
    var s' := Next(n, jobs, s, t, Append(env));
    assert s'.phase[t] == Written && s'.owner == Some(t);
  }

  lemma FeedLast(jobs: Jobs, before: seq<Session>, t: Session)
    requires t in jobs && jobs[t].Packet?
    ensures FeedAll(NOTHING, Chunks(jobs, before + [t])) == Feed(FeedAll(NOTHING, Chunks(jobs, before)), jobs[t].chunk)
  {
    ChunksAppend(jobs, before, t);
    FeedAllAppend(NOTHING, Chunks(jobs, before), [jobs[t].chunk]);
    FeedOne(FeedAll(NOTHING, Chunks(jobs, before)), jobs[t].chunk);
  }

  lemma AppendKeepsOrder(n: nat, jobs: Jobs, s: Srv, t: Session, env: WriteEnv)
    requires DeviceInv(n, s) && MutexInv(jobs, s) && OrderInv(n, jobs, s) && CanAct(n, jobs, s, t, Append(env))
    ensures OrderInv(n, jobs, Next(n, jobs, s, t, Append(env)))
  {
    ActorOwns(n, jobs, s, t, Append(env));
    AppendingIsLast(n, jobs, s, t, env);
    AppendFeeds(n, jobs, s, t, env);
    FeedLast(jobs, Appended(jobs, s), t);
  }

  lemma OthersKeepAppended(n: nat, jobs: Jobs, s: Srv, t: Session, act: Act)
    requires n > 0 && MutexInv(jobs, s) && CanAct(n, jobs, s, t, act) && !act.Take? && !act.Append?
    ensures Next(n, jobs, s, t, act).order == s.order
    ensures Appended(jobs, Next(n, jobs, s, t, act)) == Appended(jobs, s)
  {
    ActorOwns(n, jobs, s, t, act);
  }

  lemma OthersKeepOrder(n: nat, jobs: Jobs, s: Srv, t: Session, act: Act)
    requires n > 0 && MutexInv(jobs, s) && OrderInv(n, jobs, s)
    requires CanAct(n, jobs, s, t, act) && !act.Take? && !act.Append?
    ensures OrderInv(n, jobs, Next(n, jobs, s, t, act))
  {
    ActorOwns(n, jobs, s, t, act);
    OtherActsKeepDevice(n, jobs, s, t, act);
    OthersKeepAppended(n, jobs, s, t, act);
  }

  lemma NextKeepsOrder(n: nat, jobs: Jobs, s: Srv, t: Session, act: Act)
    requires DeviceInv(n, s) && MutexInv(jobs, s) && OrderInv(n, jobs, s) && CanAct(n, jobs, s, t, act)
    ensures OrderInv(n, jobs, Next(n, jobs, s, t, act))
  {
    if act.Take? {
      TakeKeepsOrder(n, jobs, s, t);
    } else if act.Append? {
      AppendKeepsOrder(n, jobs, s, t, act.env);
    } else {
      OthersKeepOrder(n, jobs, s, t, act);
    }
  }

  // ---------------------------------------------------------------- what each reader started from

  lemma PrefixOfPrefix<T>(s: seq<T>, x: T, k: nat)
    requires k <= |s|
    ensures (s + [x])[..k] == s[..k]
  {
  }

  /** A session that rewinds after appending sees the chunks of everyone up to and including itself. */
  lemma RewindBase(n: nat, jobs: Jobs, s: Srv, t: Session, i: nat)
    requires DeviceInv(n, s) && MutexInv(jobs, s) && OrderInv(n, jobs, s) && CanAct(n, jobs, s, t, Rewind)
    requires i < |s.order| && s.order[i] == t
    ensures Contents(n, s.sys.dev) == ContentsAfter(n, jobs, s.order[..i + 1])
  {
    ActorOwns(n, jobs, s, t, Rewind);
    assert i == |s.order| - 1;
    assert s.order[..i + 1] == s.order == Appended(jobs, s);
    ContentsFromAssembly(n, s.sys.dev);
  }

  lemma TakeKeepsBase(n: nat, jobs: Jobs, s: Srv, t: Session, i: nat)
    requires n > 0 && BaseInv(n, jobs, s) && CanAct(n, jobs, s, t, Take)
    requires i < |Next(n, jobs, s, t, Take).order|
    ensures BaseKept(n, jobs, Next(n, jobs, s, t, Take), i)
  {
    if i < |s.order| {
      assert BaseKept(n, jobs, s, i);
      PrefixOfPrefix(s.order, t, i + 1);
    }
  }

  lemma OthersKeepBase(n: nat, jobs: Jobs, s: Srv, t: Session, act: Act, i: nat)
    requires n > 0 && MutexInv(jobs, s) && BaseInv(n, jobs, s)
    requires CanAct(n, jobs, s, t, act) && !act.Take? && i < |s.order|
    requires s.order[i] == t ==> !act.Rewind? && !act.Seek?
    ensures Next(n, jobs, s, t, act).order == s.order
    ensures BaseKept(n, jobs, Next(n, jobs, s, t, act), i)
  {
    assert BaseKept(n, jobs, s, i);
    NextTouchesActor(n, jobs, s, t, act);
  }

  lemma NextKeepsBase(n: nat, jobs: Jobs, s: Srv, t: Session, act: Act, i: nat)
    requires DeviceInv(n, s) && MutexInv(jobs, s) && OrderInv(n, jobs, s) && BaseInv(n, jobs, s)
    requires CanAct(n, jobs, s, t, act) && i < |Next(n, jobs, s, t, act).order|
    ensures BaseKept(n, jobs, Next(n, jobs, s, t, act), i)
  {
    if act.Take? {
      TakeKeepsBase(n, jobs, s, t, i);
    } else if act.Rewind? && s.order[i] == t {
      RewindBase(n, jobs, s, t, i);
    } else {
      OthersKeepBase(n, jobs, s, t, act, i);
    }
  }

  // ---------------------------------------------------------------- all of it, over every run

  lemma NextKeepsAllReads(n: nat, jobs: Jobs, s: Srv, t: Session, act: Act)
    requires DeviceInv(n, s) && MutexInv(jobs, s) && ReadsInv(n, s) && CanAct(n, jobs, s, t, act)
    ensures ReadsInv(n, Next(n, jobs, s, t, act))
  {
    NextTouchesActor(n, jobs, s, t, act);
    forall u | u in s.phase
      ensures u in Next(n, jobs, s, t, act).phase && ReadInv(n, Next(n, jobs, s, t, act), u)
    {
      assert ReadInv(n, s, u);
      NextKeepsReads(n, jobs, s, t, act, u);
    }
  }

  lemma NextKeepsAllBases(n: nat, jobs: Jobs, s: Srv, t: Session, act: Act)
    requires DeviceInv(n, s) && MutexInv(jobs, s) && OrderInv(n, jobs, s) && BaseInv(n, jobs, s)
    requires CanAct(n, jobs, s, t, act)
    ensures BaseInv(n, jobs, Next(n, jobs, s, t, act))
  {
    forall i: nat | i < |Next(n, jobs, s, t, act).order|
      ensures BaseKept(n, jobs, Next(n, jobs, s, t, act), i)
    {
      NextKeepsBase(n, jobs, s, t, act, i);
    }
  }

  lemma NextKeepsInv(n: nat, jobs: Jobs, s: Srv, t: Session, act: Act)
    requires SrvInv(n, jobs, s) && CanAct(n, jobs, s, t, act)
    ensures SrvInv(n, jobs, Next(n, jobs, s, t, act))
  {
    NextKeepsDevice(n, jobs, s, t, act);
    NextKeepsMutex(n, jobs, s, t, act);
    NextKeepsAllReads(n, jobs, s, t, act);
    NextKeepsOrder(n, jobs, s, t, act);
    NextKeepsAllBases(n, jobs, s, t, act);
  }

  lemma InitialInv(n: nat, jobs: Jobs)
    requires n > 0
    ensures SrvInv(n, jobs, Initial(jobs))
  {
    FreshIsValid(n);
    assert Chunks(jobs, []) == [];
  }

  lemma {:induction false} MovesKeepInv(n: nat, jobs: Jobs, s: Srv, moves: seq<Move>)
    requires SrvInv(n, jobs, s) && Possible(n, jobs, s, moves)
    ensures SrvInv(n, jobs, AfterMoves(n, jobs, s, moves))
    decreases |moves|
  {
    if moves != [] {
      NextKeepsInv(n, jobs, s, moves[0].t, moves[0].act);
      MovesKeepInv(n, jobs, Next(n, jobs, s, moves[0].t, moves[0].act), moves[1..]);
    }
  }

  /**
    Replies are linearizable.  In every interleaving, the i-th session to take file_mutex in
    order to append has read, when it is done, exactly what a device holds into which the
    chunks of sessions 0 .. i have been written one after the other.
   */
  lemma RepliesLinearizable(n: nat, jobs: Jobs, moves: seq<Move>, i: nat)
    requires n > 0 && Possible(n, jobs, Initial(jobs), moves)
    requires i < |AfterMoves(n, jobs, Initial(jobs), moves).order|
    ensures var s := AfterMoves(n, jobs, Initial(jobs), moves);
            var t := s.order[i];
            && t in s.phase
            && (s.phase[t].Done? ==> s.phase[t].got == ContentsAfter(n, jobs, s.order[..i + 1]))
  {
    InitialInv(n, jobs);
    MovesKeepInv(n, jobs, Initial(jobs), moves);
    var s := AfterMoves(n, jobs, Initial(jobs), moves);
    var t := s.order[i];
    assert ReadInv(n, s, t);
    assert BaseKept(n, jobs, s, i);
  }

  /**
    When every chunk is a packet (its only newline at the end), that is the concatenation of
    the last min(i + 1, n) packets in lock order, the session's own packet last.
   */
  lemma PacketReplies(n: nat, jobs: Jobs, moves: seq<Move>, i: nat)
    requires n > 0 && Possible(n, jobs, Initial(jobs), moves)
    requires i < |AfterMoves(n, jobs, Initial(jobs), moves).order|
    requires forall t :: t in jobs && jobs[t].Packet? ==> IsPacket(jobs[t].chunk)
    ensures var s := AfterMoves(n, jobs, Initial(jobs), moves);
            var t := s.order[i];
            var packets := Chunks(jobs, s.order[..i + 1]);
            && t in s.phase && t in jobs && jobs[t].Packet?
            && |packets| == i + 1 && packets[i] == jobs[t].chunk
            && (s.phase[t].Done? ==> s.phase[t].got == Concat(LastN(n, packets)))
  {
    RepliesLinearizable(n, jobs, moves, i);
    InitialInv(n, jobs);
    MovesKeepInv(n, jobs, Initial(jobs), moves);
    var s := AfterMoves(n, jobs, Initial(jobs), moves);
    var packets := Chunks(jobs, s.order[..i + 1]);
    assert s.order[i] in jobs && jobs[s.order[i]].Packet?;
    forall j | 0 <= j < |packets| ensures IsPacket(packets[j]) {
      assert s.order[..i + 1][j] == s.order[j];
    }
    PacketsStayWhole([], packets);
    NothingAppended(packets);
  }

  /**
    What arrives at the client is the stream read, so the last min(i + 1, n) packets, if and
    only if those packets hold no NUL byte.
   */
  lemma PacketsArrive(n: nat, jobs: Jobs, moves: seq<Move>, i: nat)
    requires n > 0 && Possible(n, jobs, Initial(jobs), moves)
    requires i < |AfterMoves(n, jobs, Initial(jobs), moves).order|
    requires forall t :: t in jobs && jobs[t].Packet? ==> IsPacket(jobs[t].chunk)
    ensures var s := AfterMoves(n, jobs, Initial(jobs), moves);
            var t := s.order[i];
            var reply := Concat(LastN(n, Chunks(jobs, s.order[..i + 1])));
            && t in s.phase
            && (s.phase[t].Done? ==> (ServerCalls.SentBack(s.phase[t].got) == reply <==> NUL !in reply))
  {
    PacketReplies(n, jobs, moves, i);
    ServerCalls.SentBackIff(Concat(LastN(n, Chunks(jobs, AfterMoves(n, jobs, Initial(jobs), moves).order[..i + 1]))));
  }

  /** Once a session is reading, it keeps the base and the position it began with. */
  predicate BeganWith(p: Phase, base: seq<byte>, from: int) {
    (p.Reading? || p.Drained? || p.Done?) && p.base == base && p.from == from
  }

  lemma {:induction false} StillBeganWith(n: nat, jobs: Jobs, s: Srv, moves: seq<Move>, t: Session,
                                          base: seq<byte>, from: int)
    requires n > 0 && Possible(n, jobs, s, moves) && t in s.phase && BeganWith(s.phase[t], base, from)
    ensures var s' := AfterMoves(n, jobs, s, moves); t in s'.phase && BeganWith(s'.phase[t], base, from)
    decreases |moves|
  {
    if moves != [] {
      OneMoveBeganWith(n, jobs, s, moves[0].t, moves[0].act, t, base, from);
      StillBeganWith(n, jobs, Next(n, jobs, s, moves[0].t, moves[0].act), moves[1..], t, base, from);
    }
  }

  lemma OneMoveBeganWith(n: nat, jobs: Jobs, s: Srv, t: Session, act: Act, u: Session, base: seq<byte>, from: int)
    requires n > 0 && CanAct(n, jobs, s, t, act) && u in s.phase && BeganWith(s.phase[u], base, from)
    ensures u in Next(n, jobs, s, t, act).phase && BeganWith(Next(n, jobs, s, t, act).phase[u], base, from)
  {
  }

  /**
    Seek and read-back is atomic.  Take any reachable moment at which session t seeks, to
    position p of contents c.  Whatever all the sessions do from then on, when t is done the
    bytes it has read are exactly c from p on.
   */
  lemma SeekReadBackAtomic(n: nat, jobs: Jobs, before: seq<Move>, t: Session, later: seq<Move>)
    requires n > 0 && Possible(n, jobs, Initial(jobs), before)
    requires CanAct(n, jobs, AfterMoves(n, jobs, Initial(jobs), before), t, Seek)
    requires Possible(n, jobs, Next(n, jobs, AfterMoves(n, jobs, Initial(jobs), before), t, Seek), later)
    ensures var s := AfterMoves(n, jobs, Initial(jobs), before);
            var c := Contents(n, s.sys.dev);
            var target := CommandTarget(n, s.sys.dev, jobs[t].cmd, jobs[t].cmdOff);
            var s' := AfterMoves(n, jobs, Next(n, jobs, s, t, Seek), later);
            && t in s'.phase
            && (target.Some? && ToInt(target.value) >= 0 && s'.phase[t].Done? ==>
                  s'.phase[t].got == Suffix(c, target.value))
  {
    var s := AfterMoves(n, jobs, Initial(jobs), before);
    InitialInv(n, jobs);
    MovesKeepInv(n, jobs, Initial(jobs), before);
    SeekThenReads(n, jobs, s, t, later);
  }

  /** A seek that succeeds for the server begins reading at the target of the command the session names. */
  lemma SeekBegins(n: nat, jobs: Jobs, s: Srv, t: Session)
    requires n > 0 && CanAct(n, jobs, s, t, Seek)
    ensures var target := CommandTarget(n, s.sys.dev, jobs[t].cmd, jobs[t].cmdOff);
            target.Some? && ToInt(target.value) >= 0 ==>
              Next(n, jobs, s, t, Seek).phase[t] == Reading(Contents(n, s.sys.dev), target.value, [])
  {
  }

  lemma SeekThenReads(n: nat, jobs: Jobs, s: Srv, t: Session, later: seq<Move>)
    requires SrvInv(n, jobs, s) && CanAct(n, jobs, s, t, Seek)
    requires Possible(n, jobs, Next(n, jobs, s, t, Seek), later)
    ensures var target := CommandTarget(n, s.sys.dev, jobs[t].cmd, jobs[t].cmdOff);
            var s' := AfterMoves(n, jobs, Next(n, jobs, s, t, Seek), later);
            && t in s'.phase
            && (target.Some? && ToInt(target.value) >= 0 && s'.phase[t].Done? ==>
                  s'.phase[t].got == Suffix(Contents(n, s.sys.dev), target.value))
  {
    var s1 := Next(n, jobs, s, t, Seek);
    var target := CommandTarget(n, s.sys.dev, jobs[t].cmd, jobs[t].cmdOff);
    NextKeepsInv(n, jobs, s, t, Seek);
    MovesKeepInv(n, jobs, s1, later);
    KeepsSessions(n, jobs, s1, later);
    SeekBegins(n, jobs, s, t);
    if target.Some? && ToInt(target.value) >= 0 {
      StillBeganWith(n, jobs, s1, later, t, Contents(n, s.sys.dev), target.value);
      assert ReadInv(n, AfterMoves(n, jobs, s1, later), t);
    }
  }

  lemma {:induction false} KeepsSessions(n: nat, jobs: Jobs, s: Srv, moves: seq<Move>)
    requires n > 0 && Possible(n, jobs, s, moves)
    ensures s.phase.Keys == AfterMoves(n, jobs, s, moves).phase.Keys
    decreases |moves|
  {
    if moves != [] {
      KeepsSessions(n, jobs, Next(n, jobs, s, moves[0].t, moves[0].act), moves[1..]);
    }
  }
}
