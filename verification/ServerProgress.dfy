/** When the server's sessions finish, and when file_mutex is never released. */
module ServerProgress {
  import opened Bytes
  import opened CircularBuffer
  import opened Lines
  import opened DeviceSpec
  import opened DeviceWrites
  import opened DeviceReads
  import opened Runs
  import opened Server
  import opened ServerProofs

  // ---------------------------------------------------------------- refused seeks

  /**
    The move is a seek that fails for the server, by the command, the offset and the ring at
    that moment: the device refuses it, or the position does not survive conversion to int.
   */
  predicate Refused(n: nat, jobs: Jobs, s: Srv, t: Session, act: Act) {
    && act.Seek? && t in jobs && jobs[t].SeekTo?
    && match CommandTarget(n, s.sys.dev, jobs[t].cmd, jobs[t].cmdOff)
       case None => true
       case Some(target) => ToInt(target) < 0
  }

  predicate RefusedIn(n: nat, jobs: Jobs, s: Srv, moves: seq<Move>)
    requires n > 0 && Possible(n, jobs, s, moves)
    decreases |moves|
  {
    moves != [] &&
    (Refused(n, jobs, s, moves[0].t, moves[0].act) ||
     RefusedIn(n, jobs, Next(n, jobs, s, moves[0].t, moves[0].act), moves[1..]))
  }

  ghost predicate SomeoneStuck(s: Srv) {
    exists t :: t in s.phase && s.phase[t].Stuck?
  }

  lemma NextSticks(n: nat, jobs: Jobs, s: Srv, t: Session, act: Act)
    requires n > 0 && CanAct(n, jobs, s, t, act)
    ensures SomeoneStuck(Next(n, jobs, s, t, act)) <==> SomeoneStuck(s) || Refused(n, jobs, s, t, act)
  {
    var s' := Next(n, jobs, s, t, act);
    assert s'.phase[t].Stuck? <==> Refused(n, jobs, s, t, act);
    if SomeoneStuck(s) {
      var u :| u in s.phase && s.phase[u].Stuck?;
      assert s'.phase[u].Stuck?;
    }
    if SomeoneStuck(s') {
      var u :| u in s'.phase && s'.phase[u].Stuck?;
      assert u != t ==> s.phase[u].Stuck?;
    }
  }

  /** Exactly when a session ends up holding file_mutex for ever: some seek of the run was refused. */
  lemma {:induction false} StuckIff(n: nat, jobs: Jobs, s: Srv, moves: seq<Move>)
    requires n > 0 && Possible(n, jobs, s, moves)
    ensures SomeoneStuck(AfterMoves(n, jobs, s, moves)) <==> SomeoneStuck(s) || RefusedIn(n, jobs, s, moves)
    decreases |moves|
  {
    if moves != [] {
      NextSticks(n, jobs, s, moves[0].t, moves[0].act);
      StuckIff(n, jobs, Next(n, jobs, s, moves[0].t, moves[0].act), moves[1..]);
    }
  }

  /** After a refused seek file_mutex stays taken, and no session ever makes another move. */
  lemma StuckStopsEveryone(n: nat, jobs: Jobs, before: seq<Move>, t: Session, later: seq<Move>)
    requires n > 0 && Possible(n, jobs, Initial(jobs), before)
    requires CanAct(n, jobs, AfterMoves(n, jobs, Initial(jobs), before), t, Seek)
    requires Refused(n, jobs, AfterMoves(n, jobs, Initial(jobs), before), t, Seek)
    requires Possible(n, jobs, Next(n, jobs, AfterMoves(n, jobs, Initial(jobs), before), t, Seek), later)
    ensures var s' := Next(n, jobs, AfterMoves(n, jobs, Initial(jobs), before), t, Seek);
            s'.owner == Some(t) && t !in s'.sys.pos
    ensures later == []
  {
    var s := AfterMoves(n, jobs, Initial(jobs), before);
    InitialInv(n, jobs);
    MovesKeepInv(n, jobs, Initial(jobs), before);
    NextKeepsInv(n, jobs, s, t, Seek);
    NextTouchesActor(n, jobs, s, t, Seek);
    var s' := Next(n, jobs, s, t, Seek);
    assert s'.phase[t].Stuck?;
    if later != [] {
      ActorOwns(n, jobs, s', later[0].t, later[0].act);
    }
  }

  // ---------------------------------------------------------------- what can happen next

  /** The moves open to a session in each phase; a read may be of any positive size. */
  predicate ByPhase(n: nat, jobs: Jobs, s: Srv, t: Session, act: Act)
    requires n > 0 && t in jobs && t in s.phase
  {
    match act
    case Take => s.phase[t].Ready? && s.owner == None
    case OpenFile => s.phase[t].Locked?
    case Append(env) =>
      && s.phase[t].Opened? && jobs[t].Packet?
      && EnvOk(n, s.sys.dev, jobs[t].chunk, env)
      && WriteResult(n, s.sys.dev, 0, jobs[t].chunk, env).ret == |jobs[t].chunk|
    case Rewind => s.phase[t].Written?
    case Seek => s.phase[t].Opened? && jobs[t].SeekTo? && CommandDefined(n, s.sys.dev, jobs[t].cmd)
    case ReadMore(count) => s.phase[t].Reading? && count > 0
    case Finish => s.phase[t].Drained?
  }

  lemma PhaseDecides(n: nat, jobs: Jobs, s: Srv, t: Session, act: Act)
    requires SrvInv(n, jobs, s) && t in jobs
    ensures t in s.phase
    ensures CanAct(n, jobs, s, t, act) <==> ByPhase(n, jobs, s, t, act)
  {
    assert ReadInv(n, s, t);
    assert t in s.sys.pos <==> HasFile(s.phase[t]);
  }

  /** At every reachable moment those are the moves possible: the device is always ready for them. */
  lemma MovesByPhase(n: nat, jobs: Jobs, moves: seq<Move>, t: Session, act: Act)
    requires n > 0 && Possible(n, jobs, Initial(jobs), moves) && t in jobs
    ensures var s := AfterMoves(n, jobs, Initial(jobs), moves);
            && t in s.phase
            && (CanAct(n, jobs, s, t, act) <==> ByPhase(n, jobs, s, t, act))
  {
    InitialInv(n, jobs);
    MovesKeepInv(n, jobs, Initial(jobs), moves);
    PhaseDecides(n, jobs, AfterMoves(n, jobs, Initial(jobs), moves), t, act);
  }

  // ---------------------------------------------------------------- how much is left to do

  /** An upper bound on the moves a session still makes, when the device never holds more than `bytes`. */
  function Left(p: Phase, bytes: nat): nat {
    match p
    case Ready => bytes + 6
    case Locked => bytes + 5
    case Opened => bytes + 4
    case Written => bytes + 3
    case Reading(base, _, got) => if |got| <= |base| then |base| - |got| + 2 else 2
    case Drained(_, _, _) => 1
    case Done(_, _, _) => 0
    case Stuck => 0
  }

  ghost function Work(phase: map<Session, Phase>, ts: set<Session>, bytes: nat): nat
    requires ts <= phase.Keys
  {
    if ts == {} then 0
    else
      var t :| t in ts;
      Left(phase[t], bytes) + Work(phase, ts - {t}, bytes)
  }

  lemma {:induction false} WorkSplit(phase: map<Session, Phase>, ts: set<Session>, bytes: nat, t: Session)
    requires ts <= phase.Keys && t in ts
    ensures Work(phase, ts, bytes) == Left(phase[t], bytes) + Work(phase, ts - {t}, bytes)
    decreases ts
  {
    var u :| u in ts && Work(phase, ts, bytes) == Left(phase[u], bytes) + Work(phase, ts - {u}, bytes);
    if u != t {
      WorkSplit(phase, ts - {u}, bytes, t);
      WorkSplit(phase, ts - {t}, bytes, u);
      assert ts - {u} - {t} == ts - {t} - {u};
    }
  }

  lemma {:induction false} WorkSame(phase: map<Session, Phase>, phase': map<Session, Phase>,
                                    ts: set<Session>, bytes: nat)
    requires ts <= phase.Keys && ts <= phase'.Keys && forall t :: t in ts ==> phase[t] == phase'[t]
    ensures Work(phase, ts, bytes) == Work(phase', ts, bytes)
    decreases ts
  {
    if ts != {} {
      var t :| t in ts;
      WorkSplit(phase, ts, bytes, t);
      WorkSplit(phase', ts, bytes, t);
      WorkSame(phase, phase', ts - {t}, bytes);
    }
  }

  lemma {:induction false} WorkAtStart(phase: map<Session, Phase>, ts: set<Session>, bytes: nat)
    requires ts <= phase.Keys && forall t :: t in ts ==> phase[t] == Ready
    ensures Work(phase, ts, bytes) == |ts| * (bytes + 6)
    decreases ts
  {
    if ts != {} {
      var t :| t in ts;
      WorkSplit(phase, ts, bytes, t);
      WorkAtStart(phase, ts - {t}, bytes);
      OneMoreTurn(|ts| - 1, bytes + 6);
    }
  }

  // ---------------------------------------------------------------- how much the device can hold

  lemma TimesMonotone(a: nat, b: nat, c: nat)
    requires a <= b
    ensures a * c <= b * c
  {
  }

  lemma {:induction false} ConcatBound(pieces: seq<seq<byte>>, size: nat)
    requires forall i :: 0 <= i < |pieces| ==> |pieces[i]| <= size
    ensures |Concat(pieces)| <= |pieces| * size
  {
    if pieces != [] {
      ConcatBound(pieces[1..], size);
      OneMoreTurn(|pieces| - 1, size);
    }
  }

  lemma {:induction false} DistinctFit(order: seq<Session>, ts: set<Session>)
    requires forall i :: 0 <= i < |order| ==> order[i] in ts
    requires forall i, j :: 0 <= i < j < |order| ==> order[i] != order[j]
    ensures |order| <= |ts|
    decreases |order|
  {
    if order != [] {
      DistinctFit(order[1..], ts - {order[0]});
    }
  }

  /** Chunks of at most `size` bytes. */
  ghost predicate ChunksFit(jobs: Jobs, size: nat) {
    forall t :: t in jobs && jobs[t].Packet? ==> |jobs[t].chunk| <= size
  }

  /** Readable and pending bytes together are at most what the appended chunks brought in. */
  lemma DeviceBytes(n: nat, jobs: Jobs, s: Srv, size: nat)
    requires SrvInv(n, jobs, s) && ChunksFit(jobs, size)
    ensures |Contents(n, s.sys.dev)| + s.sys.dev.cur.size <= |Appended(jobs, s)| * size
    ensures |Appended(jobs, s)| <= |s.order| <= |jobs|
  {
    var m, chunks := s.sys.dev, Chunks(jobs, Appended(jobs, s));
    DistinctFit(s.order, jobs.Keys);
    FeedAllConserves(NOTHING, chunks);
    ConcatBound(chunks, size);
    HistoryIsGoneThenContents(n, m);
    assert m.cur.size == |Pending(m)|;
    assert |Stream(AssemblyOf(m))| == |History(m)| + |Pending(m)|;
  }

  lemma DeviceHoldsAtMost(n: nat, jobs: Jobs, s: Srv, size: nat)
    requires SrvInv(n, jobs, s) && ChunksFit(jobs, size)
    ensures |Contents(n, s.sys.dev)| <= |jobs| * size
  {
    DeviceBytes(n, jobs, s, size);
    TimesMonotone(|Appended(jobs, s)|, |jobs|, size);
  }

  // ---------------------------------------------------------------- termination

  /** The moves a run can still make. */
  ghost function MovesLeft(jobs: Jobs, s: Srv, size: nat): nat
    requires s.phase.Keys == jobs.Keys
  {
    Work(s.phase, jobs.Keys, |jobs| * size)
  }

  lemma ReadGrows(n: nat, m: Model, p: int, count: nat)
    ensures var r := ReadResult(n, m, p, count, false, false); r.ret > 0 ==> |r.data| > 0
  {
    if ReadResult(n, m, p, count, false, false).ret > 0 {
      ReadIsStream(n, m, p, count, false, false);
    }
  }

  lemma GotFits(base: seq<byte>, from: int, got: seq<byte>, p: int)
    requires got + Suffix(base, p) == Suffix(base, from)
    ensures |got| <= |base|
  {
    assert |got + Suffix(base, p)| == |Suffix(base, from)|;
  }

  lemma ReadLessLeft(n: nat, jobs: Jobs, s: Srv, t: Session, count: nat, bytes: nat)
    requires SrvInv(n, jobs, s) && CanAct(n, jobs, s, t, ReadMore(count))
    ensures Left(Next(n, jobs, s, t, ReadMore(count)).phase[t], bytes) < Left(s.phase[t], bytes)
  {
    var s' := Next(n, jobs, s, t, ReadMore(count));
    assert ReadInv(n, s, t);
    ReadsMore(n, jobs, s, t, count);
    ReadGrows(n, s.sys.dev, s.sys.pos[t], count);
    if s'.phase[t].Reading? {
      GotFits(s'.phase[t].base, s'.phase[t].from, s'.phase[t].got, s'.sys.pos[t]);
    }
  }

  lemma PhaseLessLeft(n: nat, s: Srv, t: Session, act: Act, r: Outcome, bytes: nat)
    requires t in s.phase && t in s.sys.pos && |Contents(n, s.sys.dev)| <= bytes
    requires if act.Rewind? then s.phase[t].Written? else (act.Append? || act.Seek?) && s.phase[t].Opened?
    ensures Left(PhaseAfter(n, s, t, act, r), bytes) < Left(s.phase[t], bytes)
  {
  }

  lemma OtherLessLeft(n: nat, jobs: Jobs, s: Srv, t: Session, act: Act, bytes: nat)
    requires n > 0 && CanAct(n, jobs, s, t, act) && !act.ReadMore? && |Contents(n, s.sys.dev)| <= bytes
    ensures Left(Next(n, jobs, s, t, act).phase[t], bytes) < Left(s.phase[t], bytes)
  {
    if act.Append? || act.Rewind? || act.Seek? {
      PhaseLessLeft(n, s, t, act, Apply(n, s.sys, DeviceCall(jobs, t, act)), bytes);
    }
  }

  lemma NextLessWork(n: nat, jobs: Jobs, s: Srv, t: Session, act: Act, bytes: nat)
    requires SrvInv(n, jobs, s) && CanAct(n, jobs, s, t, act) && |Contents(n, s.sys.dev)| <= bytes
    ensures var s' := Next(n, jobs, s, t, act);
            s'.phase.Keys == s.phase.Keys == jobs.Keys
            && Work(s'.phase, jobs.Keys, bytes) < Work(s.phase, jobs.Keys, bytes)
  {
    var s' := Next(n, jobs, s, t, act);
    NextTouchesActor(n, jobs, s, t, act);
    if act.ReadMore? {
      ReadLessLeft(n, jobs, s, t, act.count, bytes);
    } else {
      OtherLessLeft(n, jobs, s, t, act, bytes);
    }
    WorkSplit(s.phase, jobs.Keys, bytes, t);
    WorkSplit(s'.phase, jobs.Keys, bytes, t);
    WorkSame(s.phase, s'.phase, jobs.Keys - {t}, bytes);
  }

  lemma {:induction false} MovesUseWork(n: nat, jobs: Jobs, s: Srv, moves: seq<Move>, size: nat)
    requires SrvInv(n, jobs, s) && Possible(n, jobs, s, moves) && ChunksFit(jobs, size)
    ensures s.phase.Keys == jobs.Keys
    ensures |moves| <= MovesLeft(jobs, s, size)
    decreases |moves|
  {
    if moves != [] {
      DeviceHoldsAtMost(n, jobs, s, size);
      NextLessWork(n, jobs, s, moves[0].t, moves[0].act, |jobs| * size);
      NextKeepsInv(n, jobs, s, moves[0].t, moves[0].act);
      MovesUseWork(n, jobs, Next(n, jobs, s, moves[0].t, moves[0].act), moves[1..], size);
    }
  }

  /** Every run of the server is finite: with chunks of at most `size` bytes, no run makes more moves than this. */
  lemma RunsAreBounded(n: nat, jobs: Jobs, moves: seq<Move>, size: nat)
    requires n > 0 && Possible(n, jobs, Initial(jobs), moves) && ChunksFit(jobs, size)
    ensures |moves| <= |jobs| * (|jobs| * size + 6)
  {
    InitialInv(n, jobs);
    MovesUseWork(n, jobs, Initial(jobs), moves, size);
    WorkAtStart(Initial(jobs).phase, jobs.Keys, |jobs| * size);
  }

  // ---------------------------------------------------------------- everybody finishes

  /** Whoever holds file_mutex and is not stuck can go on: the protocol has no other dead end. */
  lemma HolderCanMove(n: nat, jobs: Jobs, s: Srv, t: Session) returns (act: Act)
    requires SrvInv(n, jobs, s) && s.owner == Some(t) && t in s.phase && !s.phase[t].Stuck?
    requires s.phase[t].Opened? && jobs[t].Packet? ==>
               jobs[t].chunk != [] && |Contents(n, s.sys.dev)| + s.sys.dev.cur.size + |jobs[t].chunk| < LOFF_LIMIT
    requires s.phase[t].Opened? && jobs[t].SeekTo? ==> CommandDefined(n, s.sys.dev, jobs[t].cmd)
    ensures CanAct(n, jobs, s, t, act)
  {
    assert ReadInv(n, s, t);
    match s.phase[t]
    case Locked => act := OpenFile;
    case Opened =>
      if jobs[t].Packet? {
        var env := WriteCanSucceed(n, s.sys.dev, s.sys.pos[t], jobs[t].chunk);
        act := Append(env);
      } else {
        act := Seek;
      }
    case Written => act := Rewind;
    case Reading(_, _, _) => act := ReadMore(1);
    case Drained(_, _, _) => act := Finish;
    case _ => assert false;
  }

  /** Chunks are non-empty and fit in memory together; command indices stay in the range C defines. */
  ghost predicate JobsFit(n: nat, jobs: Jobs, size: nat) {
    && ChunksFit(jobs, size)
    && |jobs| * size < LOFF_LIMIT
    && (forall t :: t in jobs && jobs[t].Packet? ==> jobs[t].chunk != [])
    && (forall t :: t in jobs && jobs[t].SeekTo? ==> jobs[t].cmd + n <= 0x8000_0000)
  }

  lemma ChunkFits(n: nat, jobs: Jobs, s: Srv, t: Session, size: nat)
    requires SrvInv(n, jobs, s) && JobsFit(n, jobs, size)
    requires s.owner == Some(t) && t in jobs && jobs[t].Packet? && t in s.phase && s.phase[t].Opened?
    ensures |Contents(n, s.sys.dev)| + s.sys.dev.cur.size + |jobs[t].chunk| < LOFF_LIMIT
  {
    DeviceBytes(n, jobs, s, size);
    assert |Appended(jobs, s)| == |s.order| - 1;
    OneMoreTurn(|s.order| - 1, size);
    TimesMonotone(|s.order|, |jobs|, size);
  }

  lemma SomeoneCanMove(n: nat, jobs: Jobs, s: Srv, size: nat) returns (t: Session, act: Act)
    requires SrvInv(n, jobs, s) && JobsFit(n, jobs, size) && !SomeoneStuck(s)
    requires s.owner.Some? || exists u :: u in s.phase && s.phase[u].Ready?
    ensures CanAct(n, jobs, s, t, act)
  {
    if s.owner.Some? {
      t := s.owner.value;
      if s.phase[t].Opened? && jobs[t].Packet? {
        ChunkFits(n, jobs, s, t, size);
      }
      act := HolderCanMove(n, jobs, s, t);
    } else {
      t :| t in s.phase && s.phase[t].Ready?;
      act := Take;
    }
  }

  /** No session can make a move. */
  ghost predicate AtRest(n: nat, jobs: Jobs, s: Srv)
    requires n > 0
  {
    forall t, act :: !CanAct(n, jobs, s, t, act)
  }

  /**
    Exactly when the server serves everyone.  A run that has gone on as long as it can (and
    none goes on for ever) has finished every session and released file_mutex if and only if
    no seek in it was refused.
   */
  lemma AllFinishIff(n: nat, jobs: Jobs, moves: seq<Move>, size: nat)
    requires n > 0 && Possible(n, jobs, Initial(jobs), moves) && JobsFit(n, jobs, size)
    requires AtRest(n, jobs, AfterMoves(n, jobs, Initial(jobs), moves))
    ensures var s := AfterMoves(n, jobs, Initial(jobs), moves);
            s.phase.Keys == jobs.Keys
            && (s.owner == None && (forall t :: t in jobs ==> s.phase[t].Done?)
                <==> !RefusedIn(n, jobs, Initial(jobs), moves))
  {
    var s := AfterMoves(n, jobs, Initial(jobs), moves);
    InitialInv(n, jobs);
    MovesKeepInv(n, jobs, Initial(jobs), moves);
    StuckIff(n, jobs, Initial(jobs), moves);
    if !SomeoneStuck(s) {
      if s.owner.Some? || exists u :: u in s.phase && s.phase[u].Ready? {
        var t, act := SomeoneCanMove(n, jobs, s, size);
        assert false;
      }
    }
  }
}
