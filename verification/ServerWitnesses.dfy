/** Real runs of the server, from an empty device, on which the obvious claims fail. */
module ServerWitnesses {
  import opened Bytes
  import opened CircularBuffer
  import opened Lines
  import opened DeviceSpec
  import opened DeviceWrites
  import opened DeviceReads
  import opened Server
  import opened ServerProofs
  import opened ServerProgress
  import ServerCalls

  const A: byte := 65
  const B: byte := 66
  const C: byte := 67

  // ---------------------------------------------------------------- putting runs together

  lemma MoveThen(n: nat, jobs: Jobs, s: Srv, t: Session, act: Act, rest: seq<Move>)
    requires n > 0 && CanAct(n, jobs, s, t, act) && Possible(n, jobs, Next(n, jobs, s, t, act), rest)
    ensures Possible(n, jobs, s, [Move(t, act)] + rest)
    ensures AfterMoves(n, jobs, s, [Move(t, act)] + rest) == AfterMoves(n, jobs, Next(n, jobs, s, t, act), rest)
  {
    var moves := [Move(t, act)] + rest;
    assert moves[0] == Move(t, act) && moves[1..] == rest;
  }

  lemma {:induction false} MovesThen(n: nat, jobs: Jobs, s: Srv, first: seq<Move>, rest: seq<Move>)
    requires n > 0 && Possible(n, jobs, s, first) && Possible(n, jobs, AfterMoves(n, jobs, s, first), rest)
    ensures Possible(n, jobs, s, first + rest)
    ensures AfterMoves(n, jobs, s, first + rest) == AfterMoves(n, jobs, AfterMoves(n, jobs, s, first), rest)
    decreases |first|
  {
    if first == [] {
      NothingAppended(rest);
    } else {
      var next := Next(n, jobs, s, first[0].t, first[0].act);
      MovesThen(n, jobs, next, first[1..], rest);
      MoveThen(n, jobs, s, first[0].t, first[0].act, first[1..] + rest);
      assert first + rest == [Move(first[0].t, first[0].act)] + (first[1..] + rest);
    }
  }

  // ---------------------------------------------------------------- serving one session to its end

  /** From s to s', session t has been served, and nothing else has happened to the sessions. */
  ghost predicate Served(s: Srv, s': Srv, t: Session) {
    && s'.owner == None
    && s'.phase.Keys == s.phase.Keys
    && t in s.phase && s'.phase[t].Done?
    && (forall u :: u in s.phase && u != t ==> s'.phase[u] == s.phase[u])
  }

  lemma {:induction false} FinishReading(n: nat, jobs: Jobs, s: Srv, t: Session) returns (moves: seq<Move>)
    requires SrvInv(n, jobs, s) && t in s.phase && (s.phase[t].Reading? || s.phase[t].Drained?)
    ensures Possible(n, jobs, s, moves)
    ensures var s' := AfterMoves(n, jobs, s, moves);
            SrvInv(n, jobs, s') && Served(s, s', t) && s'.order == s.order && s'.sys.dev == s.sys.dev
    decreases Left(s.phase[t], 0)
  {
    assert ReadInv(n, s, t);
    if s.phase[t].Drained? {
      NextKeepsInv(n, jobs, s, t, Finish);
      MoveThen(n, jobs, s, t, Finish, []);
      moves := [Move(t, Finish)] + [];
    } else {
      var act := ReadMore(1);
      var next := Next(n, jobs, s, t, act);
      NextKeepsInv(n, jobs, s, t, act);
      NextTouchesActor(n, jobs, s, t, act);
      OtherActsKeepDevice(n, jobs, s, t, act);
      ReadLessLeft(n, jobs, s, t, 1, 0);
      var rest := FinishReading(n, jobs, next, t);
      MoveThen(n, jobs, s, t, act, rest);
      moves := [Move(t, act)] + rest;
    }
  }

  /** The three stages of a session that appends, as one run. */
  lemma StagesMakeRun(n: nat, jobs: Jobs, s: Srv, t: Session, env: WriteEnv, rest: seq<Move>)
    requires n > 0 && CanAct(n, jobs, s, t, Append(env))
    requires CanAct(n, jobs, Next(n, jobs, s, t, Append(env)), t, Rewind)
    requires Possible(n, jobs, Next(n, jobs, Next(n, jobs, s, t, Append(env)), t, Rewind), rest)
    ensures var work := [Move(t, Append(env))] + ([Move(t, Rewind)] + rest);
            && Possible(n, jobs, s, work)
            && AfterMoves(n, jobs, s, work)
            == AfterMoves(n, jobs, Next(n, jobs, Next(n, jobs, s, t, Append(env)), t, Rewind), rest)
  {
    MoveThen(n, jobs, Next(n, jobs, s, t, Append(env)), t, Rewind, rest);
    MoveThen(n, jobs, s, t, Append(env), [Move(t, Rewind)] + rest);
  }

  lemma AppendsAndRewinds(n: nat, jobs: Jobs, s: Srv, t: Session, env: WriteEnv) returns (s': Srv)
    requires SrvInv(n, jobs, s) && CanAct(n, jobs, s, t, Append(env))
    ensures CanAct(n, jobs, Next(n, jobs, s, t, Append(env)), t, Rewind)
    ensures s' == Next(n, jobs, Next(n, jobs, s, t, Append(env)), t, Rewind)
    ensures SrvInv(n, jobs, s') && t in s'.phase && s'.phase[t].Reading? && s'.order == s.order
    ensures s'.phase.Keys == s.phase.Keys && forall u :: u in s.phase && u != t ==> s'.phase[u] == s.phase[u]
  {
    var s1 := Next(n, jobs, s, t, Append(env));
    NextKeepsInv(n, jobs, s, t, Append(env));
    NextTouchesActor(n, jobs, s, t, Append(env));
    s' := Next(n, jobs, s1, t, Rewind);
    NextKeepsInv(n, jobs, s1, t, Rewind);
    NextTouchesActor(n, jobs, s1, t, Rewind);
  }

  /** A session that has the device open and a chunk that fits in memory can be served to its end. */
  lemma ServeOpened(n: nat, jobs: Jobs, s: Srv, t: Session) returns (moves: seq<Move>)
    requires SrvInv(n, jobs, s) && t in jobs && t in s.phase && s.phase[t] == Opened && t in s.sys.pos
    requires s.owner == Some(t) && s.sys.pos[t] == 0
    requires jobs[t].Packet? && jobs[t].chunk != []
    requires |Contents(n, s.sys.dev)| + s.sys.dev.cur.size + |jobs[t].chunk| < LOFF_LIMIT
    ensures Possible(n, jobs, s, moves)
    ensures var s' := AfterMoves(n, jobs, s, moves);
            SrvInv(n, jobs, s') && Served(s, s', t) && s'.order == s.order
  {
    var env := WriteCanSucceed(n, s.sys.dev, s.sys.pos[t], jobs[t].chunk);
    var s2 := AppendsAndRewinds(n, jobs, s, t, env);
    var rest := FinishReading(n, jobs, s2, t);
    StagesMakeRun(n, jobs, s, t, env, rest);
    moves := [Move(t, Append(env))] + ([Move(t, Rewind)] + rest);
  }

  /** A session whose chunk fits in memory can be served from start to end. */
  lemma ServePacket(n: nat, jobs: Jobs, s: Srv, t: Session) returns (moves: seq<Move>)
    requires SrvInv(n, jobs, s) && s.owner == None && t in jobs && t in s.phase && s.phase[t] == Ready
    requires jobs[t].Packet? && jobs[t].chunk != []
    requires |Contents(n, s.sys.dev)| + s.sys.dev.cur.size + |jobs[t].chunk| < LOFF_LIMIT
    ensures Possible(n, jobs, s, moves)
    ensures var s' := AfterMoves(n, jobs, s, moves);
            SrvInv(n, jobs, s') && Served(s, s', t) && s'.order == s.order + [t]
  {
    var s1 := Opens(n, jobs, s, t);
    var work := ServeOpened(n, jobs, s1, t);
    OpensThen(n, jobs, s, t, work);
    moves := OPENING(t) + work;
  }

  function OPENING(t: Session): seq<Move> {
    [Move(t, Take), Move(t, OpenFile)]
  }

  /** The state in which a session has taken the mutex and opened the device. */
  lemma Opens(n: nat, jobs: Jobs, s: Srv, t: Session) returns (s': Srv)
    requires SrvInv(n, jobs, s) && s.owner == None && t in jobs && t in s.phase && s.phase[t] == Ready
    ensures CanAct(n, jobs, s, t, Take) && CanAct(n, jobs, Next(n, jobs, s, t, Take), t, OpenFile)
    ensures s' == Next(n, jobs, Next(n, jobs, s, t, Take), t, OpenFile)
    ensures SrvInv(n, jobs, s') && s'.owner == Some(t) && s'.sys.dev == s.sys.dev
    ensures s'.phase == s.phase[t := Opened] && t in s'.sys.pos && s'.sys.pos[t] == 0
    ensures s'.order == if jobs[t].Packet? then s.order + [t] else s.order
  {
    var s1 := Next(n, jobs, s, t, Take);
    NextKeepsInv(n, jobs, s, t, Take);
    s' := Next(n, jobs, s1, t, OpenFile);
    NextKeepsInv(n, jobs, s1, t, OpenFile);
  }

  lemma OpensThen(n: nat, jobs: Jobs, s: Srv, t: Session, rest: seq<Move>)
    requires n > 0 && CanAct(n, jobs, s, t, Take) && CanAct(n, jobs, Next(n, jobs, s, t, Take), t, OpenFile)
    requires Possible(n, jobs, Next(n, jobs, Next(n, jobs, s, t, Take), t, OpenFile), rest)
    ensures Possible(n, jobs, s, OPENING(t) + rest)
    ensures AfterMoves(n, jobs, s, OPENING(t) + rest)
         == AfterMoves(n, jobs, Next(n, jobs, Next(n, jobs, s, t, Take), t, OpenFile), rest)
  {
    MoveThen(n, jobs, Next(n, jobs, s, t, Take), t, OpenFile, rest);
    MoveThen(n, jobs, s, t, Take, [Move(t, OpenFile)] + rest);
    assert OPENING(t) + rest == [Move(t, Take)] + ([Move(t, OpenFile)] + rest);
  }

  // ---------------------------------------------------------------- serving sessions in turn

  /** Sessions 0 .. k-1 have been served in this order, the others have not begun. */
  ghost predicate ServedUpTo(n: nat, jobs: Jobs, k: nat, s: Srv) {
    && SrvInv(n, jobs, s) && s.owner == None
    && s.order == seq(k, i => i)
    && forall t: Session :: t in s.phase ==> if t < k then s.phase[t].Done? else s.phase[t] == Ready
  }

  /** Sessions 0 .. k-1 have non-empty chunks, of at most `size` bytes, that fit in memory together. */
  ghost predicate CanServe(jobs: Jobs, k: nat, size: nat) {
    && (forall t: Session :: t < k ==> t in jobs && jobs[t].Packet? && jobs[t].chunk != [])
    && ChunksFit(jobs, size)
    && k * size < LOFF_LIMIT
  }

  lemma NextFits(n: nat, jobs: Jobs, k: nat, s: Srv, size: nat)
    requires ServedUpTo(n, jobs, k, s) && CanServe(jobs, k + 1, size)
    ensures k in jobs && jobs[k].Packet? && jobs[k].chunk != [] && k in s.phase && s.phase[k] == Ready
    ensures |Contents(n, s.sys.dev)| + s.sys.dev.cur.size + |jobs[k].chunk| < LOFF_LIMIT
  {
    DeviceBytes(n, jobs, s, size);
    TimesMonotone(|Appended(jobs, s)|, k, size);
    OneMoreTurn(k, size);
  }

  lemma OneMoreServed(n: nat, jobs: Jobs, k: nat, s: Srv, s': Srv)
    requires ServedUpTo(n, jobs, k, s) && SrvInv(n, jobs, s') && k in s.phase
    requires Served(s, s', k) && s'.order == s.order + [k]
    ensures ServedUpTo(n, jobs, k + 1, s')
  {
    assert seq(k + 1, i => i) == seq(k, i => i) + [k];
  }

  lemma ServeNext(n: nat, jobs: Jobs, k: nat, s: Srv, size: nat) returns (moves: seq<Move>)
    requires ServedUpTo(n, jobs, k, s) && CanServe(jobs, k + 1, size)
    ensures Possible(n, jobs, s, moves)
    ensures ServedUpTo(n, jobs, k + 1, AfterMoves(n, jobs, s, moves))
  {
    NextFits(n, jobs, k, s, size);
    moves := ServePacket(n, jobs, s, k);
    OneMoreServed(n, jobs, k, s, AfterMoves(n, jobs, s, moves));
  }

  lemma {:induction false} ServeUpTo(n: nat, jobs: Jobs, k: nat, size: nat) returns (moves: seq<Move>)
    requires n > 0 && CanServe(jobs, k, size)
    ensures Possible(n, jobs, Initial(jobs), moves)
    ensures ServedUpTo(n, jobs, k, AfterMoves(n, jobs, Initial(jobs), moves))
  {
    if k == 0 {
      moves := [];
      InitialInv(n, jobs);
    } else {
      TimesMonotone(k - 1, k, size);
      var first := ServeUpTo(n, jobs, k - 1, size);
      var last := ServeNext(n, jobs, k - 1, AfterMoves(n, jobs, Initial(jobs), first), size);
      MovesThen(n, jobs, Initial(jobs), first, last);
      moves := first + last;
    }
  }

  /** While nobody is under way, the commits are the packets appended so far. */
  lemma CommitsArePackets(n: nat, jobs: Jobs, s: Srv)
    requires SrvInv(n, jobs, s) && s.owner == None
    requires forall t :: t in jobs && jobs[t].Packet? ==> IsPacket(jobs[t].chunk)
    ensures Datas(s.sys.dev.commits) == Chunks(jobs, s.order)
  {
    var chunks := Chunks(jobs, s.order);
    forall i | 0 <= i < |chunks|
      ensures IsPacket(chunks[i])
    {
      assert s.order[i] in jobs && jobs[s.order[i]].Packet?;
    }
    PacketsStayWhole([], chunks);
    NothingAppended(chunks);
  }

  lemma SizeOfCommit(bs: seq<Block>, i: nat)
    requires i < |bs|
    ensures Entries(bs)[i].size == |Datas(bs)[i]|
  {
  }

  // ---------------------------------------------------------------- refused: there is no such command

  /** One session seeks on the empty device: it is stuck with file_mutex. */
  lemma SeekOnEmptyDeviceSticks(n: nat)
    requires n > 0
    ensures var jobs := map[0 := SeekTo(0, 0)];
            var moves := OPENING(0) + [Move(0, Seek)];
            && Possible(n, jobs, Initial(jobs), moves)
            && RefusedIn(n, jobs, Initial(jobs), moves)
            && SomeoneStuck(AfterMoves(n, jobs, Initial(jobs), moves))
  {
    var jobs := map[0 := SeekTo(0, 0)];
    InitialInv(n, jobs);
    var s := Opens(n, jobs, Initial(jobs), 0);
    assert Window(n, FRESH) == [];
    assert CommandTarget(n, s.sys.dev, 0, 0) == None;
    SeekSticks(n, jobs, Initial(jobs), 0);
  }

  /** A seek that fails for the server, made by a session that has just opened the device. */
  lemma SeekSticks(n: nat, jobs: Jobs, s: Srv, t: Session)
    requires SrvInv(n, jobs, s) && s.owner == None && t in jobs && t in s.phase && s.phase[t] == Ready
    requires jobs[t].SeekTo? && CommandDefined(n, s.sys.dev, jobs[t].cmd) && Refused(n, jobs, s, t, Seek)
    ensures Possible(n, jobs, s, OPENING(t) + [Move(t, Seek)])
    ensures SomeoneStuck(AfterMoves(n, jobs, s, OPENING(t) + [Move(t, Seek)]))
    ensures !SomeoneStuck(s) ==> RefusedIn(n, jobs, s, OPENING(t) + [Move(t, Seek)])
  {
    var atDevice := Opens(n, jobs, s, t);
    assert CanAct(n, jobs, atDevice, t, Seek) && Refused(n, jobs, atDevice, t, Seek);
    NextSticks(n, jobs, atDevice, t, Seek);
    MoveThen(n, jobs, atDevice, t, Seek, []);
    assert [Move(t, Seek)] + [] == [Move(t, Seek)];
    OpensThen(n, jobs, s, t, [Move(t, Seek)]);
    StuckIff(n, jobs, s, OPENING(t) + [Move(t, Seek)]);
  }

  // ---------------------------------------------------------------- accepted, but not as an int

  const LINE: seq<byte> := [A, NEWLINE]
  const FAR: nat := 0x4000_0000

  /** Sessions 0 .. k-1 append a two-byte line, session n seeks to command 2^30. */
  function LineJobs(n: nat, k: nat): (jobs: Jobs)
    requires k <= n
    ensures forall t: Session :: t in jobs <==> t < k || t == n
    ensures forall t: Session :: t < k ==> jobs[t] == Packet(LINE)
    ensures jobs[n] == SeekTo(FAR, 0)
  {
    if k == 0 then map[n := SeekTo(FAR, 0)] else LineJobs(n, k - 1)[k - 1 := Packet(LINE)]
  }

  lemma {:induction false} SumOfPairs(es: seq<Entry>, k: nat)
    requires k <= |es| && forall i :: 0 <= i < |es| ==> es[i].size == 2
    ensures Sum(es, k) == 2 * k
  {
    if k > 0 {
      SumOfPairs(es, k - 1);
    }
  }

  lemma {:induction false} StartOfPairs(es: seq<Entry>, k: nat)
    requires es != [] && forall i :: 0 <= i < |es| ==> es[i].size == 2
    ensures CommandStart(es, k) == 2 * k
  {
    if k < |es| {
      SumOfPairs(es, k);
    } else {
      SumOfPairs(es, |es|);
      StartOfPairs(es, k - |es|);
    }
  }

  /** Once all lines are in, the device takes the seek and computes 2^31. */
  lemma FarTarget(n: nat, s: Srv)
    requires 0 < n < 256 && ServedUpTo(n, LineJobs(n, n), n, s)
    ensures CommandDefined(n, s.sys.dev, FAR)
    ensures CommandTarget(n, s.sys.dev, FAR, 0) == Some(0x8000_0000)
  {
    var m := s.sys.dev;
    assert LINE[0] != NEWLINE && LINE[1] == NEWLINE;
    assert IsPacket(LINE);
    CommitsArePackets(n, LineJobs(n, n), s);
    assert |m.commits| == |Datas(m.commits)| == n;
    assert Window(n, m) == m.commits;
    forall i | 0 <= i < n
      ensures Entries(m.commits)[i].size == 2
    {
      SizeOfCommit(m.commits, i);
    }
    StartOfPairs(Entries(m.commits), FAR);
    assert Pos(n, n) == 0;
  }

  /**
    A seek the device accepts, to a position that is 2^31: as an int it is negative, and the
    session is stuck with file_mutex.  The run exists for every capacity.
   */
  lemma IntConversionSticks(n: nat) returns (before: seq<Move>)
    requires 0 < n < 256
    ensures var jobs := LineJobs(n, n);
            && Possible(n, jobs, Initial(jobs), before)
            && var s := AfterMoves(n, jobs, Initial(jobs), before);
            && CommandTarget(n, s.sys.dev, FAR, 0) == Some(0x8000_0000)
            && Possible(n, jobs, s, OPENING(n) + [Move(n, Seek)])
            && RefusedIn(n, jobs, s, OPENING(n) + [Move(n, Seek)])
            && SomeoneStuck(AfterMoves(n, jobs, s, OPENING(n) + [Move(n, Seek)]))
  {
    var jobs := LineJobs(n, n);
    before := ServeUpTo(n, jobs, n, 2);
    var s := AfterMoves(n, jobs, Initial(jobs), before);
    FarTarget(n, s);
    assert ToInt(0x8000_0000) < 0;
    SeekSticks(n, jobs, s, n);
  }

  // ---------------------------------------------------------------- what does not arrive

  const WITH_NUL: seq<byte> := [NUL, NEWLINE]

  function OnePacket(): Jobs {
    map[0 := Packet(WITH_NUL)]
  }

  /** A packet with a NUL is read back whole, and not sent whole. */
  lemma NulDoesNotArrive(n: nat) returns (moves: seq<Move>)
    requires n > 0
    ensures Possible(n, OnePacket(), Initial(OnePacket()), moves)
    ensures var s := AfterMoves(n, OnePacket(), Initial(OnePacket()), moves);
            && 0 in s.phase && s.phase[0].Done? && s.phase[0].got == WITH_NUL
            && ServerCalls.SentBack(s.phase[0].got) != s.phase[0].got
  {
    moves := ServeUpTo(n, OnePacket(), 1, 2);
    var s := AfterMoves(n, OnePacket(), Initial(OnePacket()), moves);
    assert s.order == [0] && s.order[..1] == [0];
    assert WITH_NUL[0] == NUL && WITH_NUL[1] == NEWLINE;
    assert IsPacket(WITH_NUL);
    PacketReplies(n, OnePacket(), moves, 0);
    assert Chunks(OnePacket(), s.order[..1]) == [WITH_NUL];
    ConcatOne(WITH_NUL);
    ServerCalls.SentBackIff(WITH_NUL);
  }

  const LONG: seq<byte> := [A, B, NEWLINE]
  const SHORT: seq<byte> := [C, NEWLINE]

  function TwoPackets(): Jobs {
    map[0 := Packet(LONG), 1 := Packet(SHORT)]
  }

  lemma LongAndShort()
    ensures IsPacket(LONG) && IsPacket(SHORT)
  {
    assert LONG[0] != NEWLINE && LONG[1] != NEWLINE && LONG[2] == NEWLINE;
    assert SHORT[0] != NEWLINE && SHORT[1] == NEWLINE;
  }

  lemma TwoCommands(n: nat, s: Srv)
    requires n > 1 && ServedUpTo(n, TwoPackets(), 2, s)
    ensures CommandTarget(n, s.sys.dev, 0, 0) == Some(0)
    ensures ServerCalls.Cuts(n, s.sys.dev, 0, ServerCalls.BUFFER_SIZE) == [LONG, SHORT]
  {
    var m := s.sys.dev;
    LongAndShort();
    CommitsArePackets(n, TwoPackets(), s);
    assert s.order[0] == 0 && s.order[1] == 1;
    assert Datas(m.commits) == [LONG, SHORT];
    assert m.commits[0].data == Datas(m.commits)[0] && m.commits[1].data == Datas(m.commits)[1];
    assert Window(n, m) == m.commits;
    ServerCalls.CutsAreCommands(n, m, ServerCalls.BUFFER_SIZE, 0);
  }

  /** The second read leaves the end of the first in the buffer. */
  lemma ShorterIsStale()
    ensures ServerCalls.SentFrom(ServerCalls.Cleared(ServerCalls.BUFFER_SIZE), [LONG, SHORT]) != Concat([LONG, SHORT])
  {
    ServerCalls.SentFromIff(ServerCalls.BUFFER_SIZE, [LONG, SHORT]);
    assert [LONG, SHORT][1..] == [SHORT];
    assert !ServerCalls.NeverShorter(|LONG|, [SHORT]);
  }

  /** Two packets, the second shorter: a session that seeks to the start is sent stale bytes of the first. */
  lemma StaleBytesAreSent(n: nat) returns (moves: seq<Move>)
    requires n > 1
    ensures Possible(n, TwoPackets(), Initial(TwoPackets()), moves)
    ensures var m := AfterMoves(n, TwoPackets(), Initial(TwoPackets()), moves).sys.dev;
            var pieces := ServerCalls.Cuts(n, m, 0, ServerCalls.BUFFER_SIZE);
            && CommandTarget(n, m, 0, 0) == Some(0)
            && pieces == [LONG, SHORT]
            && ServerCalls.SentFrom(ServerCalls.Cleared(ServerCalls.BUFFER_SIZE), pieces) != Concat(pieces)
  {
    moves := ServeUpTo(n, TwoPackets(), 2, 3);
    TwoCommands(n, AfterMoves(n, TwoPackets(), Initial(TwoPackets()), moves));
    ShorterIsStale();
  }
}
