/**
  The socket server's critical sections (aesdsocket.c) as interleaved steps of any number
  of sessions over one device.  A session takes file_mutex, opens the device, appends its
  packet or seeks, reads back to the end, closes and unlocks.
 */
module Server {
  import opened Bytes
  import opened CircularBuffer
  import opened Lines
  import opened DeviceSpec
  import opened Runs

  /** What a session was sent: a chunk with a newline to append, or a seek command. */
  datatype Job = Packet(chunk: seq<byte>) | SeekTo(cmd: nat, cmdOff: nat)

  /**
    How far a session has come.  While reading, `base` is what the device held and `from`
    the file position when reading began, `got` what has been read since.
   */
  datatype Phase =
    | Ready
    | Locked
    | Opened
    | Written
    | Reading(base: seq<byte>, from: int, got: seq<byte>)
    | Drained(base: seq<byte>, from: int, got: seq<byte>)
    | Done(base: seq<byte>, from: int, got: seq<byte>)
    | Stuck

  /** A session uses its own number as file handle. */
  type Session = Handle

  /** order: the appending sessions in the order in which they took file_mutex. */
  datatype Srv = Srv(sys: Sys, owner: Option<Session>, phase: map<Session, Phase>, order: seq<Session>)

  datatype Act = Take | OpenFile | Append(env: WriteEnv) | Rewind | Seek | ReadMore(count: nat) | Finish

  type Jobs = map<Session, Job>

  function Initial(jobs: Jobs): Srv {
    Srv(START, None, map t | t in jobs :: Ready, [])
  }

  function DeviceCall(jobs: Jobs, t: Session, act: Act): Op
    requires t in jobs
    requires act.OpenFile? || (act.Append? && jobs[t].Packet?) || act.Rewind? || (act.Seek? && jobs[t].SeekTo?)
             || act.ReadMore? || act.Finish?
  {
    match act
    case OpenFile => Op.Open(t)
    case Append(env) => Op.Write(t, jobs[t].chunk, env)
    case Rewind => Op.Llseek(t, 0, SEEK_SET, false)
    case Seek => Op.Ioctl(t, true, jobs[t].cmd, jobs[t].cmdOff, false, false)
    case ReadMore(count) => Op.Read(t, count, false, false)
    case Finish => Op.Release(t)
  }

  /** Appending succeeds in full: allocations succeed and the stdio buffer goes out in one write. */
  predicate AppendSucceeds(n: nat, s: Srv, jobs: Jobs, t: Session, env: WriteEnv)
    requires n > 0 && t in jobs && jobs[t].Packet?
  {
    var op := Op.Write(t, jobs[t].chunk, env);
    Enabled(n, s.sys, op) && Apply(n, s.sys, op).ret == |jobs[t].chunk|
  }

  predicate CanAct(n: nat, jobs: Jobs, s: Srv, t: Session, act: Act)
    requires n > 0
  {
    && t in jobs && t in s.phase
    && match act
       case Take => s.phase[t] == Ready && s.owner == None
       case OpenFile => s.phase[t] == Locked && Enabled(n, s.sys, Op.Open(t))
       case Append(env) => s.phase[t] == Opened && jobs[t].Packet? && AppendSucceeds(n, s, jobs, t, env)
       case Rewind => s.phase[t] == Written && Enabled(n, s.sys, DeviceCall(jobs, t, act))
       case Seek => s.phase[t] == Opened && jobs[t].SeekTo? && Enabled(n, s.sys, DeviceCall(jobs, t, act))
       case ReadMore(count) => s.phase[t].Reading? && count > 0 && Enabled(n, s.sys, DeviceCall(jobs, t, act))
       case Finish => s.phase[t].Drained? && Enabled(n, s.sys, DeviceCall(jobs, t, act))
  }

  /**
    The result of ioctl arrives as an int.  If that is negative, whether the seek was refused
    or its position does not fit, the session closes the file and returns without unlocking
    file_mutex.
   */
  function PhaseAfter(n: nat, s: Srv, t: Session, act: Act, r: Outcome): Phase
    requires t in s.phase && t in s.sys.pos
  {
    match act
    case Append(_) => Written
    case Rewind => Reading(Contents(n, s.sys.dev), 0, [])
    case Seek => if ToInt(r.ret) < 0 then Stuck else Reading(Contents(n, s.sys.dev), r.ret, [])
    case ReadMore(_) =>
      (match s.phase[t]
       case Reading(base, from, got) =>
         if r.ret > 0 then Reading(base, from, got + r.data) else Drained(base, from, got)
       case p => p)
    case _ => s.phase[t]
  }

  function Next(n: nat, jobs: Jobs, s: Srv, t: Session, act: Act): Srv
    requires n > 0 && CanAct(n, jobs, s, t, act)
  {
    match act
    case Take =>
      s.(owner := Some(t), phase := s.phase[t := Locked],
         order := if jobs[t].Packet? then s.order + [t] else s.order)
    case OpenFile =>
      s.(sys := Apply(n, s.sys, Op.Open(t)).sys, phase := s.phase[t := Opened])
    case Finish =>
      var p := s.phase[t];
      Srv(Apply(n, s.sys, Op.Release(t)).sys, None, s.phase[t := Done(p.base, p.from, p.got)], s.order)
    case _ =>
      var r := Apply(n, s.sys, DeviceCall(jobs, t, act));
      var sys := if act.Seek? && ToInt(r.ret) < 0 then r.sys.(pos := r.sys.pos - {t}) else r.sys;
      s.(sys := sys, phase := s.phase[t := PhaseAfter(n, s, t, act, r)])
  }

  /** One move of the scheduler: which session acts, and how. */
  datatype Move = Move(t: Session, act: Act)

  predicate Possible(n: nat, jobs: Jobs, s: Srv, moves: seq<Move>)
    requires n > 0
    decreases |moves|
  {
    moves == [] ||
    (CanAct(n, jobs, s, moves[0].t, moves[0].act) &&
     Possible(n, jobs, Next(n, jobs, s, moves[0].t, moves[0].act), moves[1..]))
  }

  function AfterMoves(n: nat, jobs: Jobs, s: Srv, moves: seq<Move>): Srv
    requires n > 0 && Possible(n, jobs, s, moves)
    decreases |moves|
  {
    if moves == [] then s else AfterMoves(n, jobs, Next(n, jobs, s, moves[0].t, moves[0].act), moves[1..])
  }

  // ---------------------------------------------------------------- what holds at every moment

  predicate Idle(p: Phase) {
    p.Ready? || p.Done?
  }

  predicate HasFile(p: Phase) {
    p.Opened? || p.Written? || p.Reading? || p.Drained?
  }

  /** The bytes from position p on; nothing when p lies past the end or before the start. */
  function Suffix(s: seq<byte>, p: int): seq<byte> {
    if 0 <= p <= |s| then s[p..] else []
  }

  /** Exactly the session that holds file_mutex is under way, and only it has the device open. */
  ghost predicate MutexInv(jobs: Jobs, s: Srv) {
    && s.phase.Keys == jobs.Keys
    && (s.owner.Some? ==> s.owner.value in jobs)
    && (forall t :: t in s.phase ==> (Idle(s.phase[t]) <==> s.owner != Some(t)))
    && (forall t :: t in s.phase ==> (t in s.sys.pos <==> HasFile(s.phase[t])))
  }

  ghost predicate DeviceInv(n: nat, s: Srv) {
    Inv(n, s.sys.dev) && Tight(s.sys.dev) && !s.sys.dev.locked
  }

  /** What a session in its reading phases has got, relative to where and when it began. */
  ghost predicate ReadInv(n: nat, s: Srv, t: Session)
    requires t in s.phase
  {
    match s.phase[t]
    case Opened => t in s.sys.pos && s.sys.pos[t] == 0
    case Reading(base, from, got) =>
      && t in s.sys.pos
      && base == Contents(n, s.sys.dev)
      && got + Suffix(base, s.sys.pos[t]) == Suffix(base, from)
    case Drained(base, from, got) => got == Suffix(base, from)
    case Done(base, from, got) => got == Suffix(base, from)
    case _ => true
  }

  function Chunks(jobs: Jobs, order: seq<Session>): seq<seq<byte>> {
    seq(|order|, i requires 0 <= i < |order| =>
      if order[i] in jobs && jobs[order[i]].Packet? then jobs[order[i]].chunk else [])
  }

  /** The readable contents once the given sessions have appended, in that order. */
  function ContentsAfter(n: nat, jobs: Jobs, order: seq<Session>): seq<byte> {
    Concat(LastN(n, FeedAll(NOTHING, Chunks(jobs, order)).lines))
  }

  predicate Appending(jobs: Jobs, s: Srv) {
    && s.owner.Some? && s.owner.value in jobs && jobs[s.owner.value].Packet?
    && s.owner.value in s.phase && (s.phase[s.owner.value].Locked? || s.phase[s.owner.value].Opened?)
  }

  /** The sessions whose chunk is already in the device. */
  function Appended(jobs: Jobs, s: Srv): seq<Session> {
    if Appending(jobs, s) && |s.order| > 0 then s.order[..|s.order| - 1] else s.order
  }

  ghost predicate OrderInv(n: nat, jobs: Jobs, s: Srv) {
    && (forall i :: 0 <= i < |s.order| ==>
          s.order[i] in jobs && jobs[s.order[i]].Packet? && s.order[i] in s.phase && !s.phase[s.order[i]].Ready?)
    && (forall i, j :: 0 <= i < j < |s.order| ==> s.order[i] != s.order[j])
    && (s.owner.Some? && s.owner.value in jobs && jobs[s.owner.value].Packet? ==>
          |s.order| > 0 && s.order[|s.order| - 1] == s.owner.value)
    && AssemblyOf(s.sys.dev) == FeedAll(NOTHING, Chunks(jobs, Appended(jobs, s)))
  }

  predicate BaseIs(p: Phase, c: seq<byte>) {
    p.Reading? || p.Drained? || p.Done? ==> p.base == c && p.from == 0
  }

  /** The session that took the mutex i-th began reading when exactly i + 1 chunks were in. */
  predicate BaseKept(n: nat, jobs: Jobs, s: Srv, i: nat)
    requires i < |s.order|
  {
    s.order[i] in s.phase ==> BaseIs(s.phase[s.order[i]], ContentsAfter(n, jobs, s.order[..i + 1]))
  }

  ghost predicate BaseInv(n: nat, jobs: Jobs, s: Srv) {
    forall i: nat {:trigger BaseKept(n, jobs, s, i)} :: i < |s.order| ==> BaseKept(n, jobs, s, i)
  }

  ghost predicate ReadsInv(n: nat, s: Srv) {
    forall t {:trigger ReadInv(n, s, t)} :: t in s.phase ==> ReadInv(n, s, t)
  }

  ghost predicate SrvInv(n: nat, jobs: Jobs, s: Srv) {
    && n > 0
    && DeviceInv(n, s)
    && MutexInv(jobs, s)
    && ReadsInv(n, s)
    && OrderInv(n, jobs, s)
    && BaseInv(n, jobs, s)
  }
}
