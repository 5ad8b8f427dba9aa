/**
  The two critical sections of aesdsocket.c as the code performs them, loops included, on
  the device object of the driver.
 */
module ServerCalls {
  import opened Bytes
  import opened Lines
  import opened DeviceSpec
  import opened DeviceWrites
  import opened DeviceReads
  import opened CircularBuffer
  import opened Driver

  const BUFFER_SIZE: nat := 1024

  // ---------------------------------------------------------------- what fgets and send make of a stream

  /** How many bytes one fgets(buffer, BUFFER_SIZE, file) takes from the rest of the stream. */
  function FgetsLength(s: seq<byte>): (k: nat)
    ensures k <= |s| && (s != [] ==> k > 0)
  {
    var line := if FirstNewline(s) < |s| then FirstNewline(s) + 1 else |s|;
    if line < BUFFER_SIZE - 1 then line else BUFFER_SIZE - 1
  }

  /** The bytes strlen counts. */
  function UpToNul(s: seq<byte>): (r: seq<byte>)
    ensures r <= s
    ensures NUL !in r
    ensures |r| < |s| ==> s[|r|] == NUL
  {
    if s == [] || s[0] == NUL then []
    else
      var rest := UpToNul(s[1..]);
      assert s == [s[0]] + s[1..];
      [s[0]] + rest
  }

  /** What the client receives for the stream s, line by line. */
  function SentBack(s: seq<byte>): seq<byte>
    decreases |s|
  {
    if s == [] then [] else UpToNul(s[..FgetsLength(s)]) + SentBack(s[FgetsLength(s)..])
  }

  lemma UpToNulIff(s: seq<byte>)
    ensures UpToNul(s) == s <==> NUL !in s
    ensures UpToNul(s) != s ==> |UpToNul(s)| < |s|
  {
    var r := UpToNul(s);
    if |r| == |s| {
      assert r == s;
    } else {
      assert s[|r|] == NUL;
    }
  }

  lemma InEitherPart(s: seq<byte>, k: nat, b: byte)
    requires k <= |s|
    ensures s == s[..k] + s[k..]
    ensures b in s <==> b in s[..k] || b in s[k..]
  {
    assert s == s[..k] + s[k..];
  }

  lemma {:induction false} SentBackShrinks(s: seq<byte>)
    ensures |SentBack(s)| <= |s|
    ensures NUL in s ==> |SentBack(s)| < |s|
    ensures NUL !in s ==> SentBack(s) == s
    decreases |s|
  {
    if s != [] {
      var k := FgetsLength(s);
      UpToNulIff(s[..k]);
      SentBackShrinks(s[k..]);
      InEitherPart(s, k, NUL);
    }
  }

  /** The client receives the stream itself if and only if it holds no NUL byte. */
  lemma SentBackIff(s: seq<byte>)
    ensures SentBack(s) == s <==> NUL !in s
  {
    SentBackShrinks(s);
  }

  // ---------------------------------------------------------------- what send makes of a reused buffer

  /** The buffer after a read has put a piece at its front. */
  function Overlaid(buffer: seq<byte>, piece: seq<byte>): (b: seq<byte>)
    requires |piece| <= |buffer|
    ensures |b| == |buffer|
  {
    piece + buffer[|piece|..]
  }

  /** What is sent when each piece is read over the last and strlen of the buffer is sent. */
  function SentFrom(buffer: seq<byte>, pieces: seq<seq<byte>>): seq<byte>
    requires forall i :: 0 <= i < |pieces| ==> |pieces[i]| <= |buffer|
    decreases |pieces|
  {
    if pieces == [] then []
    else UpToNul(Overlaid(buffer, pieces[0])) + SentFrom(Overlaid(buffer, pieces[0]), pieces[1..])
  }

  /** No piece is shorter than the one before it, the first not than `least`. */
  predicate NeverShorter(least: nat, pieces: seq<seq<byte>>)
    decreases |pieces|
  {
    pieces == [] || (least <= |pieces[0]| && NeverShorter(|pieces[0]|, pieces[1..]))
  }

  /** The first h bytes are in use, the rest are NUL. */
  predicate InUse(buffer: seq<byte>, h: nat) {
    h <= |buffer| && NUL !in buffer[..h] && forall i :: h <= i < |buffer| ==> buffer[i] == NUL
  }

  lemma UpToNulOf(buffer: seq<byte>, h: nat)
    requires InUse(buffer, h)
    ensures UpToNul(buffer) == buffer[..h]
  {
    var r := UpToNul(buffer);
    assert forall i :: 0 <= i < h ==> buffer[i] == buffer[..h][i] != NUL;
    assert forall i :: 0 <= i < |r| ==> buffer[i] == r[i] != NUL;
    assert |r| < |buffer| ==> buffer[|r|] == NUL;
    assert h < |buffer| ==> buffer[h] == NUL;
    assert |r| == h;
  }

  lemma OverlaidInUse(buffer: seq<byte>, h: nat, piece: seq<byte>)
    requires InUse(buffer, h) && |piece| <= |buffer| && NUL !in piece
    ensures InUse(Overlaid(buffer, piece), if h <= |piece| then |piece| else h)
    ensures h <= |piece| ==> UpToNul(Overlaid(buffer, piece)) == piece
    ensures |UpToNul(Overlaid(buffer, piece))| == if h <= |piece| then |piece| else h
  {
    var b, most := Overlaid(buffer, piece), if h <= |piece| then |piece| else h;
    forall i | 0 <= i < most
      ensures b[i] != NUL
    {
      assert i < |piece| ==> b[i] == piece[i];
      assert i >= |piece| ==> b[i] == buffer[..h][i];
    }
    assert NUL !in b[..most];
    UpToNulOf(b, most);
  }

  lemma {:induction false} SentFromLength(buffer: seq<byte>, h: nat, pieces: seq<seq<byte>>)
    requires forall i :: 0 <= i < |pieces| ==> |pieces[i]| <= |buffer| && NUL !in pieces[i]
    requires InUse(buffer, h)
    ensures |SentFrom(buffer, pieces)| >= |Concat(pieces)|
    ensures !NeverShorter(h, pieces) ==> |SentFrom(buffer, pieces)| > |Concat(pieces)|
    ensures NeverShorter(h, pieces) ==> SentFrom(buffer, pieces) == Concat(pieces)
    decreases |pieces|
  {
    if pieces != [] {
      var most := if h <= |pieces[0]| then |pieces[0]| else h;
      OverlaidInUse(buffer, h, pieces[0]);
      SentFromLength(Overlaid(buffer, pieces[0]), most, pieces[1..]);
    }
  }

  lemma {:induction false} SentFromHasNoNul(buffer: seq<byte>, pieces: seq<seq<byte>>)
    requires forall i :: 0 <= i < |pieces| ==> |pieces[i]| <= |buffer|
    ensures NUL !in SentFrom(buffer, pieces)
    decreases |pieces|
  {
    if pieces != [] {
      SentFromHasNoNul(Overlaid(buffer, pieces[0]), pieces[1..]);
    }
  }

  lemma PieceOfConcat(pieces: seq<seq<byte>>, i: nat)
    requires i < |pieces| && NUL !in Concat(pieces)
    ensures NUL !in pieces[i]
  {
    ConcatSplit(pieces, i);
    assert forall b :: b in pieces[i] ==> b in Concat(pieces);
  }

  /**
    With a buffer cleared by memset, the client gets the bytes read exactly when they hold
    no NUL and no read is shorter than the one before.
   */
  lemma SentFromIff(size: nat, pieces: seq<seq<byte>>)
    requires forall i :: 0 <= i < |pieces| ==> |pieces[i]| <= size
    ensures SentFrom(Cleared(size), pieces) == Concat(pieces)
            <==> NUL !in Concat(pieces) && NeverShorter(0, pieces)
  {
    SentFromHasNoNul(Cleared(size), pieces);
    if NUL !in Concat(pieces) {
      forall i | 0 <= i < |pieces|
        ensures NUL !in pieces[i]
      {
        PieceOfConcat(pieces, i);
      }
      SentFromLength(Cleared(size), 0, pieces);
    }
  }

  /** A buffer after memset to zero. */
  function Cleared(size: nat): (b: seq<byte>)
    ensures |b| == size && InUse(b, 0)
  {
    seq(size, _ => NUL)
  }

  // ---------------------------------------------------------------- how a loop of reads cuts the contents

  /** The pieces that reads of `size` bytes return from position pos to the end of file. */
  function Cuts(n: nat, m: Model, pos: int, size: nat): (pieces: seq<seq<byte>>)
    decreases if 0 <= pos <= |Contents(n, m)| then |Contents(n, m)| - pos else 0
  {
    var r := ReadResult(n, m, pos, size, false, false);
    if r.ret <= 0 then []
    else
      ReadIsStream(n, m, pos, size, false, false);
      [r.data] + Cuts(n, m, r.pos, size)
  }

  /** The bytes from pos on; none when pos lies before the start or past the end. */
  function From(c: seq<byte>, pos: int): seq<byte> {
    if 0 <= pos <= |c| then c[pos..] else []
  }

  /** One read cuts off one piece, which is neither empty nor longer than the buffer. */
  lemma CutsStep(n: nat, m: Model, pos: int, size: nat)
    requires size > 0
    ensures var r, c := ReadResult(n, m, pos, size, false, false), Contents(n, m);
            if 0 <= pos < |c| then
              && r.ret > 0
              && pos < r.pos <= |c| && r.pos - pos <= size
              && r.data == c[pos..r.pos]
              && Cuts(n, m, pos, size) == [r.data] + Cuts(n, m, r.pos, size)
            else r.ret <= 0 && Cuts(n, m, pos, size) == []
  {
    if pos >= 0 {
      ReadEndsAtEnd(n, m, pos, size);
      if pos < |Contents(n, m)| {
        ReadIsStream(n, m, pos, size, false, false);
      }
    }
  }

  lemma FromStep(c: seq<byte>, p: nat, q: nat)
    requires p <= q <= |c|
    ensures c[p..q] + From(c, q) == From(c, p)
  {
  }

  lemma {:induction false} CutsMakeUp(n: nat, m: Model, pos: int, size: nat)
    requires size > 0
    ensures Concat(Cuts(n, m, pos, size)) == From(Contents(n, m), pos)
    ensures forall i :: 0 <= i < |Cuts(n, m, pos, size)| ==> 0 < |Cuts(n, m, pos, size)[i]| <= size
    decreases if 0 <= pos <= |Contents(n, m)| then |Contents(n, m)| - pos else 0
  {
    CutsStep(n, m, pos, size);
    if 0 <= pos < |Contents(n, m)| {
      var r := ReadResult(n, m, pos, size, false, false);
      CutsMakeUp(n, m, r.pos, size);
      FromStep(Contents(n, m), pos, r.pos);
    }
  }

  /** A read of enough bytes from the start of a live command returns that command. */
  lemma CutIsCommand(n: nat, m: Model, k: nat, size: nat)
    requires k < |Window(n, m)| && 0 < |Window(n, m)[k].data| <= size
    ensures var w := Window(n, m);
            var p, q := Sum(Entries(w), k), Sum(Entries(w), k + 1);
            && p < |Contents(n, m)|
            && ReadResult(n, m, p, size, false, false).pos == q
            && ReadResult(n, m, p, size, false, false).data == w[k].data
  {
    var w := Window(n, m);
    var p := Sum(Entries(w), k);
    EntriesMeasureContents(w);
    SumMonotone(Entries(w), k + 1, |w|);
    assert Entries(w)[k].size == |w[k].data|;
    ReadStopsAtEntry(n, m, k, p, size);
    ReadIsStream(n, m, p, size, false, false);
    assert w[k].data[..|w[k].data|] == w[k].data;
  }

  lemma {:induction false} OneByOne<T>(f: nat -> seq<T>, s: seq<T>, k: nat)
    requires k <= |s| && f(|s|) == []
    requires forall i: nat :: i < |s| ==> f(i) == [s[i]] + f(i + 1)
    ensures f(k) == s[k..]
    decreases |s| - k
  {
    if k < |s| {
      OneByOne(f, s, k + 1);
    }
  }

  /** The pieces that reads of `size` bytes return from live command k on. */
  function CutsFromCommand(n: nat, m: Model, size: nat, k: nat): seq<seq<byte>> {
    if k <= |Window(n, m)| then Cuts(n, m, Sum(Entries(Window(n, m)), k), size) else []
  }

  lemma OneMoreCut(n: nat, m: Model, size: nat, k: nat)
    requires k < |Window(n, m)| && 0 < |Window(n, m)[k].data| <= size
    ensures CutsFromCommand(n, m, size, k) == [Window(n, m)[k].data] + CutsFromCommand(n, m, size, k + 1)
  {
    CutIsCommand(n, m, k, size);
    CutsStep(n, m, Sum(Entries(Window(n, m)), k), size);
  }

  lemma NoCutAtEnd(n: nat, m: Model, size: nat)
    requires size > 0
    ensures CutsFromCommand(n, m, size, |Window(n, m)|) == []
  {
    EntriesMeasureContents(Window(n, m));
    CutsStep(n, m, |Contents(n, m)|, size);
  }

  /** Commands that fit the buffer are read back one by one. */
  lemma CutsAreCommands(n: nat, m: Model, size: nat, k: nat)
    requires k <= |Window(n, m)| && size > 0
    requires forall i :: 0 <= i < |Window(n, m)| ==> 0 < |Window(n, m)[i].data| <= size
    ensures Cuts(n, m, Sum(Entries(Window(n, m)), k), size) == Datas(Window(n, m))[k..]
  {
    var w := Window(n, m);
    forall i: nat | i < |w|
      ensures CutsFromCommand(n, m, size, i) == [Datas(w)[i]] + CutsFromCommand(n, m, size, i + 1)
    {
      OneMoreCut(n, m, size, i);
    }
    NoCutAtEnd(n, m, size);
    OneByOne((i: nat) => CutsFromCommand(n, m, size, i), Datas(w), k);
  }

  /** What is sent from a buffer for the reads from pos to the end of file. */
  function CutsSent(n: nat, m: Model, pos: int, buffer: seq<byte>): seq<byte>
    requires |buffer| > 0
  {
    CutsMakeUp(n, m, pos, |buffer|);
    SentFrom(buffer, Cuts(n, m, pos, |buffer|))
  }

  // ---------------------------------------------------------------- the loops

  /** file_mutex */
  class Mutex {
    var held: bool

    method Lock()
      requires !held
      modifies this
      ensures held
    {
      held := true;
    }

    method Unlock()
      requires held
      modifies this
      ensures !held
    {
      held := false;
    }
  }

  /** Read until end of file, at most `size` bytes at a time. */
  method ReadBack(dev: AesdDevice, filp: File, size: nat) returns (got: seq<byte>)
    requires dev.Valid() && !dev.locked && size > 0
    modifies filp, dev`locked
    ensures dev.State() == old(dev.State()) && dev.Valid()
    ensures got == From(Contents(dev.Capacity(), dev.State()), old(filp.fPos))
  {
    ghost var m, from := dev.State(), filp.fPos;
    got := [];
    while true
      invariant dev.State() == m && dev.Valid()
      invariant got + From(Contents(dev.Capacity(), m), filp.fPos) == From(Contents(dev.Capacity(), m), from)
      decreases ToRead(dev.Capacity(), m, filp.fPos)
    {
      ReadBackStep(dev.Capacity(), m, filp.fPos, size, got);
      var n, data := dev.Read(filp, size, false, false);
      if n <= 0 {
        break;
      }
      got := got + data;
    }
  }

  /** An upper bound on the reads still to come. */
  function ToRead(n: nat, m: Model, pos: int): nat {
    if 0 <= pos <= |Contents(n, m)| then |Contents(n, m)| - pos else 0
  }

  lemma ReadBackStep(n: nat, m: Model, pos: int, size: nat, got: seq<byte>)
    requires size > 0
    ensures var r, c := ReadResult(n, m, pos, size, false, false), Contents(n, m);
            if r.ret > 0
            then (got + r.data) + From(c, r.pos) == got + From(c, pos) && ToRead(n, m, r.pos) < ToRead(n, m, pos)
            else got == got + From(c, pos)
  {
    CutsStep(n, m, pos, size);
    var r, c := ReadResult(n, m, pos, size, false, false), Contents(n, m);
    if 0 <= pos < |c| {
      FromStep(c, pos, r.pos);
      Assoc(got, r.data, From(c, r.pos));
    } else {
      NothingAppended(got);
    }
  }

  /** fgets and send until the stream is used up. */
  method SendLines(content: seq<byte>) returns (sent: seq<byte>)
    ensures sent == SentBack(content)
  {
    sent := [];
    var rest := content;
    while rest != []
      invariant SentBack(content) == sent + SentBack(rest)
      decreases |rest|
    {
      var k := FgetsLength(rest);
      var line := rest[..k];
      Assoc(sent, UpToNul(line), SentBack(rest[k..]));
      sent := sent + UpToNul(line);
      rest := rest[k..];
    }
    NothingAppended(sent);
  }

  /**
    The kernel's choices for the writes by which stdio gets a chunk out: each takes
    something, and a short one is followed by a write of the rest, until all is out.
   */
  ghost predicate GoesOut(n: nat, m: Model, pos: int, chunk: seq<byte>, envs: seq<WriteEnv>)
    requires n > 0
    decreases |envs|
  {
    if envs == [] then chunk == []
    else
      && EnvOk(n, m, chunk, envs[0])
      && var r := WriteResult(n, m, pos, chunk, envs[0]);
      && 0 < r.ret <= |chunk|
      && GoesOut(n, r.m, pos, chunk[r.ret..], envs[1..])
  }

  /** The device after these writes. */
  ghost function AfterWrites(n: nat, m: Model, pos: int, chunk: seq<byte>, envs: seq<WriteEnv>): Model
    requires n > 0 && GoesOut(n, m, pos, chunk, envs)
    decreases |envs|
  {
    if envs == [] then m
    else
      var r := WriteResult(n, m, pos, chunk, envs[0]);
      AfterWrites(n, r.m, pos, chunk[r.ret..], envs[1..])
  }

  /** What each of them takes. */
  ghost function PiecesTaken(n: nat, m: Model, pos: int, chunk: seq<byte>, envs: seq<WriteEnv>): seq<seq<byte>>
    requires n > 0 && GoesOut(n, m, pos, chunk, envs)
    decreases |envs|
  {
    if envs == [] then []
    else
      var r := WriteResult(n, m, pos, chunk, envs[0]);
      [chunk[..r.ret]] + PiecesTaken(n, r.m, pos, chunk[r.ret..], envs[1..])
  }

  /** The writes from the i-th on, behind `pieces`, are what is left of a chunk going out. */
  ghost predicate GoingOut(n: nat, m: Model, pos: int, rest: seq<byte>, envs: seq<WriteEnv>, i: nat,
                           pieces: seq<seq<byte>>, after: Model, all: seq<seq<byte>>)
    requires n > 0 && i <= |envs|
  {
    && GoesOut(n, m, pos, rest, envs[i..])
    && AfterWrites(n, m, pos, rest, envs[i..]) == after
    && pieces + PiecesTaken(n, m, pos, rest, envs[i..]) == all
  }

  lemma GoingOutStep(n: nat, m: Model, pos: int, rest: seq<byte>, envs: seq<WriteEnv>, i: nat,
                     pieces: seq<seq<byte>>, after: Model, all: seq<seq<byte>>)
    requires n > 0 && i < |envs| && GoingOut(n, m, pos, rest, envs, i, pieces, after, all)
    ensures EnvOk(n, m, rest, envs[i])
    ensures var r := WriteResult(n, m, pos, rest, envs[i]);
            && 0 < r.ret <= |rest|
            && GoingOut(n, r.m, pos, rest[r.ret..], envs, i + 1, pieces + [Taken(rest, r.ret)], after, all)
  {
    assert envs[i..][0] == envs[i] && envs[i..][1..] == envs[i + 1..];
    var r := WriteResult(n, m, pos, rest, envs[i]);
    Assoc(pieces, [rest[..r.ret]], PiecesTaken(n, r.m, pos, rest[r.ret..], envs[i + 1..]));
  }

  /** If the bytes fit in memory, the kernel has choices under which a chunk goes out. */
  lemma CanGoOut(n: nat, m: Model, pos: nat, chunk: seq<byte>) returns (envs: seq<WriteEnv>)
    requires Inv(n, m) && chunk != []
    requires |Contents(n, m)| + m.cur.size + |chunk| < LOFF_LIMIT
    ensures GoesOut(n, m, pos, chunk, envs)
  {
    var env := WriteCanSucceed(n, m, pos, chunk);
    envs := [env];
    assert envs[1..] == [];
  }

  /** A write that takes something leaves the lock as it was. */
  lemma TakingKeepsLock(n: nat, m: Model, pos: int, buf: seq<byte>, env: WriteEnv)
    requires n > 0 && EnvOk(n, m, buf, env) && WriteResult(n, m, pos, buf, env).ret > 0
    ensures WriteResult(n, m, pos, buf, env).m.locked == m.locked
  {
  }

  /** What the first of these writes takes is fed to the assembly. */
  lemma FirstWriteFeeds(n: nat, m: Model, pos: int, chunk: seq<byte>, env: WriteEnv)
    requires Inv(n, m) && EnvOk(n, m, chunk, env) && WriteResult(n, m, pos, chunk, env).ret > 0
    ensures var r := WriteResult(n, m, pos, chunk, env);
            && Inv(n, r.m)
            && (Tight(m) ==> Tight(r.m) && AssemblyOf(r.m) == Feed(AssemblyOf(m), Taken(chunk, r.ret)))
  {
    WriteKeepsInv(n, m, pos, chunk, env);
    WriteFeeds(n, m, pos, chunk, env);
    FoundWhenTight(n, m, env.junk);
  }

  /** The pieces make up the chunk, and as long as no buffer was lost each is fed to the assembly. */
  lemma {:induction false} WritesFeed(n: nat, m: Model, pos: int, chunk: seq<byte>, envs: seq<WriteEnv>)
    requires Inv(n, m) && GoesOut(n, m, pos, chunk, envs)
    ensures var after, pieces := AfterWrites(n, m, pos, chunk, envs), PiecesTaken(n, m, pos, chunk, envs);
            && Concat(pieces) == chunk && |pieces| == |envs|
            && (Tight(m) ==> Tight(after) && AssemblyOf(after) == FeedAll(AssemblyOf(m), pieces))
    decreases |envs|
  {
    if envs != [] {
      var r := WriteResult(n, m, pos, chunk, envs[0]);
      FirstWriteFeeds(n, m, pos, chunk, envs[0]);
      WritesFeed(n, r.m, pos, chunk[r.ret..], envs[1..]);
      Halves(chunk, r.ret);
      var rest := PiecesTaken(n, r.m, pos, chunk[r.ret..], envs[1..]);
      assert ([chunk[..r.ret]] + rest)[1..] == rest;
    }
  }

  /** One write that takes something. */
  method WriteSome(dev: AesdDevice, file: File, buf: seq<byte>, env: WriteEnv) returns (ret: int)
    requires dev.Valid() && !dev.locked && EnvOk(dev.Capacity(), dev.State(), buf, env)
    requires 0 < WriteResult(dev.Capacity(), dev.State(), file.fPos, buf, env).ret <= |buf|
    modifies dev, dev.heap, dev.cBuffer, dev.cBuffer.entry
    ensures dev.Valid() && !dev.locked
    ensures Result(dev.State(), ret) == WriteResult(dev.Capacity(), old(dev.State()), file.fPos, buf, env)
  {
    TakingKeepsLock(dev.Capacity(), dev.State(), file.fPos, buf, env);
    ret := dev.Write(file, buf, env);
  }

  /** Write after write, until the chunk is out. */
  method PutOut(dev: AesdDevice, file: File, chunk: seq<byte>, envs: seq<WriteEnv>)
    returns (ghost pieces: seq<seq<byte>>)
    requires dev.Valid() && !dev.locked
    requires GoesOut(dev.Capacity(), dev.State(), file.fPos, chunk, envs)
    modifies dev, dev.heap, dev.cBuffer, dev.cBuffer.entry
    ensures dev.Valid() && !dev.locked
    ensures dev.State() == AfterWrites(dev.Capacity(), old(dev.State()), file.fPos, chunk, envs)
    ensures pieces == PiecesTaken(dev.Capacity(), old(dev.State()), file.fPos, chunk, envs)
  {
    ghost var n, pos := dev.Capacity(), file.fPos;
    ghost var after := AfterWrites(n, dev.State(), pos, chunk, envs);
    ghost var all := PiecesTaken(n, dev.State(), pos, chunk, envs);
    NothingAppended(all);
    assert envs[0..] == envs;
    pieces := [];
    var rest := chunk;
    for i := 0 to |envs|
      invariant dev.Valid() && !dev.locked
      invariant GoingOut(n, dev.State(), pos, rest, envs, i, pieces, after, all)
    {
      GoingOutStep(n, dev.State(), pos, rest, envs, i, pieces, after, all);
      var ret := WriteSome(dev, file, rest, envs[i]);
      pieces := pieces + [Taken(rest, ret)];
      rest := rest[ret..];
    }
    NothingAppended(pieces);
  }

  /** fwrite and fflush. */
  method AppendToDevice(dev: AesdDevice, file: File, chunk: seq<byte>, envs: seq<WriteEnv>)
    returns (ghost pieces: seq<seq<byte>>)
    requires dev.Valid() && !dev.locked
    requires GoesOut(dev.Capacity(), dev.State(), file.fPos, chunk, envs)
    modifies dev, dev.heap, dev.cBuffer, dev.cBuffer.entry
    ensures dev.Valid() && !dev.locked
    ensures dev.State() == AfterWrites(dev.Capacity(), old(dev.State()), file.fPos, chunk, envs)
    ensures pieces == PiecesTaken(dev.Capacity(), old(dev.State()), file.fPos, chunk, envs)
    ensures Concat(pieces) == chunk && |pieces| == |envs|
    ensures old(Tight(dev.State())) ==>
              Tight(dev.State()) && AssemblyOf(dev.State()) == FeedAll(old(AssemblyOf(dev.State())), pieces)
  {
    WritesFeed(dev.Capacity(), dev.State(), file.fPos, chunk, envs);
    pieces := PutOut(dev, file, chunk, envs);
  }

  // ---------------------------------------------------------------- the critical sections

  /** Rewind, read back and send. */
  method SendContents(dev: AesdDevice, file: File, stdioSize: nat) returns (sent: seq<byte>)
    requires dev.Valid() && !dev.locked && stdioSize > 0
    modifies file, dev`locked
    ensures dev.Valid() && dev.State() == old(dev.State())
    ensures sent == SentBack(Contents(dev.Capacity(), dev.State()))
  {
    ghost var m := dev.State();
    var start := dev.Llseek(file, 0, SEEK_SET, false);
    assert file.fPos == 0 && dev.State() == m;
    var content := ReadBack(dev, file, stdioSize);
    sent := SendLines(content);
  }

  /**
    message_handler_thread from lock to unlock: open, write the chunk, rewind, read back and
    send.  stdioSize is the block size stdio reads with.
   */
  method MessageHandler(mutex: Mutex, dev: AesdDevice, chunk: seq<byte>, envs: seq<WriteEnv>, stdioSize: nat)
    returns (sent: seq<byte>, ghost pieces: seq<seq<byte>>)
    requires !mutex.held && dev.Valid() && !dev.locked && stdioSize > 0
    requires GoesOut(dev.Capacity(), dev.State(), 0, chunk, envs)
    modifies mutex, dev, dev.heap, dev.cBuffer, dev.cBuffer.entry
    ensures !mutex.held && dev.Valid() && !dev.locked
    ensures Concat(pieces) == chunk
    ensures dev.State() == AfterWrites(dev.Capacity(), old(dev.State()), 0, chunk, envs)
    ensures pieces == PiecesTaken(dev.Capacity(), old(dev.State()), 0, chunk, envs)
    ensures old(Tight(dev.State())) ==>
              AssemblyOf(dev.State()) == FeedAll(old(AssemblyOf(dev.State())), pieces)
    ensures sent == SentBack(Contents(dev.Capacity(), dev.State()))
  {
    mutex.Lock();
    var file := new File();
    pieces := AppendToDevice(dev, file, chunk, envs);
    ghost var m := dev.State();
    sent := SendContents(dev, file, stdioSize);
    assert dev.State() == m;
    mutex.Unlock();
  }

  /** What has been read and sent, and what is still to come, make up the whole. */
  ghost predicate Sending(n: nat, m: Model, pos: int, buffer: seq<byte>, got: seq<byte>, sent: seq<byte>,
                          allGot: seq<byte>, allSent: seq<byte>)
  {
    && |buffer| > 0
    && got + From(Contents(n, m), pos) == allGot
    && sent + CutsSent(n, m, pos, buffer) == allSent
  }

  /** One read into the buffer, seen from the whole loop. */
  lemma SendingStep(n: nat, m: Model, pos: int, buffer: seq<byte>, got: seq<byte>, sent: seq<byte>,
                    allGot: seq<byte>, allSent: seq<byte>)
    requires Sending(n, m, pos, buffer, got, sent, allGot, allSent)
    ensures var r := ReadResult(n, m, pos, |buffer|, false, false);
            if r.ret > 0 then
              && |r.data| <= |buffer|
              && var b := Overlaid(buffer, r.data);
              && Sending(n, m, r.pos, b, got + r.data, sent + UpToNul(b), allGot, allSent)
              && ToRead(n, m, r.pos) < ToRead(n, m, pos)
            else got == allGot && sent == allSent
  {
    ReadBackStep(n, m, pos, |buffer|, got);
    CutsStep(n, m, pos, |buffer|);
    var r := ReadResult(n, m, pos, |buffer|, false, false);
    if r.ret > 0 {
      var b := Overlaid(buffer, r.data);
      assert Cuts(n, m, pos, |buffer|)[1..] == Cuts(n, m, r.pos, |buffer|);
      Assoc(sent, UpToNul(b), CutsSent(n, m, r.pos, b));
    } else {
      NothingAppended(sent);
    }
  }

  /** Read until end of file into the reused buffer, sending strlen of it each time. */
  method ReadAndSend(dev: AesdDevice, filp: File, cmdBuffer: array<byte>) returns (got: seq<byte>, sent: seq<byte>)
    requires dev.Valid() && !dev.locked && cmdBuffer.Length > 0
    modifies filp, dev`locked, cmdBuffer
    ensures dev.State() == old(dev.State()) && dev.Valid()
    ensures got == From(Contents(dev.Capacity(), dev.State()), old(filp.fPos))
    ensures sent == CutsSent(dev.Capacity(), dev.State(), old(filp.fPos), old(cmdBuffer[..]))
  {
    ghost var n, m := dev.Capacity(), dev.State();
    ghost var allGot, allSent := From(Contents(n, m), filp.fPos), CutsSent(n, m, filp.fPos, cmdBuffer[..]);
    NothingAppended(allGot);
    NothingAppended(allSent);
    got, sent := [], [];
    while true
      invariant dev.State() == m && dev.Valid()
      invariant Sending(n, m, filp.fPos, cmdBuffer[..], got, sent, allGot, allSent)
      decreases ToRead(n, m, filp.fPos)
    {
      SendingStep(n, m, filp.fPos, cmdBuffer[..], got, sent, allGot, allSent);
      var ret, data := dev.Read(filp, cmdBuffer.Length, false, false);
      if ret <= 0 {
        break;
      }
      Overlay(cmdBuffer, data);
      got := got + data;
      sent := sent + UpToNul(cmdBuffer[..]);
    }
  }

  /** copy_to_user into the front of the buffer. */
  method Overlay(buffer: array<byte>, piece: seq<byte>)
    requires |piece| <= buffer.Length
    modifies buffer
    ensures buffer[..] == Overlaid(old(buffer[..]), piece)
  {
    forall i | 0 <= i < |piece| {
      buffer[i] := piece[i];
    }
  }

  /**
    handle_ioctl from lock on: open, seek, read back to the end of file with the session's
    buffer and send strlen of it each time, unlock.  The result of ioctl arrives as an int;
    when that is negative the session returns with the mutex held.
   */
  method HandleIoctl(mutex: Mutex, dev: AesdDevice, writeCmd: nat, writeCmdOffset: nat)
    returns (ok: bool, got: seq<byte>, sent: seq<byte>)
    requires !mutex.held && dev.Valid() && !dev.locked
    requires CommandDefined(dev.Capacity(), dev.State(), writeCmd)
    modifies mutex, dev`locked
    ensures dev.Valid() && dev.State() == old(dev.State())
    ensures mutex.held <==> !ok
    ensures var target := CommandTarget(dev.Capacity(), dev.State(), writeCmd, writeCmdOffset);
            ok <==> target.Some? && ToInt(target.value) >= 0
    ensures !ok ==> got == [] && sent == []
    ensures ok ==>
              var target := CommandTarget(dev.Capacity(), dev.State(), writeCmd, writeCmdOffset).value;
              var pieces := Cuts(dev.Capacity(), dev.State(), target, BUFFER_SIZE);
              && got == From(Contents(dev.Capacity(), dev.State()), target)
              && (forall i :: 0 <= i < |pieces| ==> |pieces[i]| <= BUFFER_SIZE)
              && sent == SentFrom(Cleared(BUFFER_SIZE), pieces)
              && (sent == got <==> NUL !in got && NeverShorter(0, pieces))
  {
    got, sent := [], [];
    mutex.Lock();
    var file := new File();
    var retval := dev.Ioctl(file, true, writeCmd, writeCmdOffset, false, false);
    if ToInt(retval) < 0 {
      return false, [], [];
    }
    var cmdBuffer := new byte[BUFFER_SIZE](_ => NUL);
    assert cmdBuffer[..] == Cleared(BUFFER_SIZE);
    ghost var n, m, target := dev.Capacity(), dev.State(), file.fPos;
    got, sent := ReadAndSend(dev, file, cmdBuffer);
    SentMeans(n, m, target, BUFFER_SIZE);
    mutex.Unlock();
    ok := true;
  }

  lemma SentMeans(n: nat, m: Model, target: int, size: nat)
    requires size > 0
    ensures var pieces := Cuts(n, m, target, size);
            && (forall i :: 0 <= i < |pieces| ==> |pieces[i]| <= size)
            && CutsSent(n, m, target, Cleared(size)) == SentFrom(Cleared(size), pieces)
            && (CutsSent(n, m, target, Cleared(size)) == From(Contents(n, m), target)
                <==> NUL !in From(Contents(n, m), target) && NeverShorter(0, pieces))
  {
    CutsMakeUp(n, m, target, size);
    SentFromIff(size, Cuts(n, m, target, size));
  }
}
