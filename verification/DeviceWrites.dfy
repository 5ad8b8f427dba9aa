/** What aesd_write does to the command stream and to the kernel buffers. */
module DeviceWrites {
  import opened Bytes
  import opened CircularBuffer
  import opened Lines
  import opened DeviceSpec

  // ---------------------------------------------------------------- one more command in the window

  lemma WindowStep(n: nat, m: Model, b: Block)
    requires n > 0
    ensures var w, v := LastN(n, m.commits), LastN(n, m.commits + [b]);
            v == (if |m.commits| < n then w else w[1..]) + [b]
  {
  }

  lemma GoneStep(n: nat, m: Model, m': Model, b: Block)
    requires n > 0 && m'.commits == m.commits + [b]
    ensures Gone(n, m') == if |m.commits| < n then [] else Gone(n, m) + [Window(n, m)[0]]
    ensures |m.commits| < n ==> Gone(n, m) == []
  {
  }

  lemma DatasAppend(a: seq<Block>, b: seq<Block>)
    ensures Datas(a + b) == Datas(a) + Datas(b)
  {
  }

  /** Evicted bytes and readable bytes make up the whole history. */
  lemma HistoryIsGoneThenContents(n: nat, m: Model)
    ensures History(m) == Concat(Datas(Gone(n, m))) + Contents(n, m)
    ensures |History(m)| == EvictedBytes(n, m) + |Contents(n, m)|
  {
    var k := |m.commits| - |Window(n, m)|;
    assert m.commits == m.commits[..k] + m.commits[k..];
    DatasAppend(m.commits[..k], m.commits[k..]);
    ConcatAppend(Datas(m.commits[..k]), Datas(m.commits[k..]));
    assert Window(n, m) == m.commits[k..];
  }

  lemma HistoryStep(m: Model, b: Block)
    ensures Concat(Datas(m.commits + [b])) == History(m) + b.data
  {
    DatasAppend(m.commits, [b]);
    assert Datas([b]) == [b.data];
    ConcatAppend(Datas(m.commits), [b.data]);
    ConcatOne(b.data);
  }

  lemma ContentsStep(n: nat, m: Model, m': Model, b: Block)
    requires n > 0 && m'.commits == m.commits + [b]
    ensures |Contents(n, m')| <= |Contents(n, m)| + |b.data|
    ensures EvictedBytes(n, m') >= EvictedBytes(n, m)
  {
    HistoryStep(m, b);
    HistoryIsGoneThenContents(n, m);
    HistoryIsGoneThenContents(n, m');
    GoneStep(n, m, m', b);
    if |m.commits| >= n {
      DatasAppend(Gone(n, m), [Window(n, m)[0]]);
      ConcatAppend(Datas(Gone(n, m)), Datas([Window(n, m)[0]]));
    }
  }

  // ---------------------------------------------------------------- the steps of a write keep the invariant

  lemma GrownKeeps(n: nat, m: Model, buf: seq<byte>, env: WriteEnv)
    requires Inv(n, m) && EnvOk(n, m, buf, env) && buf != [] && env.kbuf != NULL && env.grown != NULL
    ensures var g := Grown(m, buf[..ChunkLength(buf)], env);
            && Inv(n, g)
            && g.cur.buffptr != NULL
            && |Contents(n, g)| + g.cur.size + |buf| - ChunkLength(buf) < LOFF_LIMIT
            && Leaked(n, g) == Leaked(n, m)
  {
    var g := Grown(m, buf[..ChunkLength(buf)], env);
    assert Window(n, g) == Window(n, m);
    forall i | 0 <= i < |Window(n, m)|
      ensures Backed(g, Window(n, g)[i]) && Window(n, g)[i].ptr != env.grown
    {
      assert Backed(m, Window(n, m)[i]);
    }
    assert Owned(n, g) - {env.grown} == Owned(n, m) - {m.cur.buffptr};
  }

  lemma OldestIsWindowHead(n: nat, m: Model)
    requires Inv(n, m) && |m.commits| >= n
    ensures Oldest(n, m) == Window(n, m)[0].ptr != NULL
  {
    assert Backed(m, Window(n, m)[0]);
  }

  lemma CommittedKeepsWindow(n: nat, m: Model)
    requires Inv(n, m) && m.cur.buffptr != NULL
    ensures var c := Committed(n, m);
            && AllBacked(c, Window(n, c))
            && PtrsDistinct(Window(n, c))
  {
    var c, w := Committed(n, m), Window(n, m);
    var b := Block(m.cur.buffptr, Pending(m));
    WindowStep(n, m, b);
    var v := Window(n, c);
    forall i | 0 <= i < |v|
      ensures Backed(c, v[i])
      ensures forall j :: 0 <= j < i ==> v[j].ptr != v[i].ptr
    {
      if |m.commits| >= n {
        OldestIsWindowHead(n, m);
        if i < |v| - 1 {
          assert v[i] == w[i + 1] && Backed(m, w[i + 1]);
        }
      } else if i < |v| - 1 {
        assert v[i] == w[i] && Backed(m, w[i]);
      }
    }
  }

  lemma CommittedOwns(n: nat, m: Model)
    requires Inv(n, m) && m.cur.buffptr != NULL
    ensures Owned(n, Committed(n, m)) == Owned(n, m) - {Oldest(n, m)}
  {
    var c, w := Committed(n, m), Window(n, m);
    WindowStep(n, m, Block(m.cur.buffptr, Pending(m)));
    var v := Window(n, c);
    assert v[|v| - 1].ptr == m.cur.buffptr;
    if |m.commits| >= n {
      OldestIsWindowHead(n, m);
      assert forall i :: 0 <= i < |v| - 1 ==> v[i] == w[i + 1];
      assert forall i :: 1 <= i < |w| ==> w[i] == v[i - 1];
    } else {
      assert NULL !in Owned(n, m) by {
        forall i | 0 <= i < |w| ensures w[i].ptr != NULL { assert Backed(m, w[i]); }
      }
      assert forall i :: 0 <= i < |w| ==> w[i] == v[i];
    }
  }

  lemma CommittedFrees(n: nat, m: Model)
    requires Inv(n, m)
    ensures Committed(n, m).freed == Ptrs(Gone(n, Committed(n, m)))
  {
    GoneStep(n, m, Committed(n, m), Block(m.cur.buffptr, Pending(m)));
    if |m.commits| >= n {
      OldestIsWindowHead(n, m);
    }
  }

  lemma CommittedLeaksNothing(n: nat, m: Model)
    requires Inv(n, m) && m.cur.buffptr != NULL
    ensures Leaked(n, Committed(n, m)) == Leaked(n, m)
  {
    CommittedOwns(n, m);
    if |m.commits| >= n {
      OldestIsWindowHead(n, m);
      assert Oldest(n, m) in PtrSet(Window(n, m));
    }
  }

  lemma CommittedKeeps(n: nat, m: Model)
    requires Inv(n, m) && m.cur.buffptr != NULL && Pending(m)[|Pending(m)| - 1] == NEWLINE
    ensures var c := Committed(n, m);
            && Inv(n, c)
            && |Contents(n, c)| <= |Contents(n, m)| + m.cur.size
  {
    var b := Block(m.cur.buffptr, Pending(m));
    assert IsCommand(b);
    CommittedKeepsWindow(n, m);
    CommittedFrees(n, m);
    ContentsStep(n, m, Committed(n, m), b);
  }

  lemma StartedKeeps(n: nat, m: Model, p: Ptr, rest: seq<byte>)
    requires Inv(n, m) && m.cur == EMPTY && p != NULL && p !in m.heap && rest != []
    requires |Contents(n, m)| + |rest| < LOFF_LIMIT
    ensures Inv(n, Started(m, p, rest))
    ensures Leaked(n, Started(m, p, rest)) == Leaked(n, m)
  {
    var s := Started(m, p, rest);
    forall i | 0 <= i < |Window(n, m)|
      ensures Backed(s, Window(n, s)[i]) && Window(n, s)[i].ptr != p
    {
      assert Backed(m, Window(n, m)[i]);
    }
  }

  lemma DroppedKeeps(n: nat, m: Model)
    requires Inv(n, m)
    ensures Inv(n, Dropped(m))
    ensures Leaked(n, Dropped(m)) == Leaked(n, m) + (if m.cur.buffptr == NULL then {} else {m.cur.buffptr})
  {
    var d := Dropped(m);
    forall i | 0 <= i < |Window(n, m)|
      ensures Backed(d, Window(n, d)[i])
    {
      assert Backed(m, Window(n, m)[i]);
    }
    if m.cur.buffptr != NULL {
      assert m.cur.buffptr !in PtrSet(Window(n, m));
    }
  }

  // ---------------------------------------------------------------- aesd_write as a whole

  lemma GrownEndsInNewline(m: Model, buf: seq<byte>, env: WriteEnv)
    requires HasNewline(buf) && |env.junk| == m.cur.size + ChunkLength(buf)
    ensures var p := Pending(Grown(m, buf[..ChunkLength(buf)], env));
            |p| > 0 && p[|p| - 1] == NEWLINE
  {
  }

  /** Whatever the kernel chooses, a write keeps the invariant. */
  lemma WriteKeepsInv(n: nat, m: Model, pos: int, buf: seq<byte>, env: WriteEnv)
    requires Inv(n, m) && EnvOk(n, m, buf, env)
    ensures Inv(n, WriteResult(n, m, pos, buf, env).m)
  {
    if TakesLockToWrite(pos, buf) && !env.interrupted && env.kbuf != NULL {
      if env.copyFails {
        var l := m.(locked := true);
        assert forall i :: 0 <= i < |Window(n, m)| ==> Backed(l, Window(n, m)[i]) == Backed(m, Window(n, m)[i]);
      } else if env.grown == NULL {
        DroppedKeeps(n, m);
      } else {
        var c := ChunkLength(buf);
        var g := Grown(m, buf[..c], env);
        GrownKeeps(n, m, buf, env);
        if HasNewline(buf) {
          GrownEndsInNewline(m, buf, env);
          CommittedKeeps(n, g);
          if c < |buf| && env.rest != NULL {
            StartedKeeps(n, Committed(n, g), env.rest, buf[c..]);
          }
        }
      }
    }
  }

  lemma WriteWithBufferLeaksNothing(n: nat, m: Model, pos: int, buf: seq<byte>, env: WriteEnv)
    requires Inv(n, m) && EnvOk(n, m, buf, env) && ReachesKrealloc(pos, buf, env) && env.grown != NULL
    ensures Leaked(n, WriteResult(n, m, pos, buf, env).m) == Leaked(n, m)
  {
    var c := ChunkLength(buf);
    var g := Grown(m, buf[..c], env);
    GrownKeeps(n, m, buf, env);
    if HasNewline(buf) {
      GrownEndsInNewline(m, buf, env);
      CommittedKeeps(n, g);
      CommittedLeaksNothing(n, g);
      if c < |buf| && env.rest != NULL {
        StartedKeeps(n, Committed(n, g), env.rest, buf[c..]);
      }
    }
  }

  /** A write loses track of a buffer exactly when krealloc fails while one is pending. */
  lemma WriteLeaks(n: nat, m: Model, pos: int, buf: seq<byte>, env: WriteEnv)
    requires Inv(n, m) && EnvOk(n, m, buf, env)
    ensures Leaked(n, WriteResult(n, m, pos, buf, env).m)
         == Leaked(n, m) + (if LosesBuffer(m, pos, buf, env) then {m.cur.buffptr} else {})
    ensures LosesBuffer(m, pos, buf, env) ==> m.cur.buffptr !in Leaked(n, m)
  {
    if ReachesKrealloc(pos, buf, env) {
      if env.grown == NULL {
        DroppedKeeps(n, m);
      } else {
        WriteWithBufferLeaksNothing(n, m, pos, buf, env);
      }
    }
  }

  /** The command stream as a write finds it: the commits, and the bytes the new chunk goes behind. */
  function Found(m: Model, junk: seq<byte>): Assembly
    requires m.cur.size <= |junk|
  {
    Assembly(Datas(m.commits), Front(m, junk))
  }

  /** As long as no pending buffer has been lost, that is the command stream itself. */
  lemma FoundWhenTight(n: nat, m: Model, junk: seq<byte>)
    requires Inv(n, m) && m.cur.size <= |junk|
    ensures Tight(m) ==> Found(m, junk) == AssemblyOf(m)
    ensures !Tight(m) ==> Pending(m) == [] && |Front(m, junk)| == m.cur.size > 0
  {
  }

  lemma CommittedFeeds(n: nat, m: Model)
    requires n > 0 && Inv(n, m)
    ensures AssemblyOf(Committed(n, m)) == Assembly(Datas(m.commits) + [Pending(m)], [])
  {
    var b := Block(m.cur.buffptr, Pending(m));
    DatasAppend(m.commits, [b]);
    assert Datas([b]) == [b.data];
  }

  /** A chunk cut after its first newline closes one command and leaves nothing behind. */
  lemma FeedPrefix(a: Assembly, buf: seq<byte>)
    requires HasNewline(buf)
    ensures Feed(a, buf[..ChunkLength(buf)]) == Assembly(a.lines + [a.tail + buf[..ChunkLength(buf)]], [])
  {
    var p := buf[..ChunkLength(buf)];
    FirstNewlineOfPrefix(buf, ChunkLength(buf));
    assert p[..|p|] == p && p[|p|..] == [];
  }

  /**
    The effect of a write on the command stream, in every state and for every choice of the
    kernel.  The bytes it reports as taken, all of them or those through the first newline,
    are fed behind what it finds; an error return commits nothing, and loses the pending
    bytes exactly when krealloc failed on their buffer.
   */
  lemma WriteFeeds(n: nat, m: Model, pos: int, buf: seq<byte>, env: WriteEnv)
    requires Inv(n, m) && EnvOk(n, m, buf, env)
    ensures var r := WriteResult(n, m, pos, buf, env);
            if r.ret > 0 then
              && Tight(r.m)
              && AssemblyOf(r.m) == Feed(Found(m, env.junk), Taken(buf, r.ret))
              && (r.ret == |buf| || (HasNewline(buf) && r.ret == ChunkLength(buf)))
            else
              && r.m.commits == m.commits
              && Pending(r.m) == (if LosesBuffer(m, pos, buf, env) then [] else Pending(m))
              && (Tight(r.m) <==> Tight(m) && !LosesBuffer(m, pos, buf, env))
    ensures WriteResult(n, m, pos, buf, env).ret > 0 <==> ReachesKrealloc(pos, buf, env) && env.grown != NULL
  {
    if ReachesKrealloc(pos, buf, env) && env.grown != NULL {
      var c := ChunkLength(buf);
      var g := Grown(m, buf[..c], env);
      GrownKeeps(n, m, buf, env);
      assert AssemblyOf(g) == Assembly(Datas(m.commits), Front(m, env.junk) + buf[..c]);
      assert buf[..|buf|] == buf;
      if HasNewline(buf) {
        GrownEndsInNewline(m, buf, env);
        CommittedKeeps(n, g);
        CommittedFeeds(n, g);
        FeedPrefix(Found(m, env.junk), buf);
      }
    }
  }

  /** While no pending buffer has been lost, a write feeds exactly what it takes to the stream. */
  lemma TightWriteFeeds(n: nat, m: Model, pos: int, buf: seq<byte>, env: WriteEnv)
    requires Inv(n, m) && EnvOk(n, m, buf, env) && Tight(m) && !LosesBuffer(m, pos, buf, env)
    ensures var r := WriteResult(n, m, pos, buf, env);
            && Tight(r.m)
            && AssemblyOf(r.m) == (if r.ret > 0 then Feed(AssemblyOf(m), Taken(buf, r.ret)) else AssemblyOf(m))
  {
    WriteFeeds(n, m, pos, buf, env);
    FoundWhenTight(n, m, env.junk);
  }

  /**
    A write that takes bytes commits exactly one command if they hold a newline, and none
    otherwise.  The command is what was pending (after a lost buffer: as many bytes of
    whatever the new memory held) and the chunk through its first newline.
   */
  lemma WriteCommits(n: nat, m: Model, pos: int, buf: seq<byte>, env: WriteEnv)
    requires Inv(n, m) && EnvOk(n, m, buf, env)
    requires WriteResult(n, m, pos, buf, env).ret > 0
    ensures var d := WriteResult(n, m, pos, buf, env).m;
            var front := if m.cur.buffptr != NULL then Pending(m) else env.junk[..m.cur.size];
            if HasNewline(buf)
            then Datas(d.commits) == Datas(m.commits) + [front + buf[..FirstNewline(buf) + 1]]
            else Datas(d.commits) == Datas(m.commits) && Pending(d) == front + buf
  {
    WriteFeeds(n, m, pos, buf, env);
    assert buf[..|buf|] == buf;
    if HasNewline(buf) {
      FeedPrefix(Found(m, env.junk), buf);
    }
  }

  // ---------------------------------------------------------------- a write that succeeds is always possible

  lemma {:induction false} Above(s: set<Ptr>) returns (b: Ptr)
    ensures b > 0 && forall x :: x in s ==> x < b
    decreases s
  {
    if s == {} {
      b := 1;
    } else {
      var x :| x in s;
      b := Above(s - {x});
      b := if x < b then b else x + 1;
      assert forall y :: y in s ==> y == x || y in s - {x};
    }
  }

  /** If the bytes fit in memory, the kernel has choices under which a write succeeds in full. */
  lemma WriteCanSucceed(n: nat, m: Model, pos: int, buf: seq<byte>) returns (env: WriteEnv)
    requires Inv(n, m) && TakesLockToWrite(pos, buf)
    requires |Contents(n, m)| + m.cur.size + |buf| < LOFF_LIMIT
    ensures EnvOk(n, m, buf, env) && WriteResult(n, m, pos, buf, env).ret == |buf| && !env.interrupted
  {
    var b := Above(m.heap.Keys);
    env := WriteEnv(false, b, false, b + 1, seq(m.cur.size + ChunkLength(buf), _ => NUL), b + 2);
    assert b !in m.heap && b + 1 !in m.heap && b + 2 !in m.heap;
    assert m.cur.buffptr in m.heap || m.cur.buffptr == NULL;
  }
}
