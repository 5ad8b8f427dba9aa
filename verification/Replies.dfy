/** What reaches the client, byte for byte, whether or not NUL bytes are in the way. */
module Replies {
  import opened Bytes
  import opened Lines
  import opened Server
  import opened ServerProofs
  import opened ServerCalls

  // ---------------------------------------------------------------- line by line: fgets and strlen

  /** fgets returns a line of at most 1023 bytes in one piece, and stops at its newline. */
  lemma SentLine(line: seq<byte>, rest: seq<byte>)
    requires IsPacket(line) && |line| <= 1023
    ensures SentBack(line + rest) == UpToNul(line) + SentBack(rest)
  {
    FirstNewlineAppend(line, rest);
    assert (line + rest)[..|line|] == line && (line + rest)[|line|..] == rest;
  }

  /** Of 1023 or more bytes without a newline, and a newline or not behind them, fgets returns the first 1023. */
  lemma SentLongPart(part: seq<byte>, rest: seq<byte>)
    requires |part| == 1023 && NEWLINE !in part
    ensures SentBack(part + rest) == UpToNul(part) + SentBack(rest)
  {
    FirstNewlineAppend(part, rest);
    assert (part + rest)[..|part|] == part && (part + rest)[|part|..] == rest;
  }

  /** What is left at the end of the stream comes in one piece, too. */
  lemma SentLast(tail: seq<byte>)
    requires NEWLINE !in tail && |tail| <= 1023
    ensures SentBack(tail) == UpToNul(tail)
  {
    assert tail[..|tail|] == tail && tail[|tail|..] == [];
    NothingAppended(UpToNul(tail));
  }

  /** A line of any length is sent in its own pieces: none reaches over its newline. */
  lemma {:induction false} SentPacket(line: seq<byte>, rest: seq<byte>)
    requires IsPacket(line)
    ensures SentBack(line + rest) == SentBack(line) + SentBack(rest)
    decreases |line|
  {
    if |line| <= 1023 {
      SentLine(line, rest);
      SentAlone(line);
    } else {
      var part, more := line[..1023], line[1023..];
      Halves(line, 1023);
      FirstNewlineAppend(part, more);
      SentPacket(more, rest);
      SentLongPart(part, more + rest);
      SentLongPart(part, more);
      Assoc(part, more, rest);
      Assoc(UpToNul(part), SentBack(more), SentBack(rest));
    }
  }

  /** What is sent for each of these, one behind the other. */
  function SentEach(pieces: seq<seq<byte>>): seq<byte> {
    if pieces == [] then [] else SentBack(pieces[0]) + SentEach(pieces[1..])
  }

  function UpToNulEach(pieces: seq<seq<byte>>): seq<byte> {
    if pieces == [] then [] else UpToNul(pieces[0]) + UpToNulEach(pieces[1..])
  }

  /** For every stream, what is sent is what is sent for its lines, and then for its tail. */
  lemma {:induction false} SentByLines(s: seq<byte>)
    ensures SentBack(s) == SentEach(Split(s).lines) + SentBack(Split(s).tail)
    decreases |s|
  {
    var k := FirstNewline(s);
    if k < |s| {
      var line, rest := s[..k + 1], s[k + 1..];
      Halves(s, k + 1);
      FirstNewlineOfPrefix(s, k + 1);
      SentPacket(line, rest);
      SentByLines(rest);
      assert Split(s).lines[0] == line && Split(s).lines[1..] == Split(rest).lines;
      Assoc(SentBack(line), SentEach(Split(rest).lines), SentBack(Split(rest).tail));
    }
  }

  /** The stream s cut into pieces of `size` bytes, the last one perhaps shorter. */
  function Blocks(s: seq<byte>, size: nat): (blocks: seq<seq<byte>>)
    requires size > 0
    ensures Concat(blocks) == s
    ensures forall i :: 0 <= i < |blocks| ==> 0 < |blocks[i]| <= size
    ensures forall i :: 0 <= i < |blocks| - 1 ==> |blocks[i]| == size
    decreases |s|
  {
    if |s| <= size then
      ConcatOne(s);
      if s == [] then [] else [s]
    else
      Halves(s, size);
      [s[..size]] + Blocks(s[size..], size)
  }

  /** A line, or what is left of the stream, goes out in blocks of 1023 bytes, each up to its first NUL. */
  lemma {:induction false} SentInBlocks(s: seq<byte>)
    requires IsPacket(s) || NEWLINE !in s
    ensures SentBack(s) == UpToNulEach(Blocks(s, 1023))
    decreases |s|
  {
    if s == [] {
    } else if |s| <= 1023 {
      if IsPacket(s) {
        SentAlone(s);
      } else {
        SentLast(s);
      }
      assert Blocks(s, 1023)[1..] == [];
    } else {
      var part, more := s[..1023], s[1023..];
      Halves(s, 1023);
      FirstNewlineAppend(part, more);
      assert forall i :: 0 <= i < |part| ==> part[i] == s[i] != NEWLINE;
      assert NEWLINE !in s ==> NEWLINE !in more;
      SentInBlocks(more);
      SentLongPart(part, more);
      assert Blocks(s, 1023)[1..] == Blocks(more, 1023);
    }
  }

  /** If no line is longer than fgets takes at once, the client gets each line up to its first NUL. */
  lemma SentShortLines(s: seq<byte>)
    requires forall i :: 0 <= i < |Split(s).lines| ==> |Split(s).lines[i]| <= 1023
    requires |Split(s).tail| <= 1023
    ensures SentBack(s) == UpToNulEach(Split(s).lines) + UpToNul(Split(s).tail)
  {
    SentByLines(s);
    SplitIntoPackets(s);
    SentEachShort(Split(s).lines);
    SentLast(Split(s).tail);
  }

  lemma {:induction false} SplitIntoPackets(s: seq<byte>)
    ensures forall i :: 0 <= i < |Split(s).lines| ==> IsPacket(Split(s).lines[i])
    ensures NEWLINE !in Split(s).tail
    decreases |s|
  {
    var k := FirstNewline(s);
    if k < |s| {
      FirstNewlineOfPrefix(s, k + 1);
      SplitIntoPackets(s[k + 1..]);
    }
  }

  lemma SentAlone(line: seq<byte>)
    requires IsPacket(line) && |line| <= 1023
    ensures SentBack(line) == UpToNul(line)
  {
    SentLine(line, []);
    NothingAppended(line);
    NothingAppended(UpToNul(line));
  }

  lemma {:induction false} SentEachShort(lines: seq<seq<byte>>)
    requires forall i :: 0 <= i < |lines| ==> IsPacket(lines[i]) && |lines[i]| <= 1023
    ensures SentEach(lines) == UpToNulEach(lines)
  {
    if lines != [] {
      SentAlone(lines[0]);
      SentEachShort(lines[1..]);
    }
  }

  /** Packets of any length are sent one by one; those fgets takes at once, each up to its first NUL. */
  lemma {:induction false} SentPackets(packets: seq<seq<byte>>)
    requires forall i :: 0 <= i < |packets| ==> IsPacket(packets[i])
    ensures SentBack(Concat(packets)) == SentEach(packets)
    ensures (forall i :: 0 <= i < |packets| ==> |packets[i]| <= 1023) ==>
              SentBack(Concat(packets)) == UpToNulEach(packets)
    decreases |packets|
  {
    if packets != [] {
      SentPacket(packets[0], Concat(packets[1..]));
      SentPackets(packets[1..]);
    }
    if forall i :: 0 <= i < |packets| ==> |packets[i]| <= 1023 {
      SentEachShort(packets);
    }
  }

  /**
    What the client of the i-th appending session receives when every chunk is a packet: the
    last min(i+1, n) packets in lock order, each as it is sent on its own, and of a packet of
    at most 1023 bytes that is what stands before its first NUL.
   */
  lemma PacketsReceived(n: nat, jobs: Jobs, moves: seq<Move>, i: nat)
    requires n > 0 && Possible(n, jobs, Initial(jobs), moves)
    requires i < |AfterMoves(n, jobs, Initial(jobs), moves).order|
    requires forall t :: t in jobs && jobs[t].Packet? ==> IsPacket(jobs[t].chunk)
    ensures var s := AfterMoves(n, jobs, Initial(jobs), moves);
            var t, packets := s.order[i], LastN(n, Chunks(jobs, s.order[..i + 1]));
            && t in s.phase
            && (s.phase[t].Done? ==>
                  && SentBack(s.phase[t].got) == SentEach(packets)
                  && ((forall j :: 0 <= j < |packets| ==> |packets[j]| <= 1023) ==>
                        SentBack(s.phase[t].got) == UpToNulEach(packets)))
  {
    PacketReplies(n, jobs, moves, i);
    InitialInv(n, jobs);
    MovesKeepInv(n, jobs, Initial(jobs), moves);
    var s := AfterMoves(n, jobs, Initial(jobs), moves);
    ChunksArePackets(n, jobs, s, i + 1);
    SentPackets(LastN(n, Chunks(jobs, s.order[..i + 1])));
  }

  lemma ChunksArePackets(n: nat, jobs: Jobs, s: Srv, k: nat)
    requires SrvInv(n, jobs, s) && k <= |s.order|
    requires forall t :: t in jobs && jobs[t].Packet? ==> IsPacket(jobs[t].chunk)
    ensures var packets := LastN(n, Chunks(jobs, s.order[..k]));
            forall j :: 0 <= j < |packets| ==> IsPacket(packets[j])
  {
    var all := Chunks(jobs, s.order[..k]);
    forall j | 0 <= j < |all|
      ensures IsPacket(all[j])
    {
      assert s.order[..k][j] == s.order[j];
    }
  }

  // ---------------------------------------------------------------- read by read: a reused buffer and strlen

  /** The byte at index j of the buffer once these pieces were read into it: that of the last one to reach it. */
  function Latest(pieces: seq<seq<byte>>, j: nat): byte {
    if pieces == [] then NUL
    else
      var last := pieces[|pieces| - 1];
      if j < |last| then last[j] else Latest(pieces[..|pieces| - 1], j)
  }

  function LatestBuffer(pieces: seq<seq<byte>>, size: nat): (b: seq<byte>)
    ensures |b| == size
  {
    seq(size, j requires 0 <= j => Latest(pieces, j))
  }

  /** The buffer after the pieces, starting from any contents. */
  function OverlaidAll(buffer: seq<byte>, pieces: seq<seq<byte>>): (b: seq<byte>)
    requires forall i :: 0 <= i < |pieces| ==> |pieces[i]| <= |buffer|
    ensures |b| == |buffer|
    decreases |pieces|
  {
    if pieces == [] then buffer else OverlaidAll(Overlaid(buffer, pieces[0]), pieces[1..])
  }

  lemma {:induction false} OneMoreOverlaid(buffer: seq<byte>, pieces: seq<seq<byte>>, last: seq<byte>)
    requires forall i :: 0 <= i < |pieces| ==> |pieces[i]| <= |buffer|
    requires |last| <= |buffer|
    ensures OverlaidAll(buffer, pieces + [last]) == Overlaid(OverlaidAll(buffer, pieces), last)
    ensures SentFrom(buffer, pieces + [last])
         == SentFrom(buffer, pieces) + UpToNul(OverlaidAll(buffer, pieces + [last]))
    decreases |pieces|
  {
    if pieces == [] {
      assert pieces + [last] == [last] && [last][1..] == [];
      NothingAppended(UpToNul(Overlaid(buffer, last)));
    } else {
      var more := Overlaid(buffer, pieces[0]);
      assert (pieces + [last])[0] == pieces[0] && (pieces + [last])[1..] == pieces[1..] + [last];
      OneMoreOverlaid(more, pieces[1..], last);
      Assoc(UpToNul(more), SentFrom(more, pieces[1..]), UpToNul(OverlaidAll(buffer, pieces + [last])));
    }
  }

  lemma {:induction false} OverlaidIsLatest(size: nat, pieces: seq<seq<byte>>)
    requires forall i :: 0 <= i < |pieces| ==> |pieces[i]| <= size
    ensures OverlaidAll(Cleared(size), pieces) == LatestBuffer(pieces, size)
    decreases |pieces|
  {
    if pieces != [] {
      var before, last := pieces[..|pieces| - 1], pieces[|pieces| - 1];
      assert before + [last] == pieces;
      OverlaidIsLatest(size, before);
      OneMoreOverlaid(Cleared(size), before, last);
    }
  }

  /**
    What each read adds to the reply: the buffer up to its first NUL, where the buffer holds
    at every index the byte of the last read that reached it, stale bytes included.
   */
  lemma SentFromStep(size: nat, pieces: seq<seq<byte>>, last: seq<byte>)
    requires forall i :: 0 <= i < |pieces| ==> |pieces[i]| <= size
    requires |last| <= size
    ensures SentFrom(Cleared(size), pieces + [last])
         == SentFrom(Cleared(size), pieces) + UpToNul(LatestBuffer(pieces + [last], size))
  {
    OneMoreOverlaid(Cleared(size), pieces, last);
    OverlaidIsLatest(size, pieces + [last]);
  }
}
