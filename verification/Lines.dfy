/**
  Command assembly at the level of bytes: what the driver makes of a stream of accepted
  writes, against a plain line splitter.
 */
module Lines {
  import opened Bytes

  /** memchr(s, '\n', |s|), with |s| standing for NULL. */
  function FirstNewline(s: seq<byte>): (k: nat)
    ensures k <= |s|
    ensures k < |s| ==> s[k] == NEWLINE
    ensures forall i :: 0 <= i < k ==> s[i] != NEWLINE
  {
    if s == [] || s[0] == NEWLINE then 0 else 1 + FirstNewline(s[1..])
  }

  function Newlines(s: seq<byte>): nat {
    if s == [] then 0 else (if s[0] == NEWLINE then 1 else 0) + Newlines(s[1..])
  }

  /** Completed commands, oldest first, and the bytes still waiting for their newline. */
  datatype Assembly = Assembly(lines: seq<seq<byte>>, tail: seq<byte>)

  const NOTHING := Assembly([], [])

  /** All bytes of an assembly, in order. */
  function Stream(a: Assembly): seq<byte> {
    Concat(a.lines) + a.tail
  }

  /** The line splitter: every maximal run ending in a newline is a line. */
  function Split(s: seq<byte>): Assembly
    decreases |s|
  {
    var k := FirstNewline(s);
    if k == |s| then Assembly([], s)
    else
      var rest := Split(s[k + 1..]);
      Assembly([s[..k + 1]] + rest.lines, rest.tail)
  }

  /** The driver: one accepted write closes at most one command, at its first newline. */
  function Feed(a: Assembly, buf: seq<byte>): Assembly {
    var k := FirstNewline(buf);
    if k == |buf| then Assembly(a.lines, a.tail + buf)
    else Assembly(a.lines + [a.tail + buf[..k + 1]], buf[k + 1..])
  }

  function FeedAll(a: Assembly, writes: seq<seq<byte>>): Assembly
    decreases |writes|
  {
    if writes == [] then a else FeedAll(Feed(a, writes[0]), writes[1..])
  }

  predicate AtMostOneNewlineEach(writes: seq<seq<byte>>) {
    forall i :: 0 <= i < |writes| ==> Newlines(writes[i]) <= 1
  }

  /** A packet: non-empty, its only newline at the very end. */
  predicate IsPacket(s: seq<byte>) {
    |s| > 0 && FirstNewline(s) == |s| - 1
  }

  // ---------------------------------------------------------------- newline counting

  lemma {:induction false} NewlinesAppend(s: seq<byte>, t: seq<byte>)
    ensures Newlines(s + t) == Newlines(s) + Newlines(t)
  {
    if s == [] {
      assert s + t == t;
    } else {
      assert (s + t)[1..] == s[1..] + t;
      NewlinesAppend(s[1..], t);
    }
  }

  lemma {:induction false} NewlinesFromFirst(s: seq<byte>)
    ensures FirstNewline(s) == |s| ==> Newlines(s) == 0
    ensures FirstNewline(s) < |s| ==> Newlines(s) == 1 + Newlines(s[FirstNewline(s) + 1..])
  {
    if s != [] && s[0] != NEWLINE {
      NewlinesFromFirst(s[1..]);
      var k := FirstNewline(s[1..]);
      if k < |s| - 1 {
        assert s[1..][k + 1..] == s[k + 2..];
      }
    }
  }

  lemma {:induction false} FirstNewlineAppend(s: seq<byte>, t: seq<byte>)
    ensures FirstNewline(s + t) ==
            if FirstNewline(s) < |s| then FirstNewline(s) else |s| + FirstNewline(t)
  {
    if s == [] {
      assert s + t == t;
    } else if s[0] != NEWLINE {
      assert (s + t)[1..] == s[1..] + t;
      FirstNewlineAppend(s[1..], t);
    }
  }

  // ---------------------------------------------------------------- nothing is lost

  /** An accepted write adds exactly its bytes to the stream. */
  lemma FeedConserves(a: Assembly, buf: seq<byte>)
    ensures Stream(Feed(a, buf)) == Stream(a) + buf
  {
    var k := FirstNewline(buf);
    if k < |buf| {
      ConcatAppend(a.lines, [a.tail + buf[..k + 1]]);
      ConcatOne(a.tail + buf[..k + 1]);
      assert buf == buf[..k + 1] + buf[k + 1..];
    }
  }

  lemma {:induction false} FeedAllConserves(a: Assembly, writes: seq<seq<byte>>)
    ensures Stream(FeedAll(a, writes)) == Stream(a) + Concat(writes)
    decreases |writes|
  {
    if writes != [] {
      FeedConserves(a, writes[0]);
      FeedAllConserves(Feed(a, writes[0]), writes[1..]);
    }
  }

  lemma {:induction false} FeedAllAppend(a: Assembly, first: seq<seq<byte>>, last: seq<seq<byte>>)
    ensures FeedAll(a, first + last) == FeedAll(FeedAll(a, first), last)
    decreases |first|
  {
    if first == [] {
      assert first + last == last;
    } else {
      assert (first + last)[1..] == first[1..] + last;
      FeedAllAppend(Feed(a, first[0]), first[1..], last);
    }
  }

  // ---------------------------------------------------------------- splitter refinement

  lemma {:induction false} SplitCount(s: seq<byte>)
    ensures |Split(s).lines| == Newlines(s)
    ensures Newlines(Split(s).tail) == 0
    decreases |s|
  {
    NewlinesFromFirst(s);
    var k := FirstNewline(s);
    if k < |s| {
      SplitCount(s[k + 1..]);
    }
  }

  lemma {:induction false} FirstNewlineOfPrefix(s: seq<byte>, k: nat)
    requires FirstNewline(s) < k <= |s|
    ensures FirstNewline(s[..k]) == FirstNewline(s)
  {
    assert s == s[..k] + s[k..];
    FirstNewlineAppend(s[..k], s[k..]);
  }

  lemma SplitHead(line: seq<byte>, s: seq<byte>)
    requires IsPacket(line)
    ensures Split(line + s) == Assembly([line] + Split(s).lines, Split(s).tail)
  {
    FirstNewlineAppend(line, s);
    assert (line + s)[..|line|] == line && (line + s)[|line|..] == s;
  }

  lemma SplitNoNewline(s: seq<byte>)
    requires Newlines(s) == 0
    ensures Split(s) == Assembly([], s)
  {
    NewlinesFromFirst(s);
  }

  lemma SplitCloses(s: seq<byte>, end: seq<byte>, rest: seq<byte>)
    requires FirstNewline(s) == |s| && IsPacket(end) && Newlines(rest) == 0
    ensures Split((s + end) + rest) == Assembly([s + end], rest)
  {
    FirstNewlineAppend(s, end);
    SplitHead(s + end, rest);
    SplitNoNewline(rest);
  }

  lemma SplitTail(s: seq<byte>, buf: seq<byte>)
    requires FirstNewline(s) == |s| && Newlines(buf) <= 1
    ensures Split(s + buf) == Feed(Assembly([], s), buf)
  {
    var j := FirstNewline(buf);
    if j == |buf| {
      FirstNewlineAppend(s, buf);
    } else {
      NewlinesFromFirst(buf);
      FirstNewlineOfPrefix(buf, j + 1);
      SplitCloses(s, buf[..j + 1], buf[j + 1..]);
      JoinCut(s, buf, j + 1);
    }
  }

  lemma FeedBehind(lines: seq<seq<byte>>, a: Assembly, buf: seq<byte>)
    ensures Feed(Assembly(lines + a.lines, a.tail), buf)
         == Assembly(lines + Feed(a, buf).lines, Feed(a, buf).tail)
  {
    var k := FirstNewline(buf);
    if k < |buf| {
      assert (lines + a.lines) + [a.tail + buf[..k + 1]] == lines + (a.lines + [a.tail + buf[..k + 1]]);
    }
  }

  lemma SplitHeadConserves(line: seq<byte>, rest: seq<byte>)
    requires IsPacket(line) && Stream(Split(rest)) == rest
    ensures Stream(Split(line + rest)) == line + rest
  {
    var lines, tail := Split(rest).lines, Split(rest).tail;
    SplitHead(line, rest);
    ConcatAppend([line], lines);
    ConcatOne(line);
    Assoc(line, Concat(lines), tail);
  }

  /** Splitting only cuts: lines and tail together are the stream. */
  lemma {:induction false} SplitConserves(s: seq<byte>)
    ensures Stream(Split(s)) == s
    decreases |s|
  {
    var k := FirstNewline(s);
    if k == |s| {
      NothingAppended(s);
    } else {
      var line, rest := s[..k + 1], s[k + 1..];
      SplitConserves(rest);
      FirstNewlineOfPrefix(s, k + 1);
      SplitHeadConserves(line, rest);
      Halves(s, k + 1);
    }
  }

  /** Feeding a chunk with at most one newline is splitting the longer stream. */
  lemma {:induction false} SplitAppend(s: seq<byte>, buf: seq<byte>)
    requires Newlines(buf) <= 1
    ensures Split(s + buf) == Feed(Split(s), buf)
    decreases |s|
  {
    var k := FirstNewline(s);
    if k == |s| {
      SplitTail(s, buf);
    } else {
      var line, rest := s[..k + 1], s[k + 1..];
      FirstNewlineOfPrefix(s, k + 1);
      SplitAppend(rest, buf);
      SplitHead(line, rest + buf);
      FeedBehind([line], Split(rest), buf);
      CutAppend(s, k + 1, buf);
    }
  }

  lemma {:induction false} FeedAllSplits(a: Assembly, s: seq<byte>, writes: seq<seq<byte>>)
    requires a == Split(s) && AtMostOneNewlineEach(writes)
    ensures FeedAll(a, writes) == Split(s + Concat(writes))
    decreases |writes|
  {
    if writes == [] {
      NothingAppended(s);
    } else {
      SplitAppend(s, writes[0]);
      FeedAllSplits(Feed(a, writes[0]), s + writes[0], writes[1..]);
      Assoc(s, writes[0], Concat(writes[1..]));
    }
  }

  /** Each write closes at most one command, so a write with two newlines is never made up for. */
  lemma {:induction false} FeedAllFallsBehind(a: Assembly, writes: seq<seq<byte>>)
    ensures |FeedAll(a, writes).lines| <= |a.lines| + Newlines(Concat(writes))
    ensures !AtMostOneNewlineEach(writes) ==>
              |FeedAll(a, writes).lines| < |a.lines| + Newlines(Concat(writes))
    decreases |writes|
  {
    if writes != [] {
      NewlinesAppend(writes[0], Concat(writes[1..]));
      NewlinesFromFirst(writes[0]);
      FeedAllFallsBehind(Feed(a, writes[0]), writes[1..]);
      if Newlines(writes[0]) <= 1 && !AtMostOneNewlineEach(writes) {
        var i :| 0 <= i < |writes| && Newlines(writes[i]) > 1;
        assert writes[1..][i - 1] == writes[i];
      }
    }
  }

  /** Exactly which runs of accepted writes the driver assembles like a line splitter. */
  lemma AssemblyIsSplit(writes: seq<seq<byte>>)
    ensures FeedAll(NOTHING, writes) == Split(Concat(writes)) <==> AtMostOneNewlineEach(writes)
  {
    assert Split([]) == NOTHING;
    assert [] + Concat(writes) == Concat(writes);
    if AtMostOneNewlineEach(writes) {
      FeedAllSplits(NOTHING, [], writes);
    } else {
      FeedAllFallsBehind(NOTHING, writes);
      SplitCount(Concat(writes));
    }
  }

  /** Whole packets come out as they went in. */
  lemma {:induction false} PacketsStayWhole(lines: seq<seq<byte>>, packets: seq<seq<byte>>)
    requires forall i :: 0 <= i < |packets| ==> IsPacket(packets[i])
    ensures FeedAll(Assembly(lines, []), packets) == Assembly(lines + packets, [])
    decreases |packets|
  {
    if packets == [] {
      assert lines + packets == lines;
    } else {
      var p := packets[0];
      assert p[..|p|] == p && [] + p == p && p[|p|..] == [];
      assert Feed(Assembly(lines, []), p) == Assembly(lines + [p], []);
      PacketsStayWhole(lines + [p], packets[1..]);
      assert lines + [p] + packets[1..] == lines + packets;
    }
  }
}
