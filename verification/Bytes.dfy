/** Bytes, and the few facts about sequences that every layer shares. */
module Bytes {

  newtype byte = x: int | 0 <= x < 256

  const NUL: byte := 0
  const NEWLINE: byte := 10

  /** The byte string obtained by laying all pieces end to end. */
  function Concat(pieces: seq<seq<byte>>): seq<byte> {
    if pieces == [] then [] else pieces[0] + Concat(pieces[1..])
  }

  /** The last n elements, or all of them when there are fewer. */
  function LastN<T>(n: nat, s: seq<T>): (r: seq<T>)
    ensures |r| == if |s| < n then |s| else n
  {
    if |s| <= n then s else s[|s| - n..]
  }

  lemma {:induction false} ConcatAppend(a: seq<seq<byte>>, b: seq<seq<byte>>)
    ensures Concat(a + b) == Concat(a) + Concat(b)
  {
    if a == [] {
      assert a + b == b;
    } else {
      assert (a + b)[1..] == a[1..] + b;
      ConcatAppend(a[1..], b);
    }
  }

  lemma ConcatOne(piece: seq<byte>)
    ensures Concat([piece]) == piece
  {
    assert [piece][1..] == [];
  }

  /** Where piece k sits inside the concatenation. */
  lemma ConcatSplit(pieces: seq<seq<byte>>, k: nat)
    requires k < |pieces|
    ensures Concat(pieces) == Concat(pieces[..k]) + pieces[k] + Concat(pieces[k + 1..])
  {
    assert pieces == pieces[..k] + pieces[k..];
    ConcatAppend(pieces[..k], pieces[k..]);
    assert pieces[k..][1..] == pieces[k + 1..];
  }

  lemma CutAppend<T>(s: seq<T>, k: nat, t: seq<T>)
    requires k <= |s|
    ensures s + t == s[..k] + (s[k..] + t)
  {
  }

  lemma Halves<T>(s: seq<T>, k: nat)
    requires k <= |s|
    ensures s == s[..k] + s[k..]
  {
  }

  lemma JoinCut<T>(s: seq<T>, t: seq<T>, k: nat)
    requires k <= |t|
    ensures s + t == (s + t[..k]) + t[k..]
  {
  }

  lemma Assoc<T>(s: seq<T>, t: seq<T>, u: seq<T>)
    ensures (s + t) + u == s + (t + u)
  {
  }

  lemma NothingAppended<T>(s: seq<T>)
    ensures s + [] == s && [] + s == s
  {
  }
}
