/** A reader over a chunked stream, as the stream library offers it to the packet code. */
module Readers {
  import opened Bytes
  import opened Streams
  import opened Results

  lemma FlattenCons<T>(c: seq<T>, rest: seq<seq<T>>)
    ensures Flatten([c] + rest) == c + Flatten(rest)
  {
    FlattenAppend([c], rest);
    FlattenOne(c);
  }

  function First<T>(s: seq<T>): Option<T> {
    if |s| == 0 then None else Some(s[0])
  }

  function Tail<T>(s: seq<T>): seq<T> {
    if |s| == 0 then [] else s[1..]
  }

  // ---------------------------------------------------------------- what an empty chunk does

  /** An octet, or the place of an empty chunk, from which a single-octet read returns nothing. */
  type Mark = Option<byte>

  function Marked(s: seq<byte>): (m: seq<Mark>)
    ensures |m| == |s|
  {
    seq(|s|, i requires 0 <= i < |s| => Some(s[i]))
  }

  function ChunkMarks(c: seq<byte>): (m: seq<Mark>)
    ensures |m| > 0
  {
    if |c| == 0 then [None] else Marked(c)
  }

  /** A stream as single-octet reads see it. */
  function Marks(chunks: seq<seq<byte>>): seq<Mark> {
    if |chunks| == 0 then [] else ChunkMarks(chunks[0]) + Marks(chunks[1..])
  }

  /** The octets alone. */
  function Octets(m: seq<Mark>): (s: seq<byte>)
    ensures |s| <= |m|
  {
    if |m| == 0 then [] else OctetOf(m[0]) + Octets(m[1..])
  }

  function OctetOf(x: Mark): (s: seq<byte>)
    ensures |s| <= 1
  {
    if x.Some? then [x.value] else []
  }

  lemma {:induction false} OctetsAppend(a: seq<Mark>, b: seq<Mark>)
    ensures Octets(a + b) == Octets(a) + Octets(b)
  {
    hide OctetOf;
    if |a| == 0 {
      assert a + b == b;
    } else {
      OctetsAppend(a[1..], b);
      assert (a + b)[0] == a[0] && (a + b)[1..] == a[1..] + b;
      Regroup(OctetOf(a[0]), Octets(a[1..]), Octets(b));
    }
  }

  lemma {:induction false} OctetsOfMarked(s: seq<byte>)
    ensures Octets(Marked(s)) == s
  {
    if |s| > 0 {
      OctetsOfMarked(s[1..]);
      assert Marked(s)[1..] == Marked(s[1..]);
    }
  }

  lemma OctetsOfChunk(c: seq<byte>)
    ensures Octets(ChunkMarks(c)) == c
  {
    OctetsOfMarked(c);
    if |c| == 0 { assert Octets([None][1..]) == []; }
  }

  lemma MarkedAppend(s: seq<byte>, t: seq<byte>)
    ensures Marked(s + t) == Marked(s) + Marked(t)
  {
  }

  lemma {:induction false} OctetsOfMarks(chunks: seq<seq<byte>>)
    ensures Octets(Marks(chunks)) == Flatten(chunks)
  {
    hide Octets, Flatten, ChunkMarks;
    if |chunks| == 0 {
      FlattenEmpty(chunks);
      assert chunks[..0] == chunks;
      OctetsOfMarked([]);
      assert Marked([]) == [];
    } else {
      OctetsOfMarks(chunks[1..]);
      OctetsOfChunk(chunks[0]);
      OctetsAppend(ChunkMarks(chunks[0]), Marks(chunks[1..]));
      FlattenCons(chunks[0], chunks[1..]);
      assert chunks == [chunks[0]] + chunks[1..];
    }
  }

  /** Without empty chunks a stream is its octets. */
  lemma {:induction false} MarksOfSolid(chunks: seq<seq<byte>>)
    requires forall c :: c in chunks ==> |c| > 0
    ensures Marks(chunks) == Marked(Flatten(chunks))
  {
    hide Flatten, Marked;
    if |chunks| == 0 {
      FlattenEmpty(chunks);
      assert chunks[..0] == chunks;
    } else {
      MarksOfSolid(chunks[1..]);
      FlattenCons(chunks[0], chunks[1..]);
      MarkedAppend(chunks[0], Flatten(chunks[1..]));
      assert chunks == [chunks[0]] + chunks[1..];
    }
  }

  /** How far one has to go for n octets. */
  function Reach(m: seq<Mark>, n: nat): (k: nat)
    ensures k <= |m|
  {
    if n == 0 || |m| == 0 then 0 else 1 + Reach(m[1..], if m[0].Some? then n - 1 else n)
  }

  /** bytes are the first n octets, or all there are, and rest is what follows them. */
  predicate Takes(m: seq<Mark>, n: nat, bytes: seq<byte>, rest: seq<Mark>) {
    bytes == Octets(m[..Reach(m, n)]) && rest == m[Reach(m, n)..]
  }

  /** bytes are what has been read, and rest is what is left. */
  predicate IsRead(m: seq<Mark>, bytes: seq<byte>, rest: seq<Mark>) {
    |rest| <= |m| && m[|m| - |rest|..] == rest && Octets(m[..|m| - |rest|]) == bytes
  }

  lemma NothingRead(m: seq<Mark>)
    ensures IsRead(m, [], m)
  {
    assert m[..0] == [];
  }

  lemma ReadOn(m: seq<Mark>, bytes: seq<byte>, value: seq<byte>, front: seq<Mark>, rest: seq<Mark>)
    requires IsRead(m, bytes, front + rest) && Octets(front) == value
    ensures IsRead(m, bytes + value, rest)
  {
    hide Octets;
    var done := m[..|m| - |front + rest|];
    assert m == done + (front + rest);
    assert m[..|m| - |rest|] == done + front;
    OctetsAppend(done, front);
  }

  lemma {:induction false} ReachIs(m: seq<Mark>, a: seq<Mark>, v: seq<byte>, rest: seq<Mark>)
    requires m == a + (Marked(v) + rest) && |v| > 0
    ensures Reach(m, |Octets(a)| + |v|) == |a| + |v|
    decreases |a| + |v|
  {
    if |a| > 0 {
      assert m[1..] == a[1..] + (Marked(v) + rest) && m[0] == a[0];
      ReachIs(m[1..], a[1..], v, rest);
    } else if |v| > 1 {
      assert m[1..] == a + (Marked(v[1..]) + rest) && m[0] == Some(v[0]);
      ReachIs(m[1..], a, v[1..], rest);
    } else {
      assert m[0] == Some(v[0]);
      assert Reach(m[1..], 0) == 0;
    }
  }

  /** The chunk that completes n octets is cut behind them. */
  lemma ReadEnough(m: seq<Mark>, bytes: seq<byte>, value: seq<byte>, rest: seq<Mark>, n: nat)
    requires IsRead(m, bytes, ChunkMarks(value) + rest) && |bytes| < n <= |bytes + value|
    ensures var j := n - |bytes|;
      Takes(m, n, bytes + value[..j], Marked(value[j..]) + rest)
  {
    hide Octets, Reach;
    var j := n - |bytes|;
    var a := m[..|m| - |ChunkMarks(value) + rest|];
    var left := Marked(value[j..]) + rest;
    assert value == value[..j] + value[j..];
    MarkedAppend(value[..j], value[j..]);
    assert Marked(value) + rest == Marked(value[..j]) + left;
    assert m == a + (Marked(value[..j]) + left);
    ReachIs(m, a, value[..j], left);
    assert m[..|a| + j] == a + Marked(value[..j]) && m[|a| + j..] == left;
    OctetsAppend(a, Marked(value[..j]));
    OctetsOfMarked(value[..j]);
  }

  lemma {:induction false} ReachFar(m: seq<Mark>, n: nat)
    requires |Octets(m)| < n
    ensures Reach(m, n) == |m|
  {
    if |m| > 0 { ReachFar(m[1..], if m[0].Some? then n - 1 else n); }
  }

  lemma ReadAllThere(m: seq<Mark>, bytes: seq<byte>, n: nat)
    requires IsRead(m, bytes, []) && |bytes| < n
    ensures Takes(m, n, bytes, []) && bytes == Octets(m)
  {
    hide Octets, Reach;
    assert m[..|m|] == m;
    ReachFar(m, n);
  }

  // ---------------------------------------------------------------- the reader

  lemma Split<T>(a: seq<T>, v: seq<T>, rest: seq<T>, n: nat)
    requires n <= |a + v|
    ensures a + (v + rest) == (a + v) + rest == (a + v)[..n] + ((a + v)[n..] + rest)
  {
    assert a + v == (a + v)[..n] + (a + v)[n..];
  }

  class Reader {
    var chunks: seq<seq<byte>>

    /** No chunk is empty. */
    ghost predicate Solid()
      reads this
    {
      forall c :: c in chunks ==> |c| > 0
    }

    /** What is left to read, however it is cut. */
    ghost function Rest(): seq<byte>
      reads this
    {
      Flatten(chunks)
    }

    /** What is left to read, with the places of the empty chunks. */
    ghost function Seen(): seq<Mark>
      reads this
    {
      Marks(chunks)
    }

    constructor (chunks: seq<seq<byte>>)
      ensures this.chunks == chunks && Rest() == Flatten(chunks) && Seen() == Marks(chunks)
    {
      this.chunks := chunks;
    }

    /** The next chunk; nothing at the end. */
    method Read() returns (value: Option<seq<byte>>)
      modifies this
      ensures value == First(old(chunks)) && chunks == Tail(old(chunks))
      ensures value.Some? ==> |chunks| < |old(chunks)|
      ensures old(Rest()) == (if value.None? then [] else value.value) + Rest()
      ensures old(Seen()) == (if value.None? then [] else ChunkMarks(value.value)) + Seen()
      ensures value.None? ==> Rest() == [] && Seen() == []
      ensures old(Solid()) ==> Solid() && (value.Some? ==> |value.value| > 0)
    {
      hide Flatten, ChunkMarks;
      FlattenEmpty(chunks);
      if |chunks| == 0 {
        assert chunks == [] && chunks[..0] == [];
        return None;
      }
      FlattenCons(chunks[0], chunks[1..]);
      assert chunks == [chunks[0]] + chunks[1..];
      value := Some(chunks[0]);
      chunks := chunks[1..];
    }

    /** Push octets back in front; an empty string leaves no chunk. */
    method Unshift(bytes: seq<byte>)
      modifies this
      ensures Rest() == bytes + old(Rest()) && Seen() == Marked(bytes) + old(Seen())
      ensures chunks == if |bytes| > 0 then [bytes] + old(chunks) else old(chunks)
      ensures old(Solid()) ==> Solid()
    {
      hide Flatten;
      if |bytes| > 0 {
        FlattenCons(bytes, chunks);
        chunks := [bytes] + chunks;
        assert chunks[1..] == old(chunks);
      } else {
        assert bytes + old(Rest()) == old(Rest()) && Marked(bytes) + old(Seen()) == old(Seen());
      }
    }

    /** The next octet; an empty chunk in front is used up and gives none, though there may be more to read. */
    method ReadByte() returns (b: Option<byte>)
      modifies this
      ensures First(old(Seen())) == (if old(Seen()) == [] then None else Some(b))
      ensures Seen() == Tail(old(Seen())) && (old(Seen()) == [] ==> b.None?)
      ensures old(Rest()) == (if b.Some? then [b.value] else []) + Rest()
      ensures old(Solid()) ==> Solid() && (b.None? <==> old(Rest()) == [])
    {
      hide Flatten, Marks, Reader.Solid, Reader.Rest, Reader.Seen, Marked;
      ghost var m := Seen();
      var value := Read();
      if value.None? {
        assert m == [];
        return None;
      }
      var rest := value.value;
      ghost var after := Seen();
      if |rest| > 0 {
        b := Some(rest[0]);
        assert rest == [rest[0]] + rest[1..];
        Regroup([rest[0]], rest[1..], Rest());
        Unshift(rest[1..]);
        FirstMark(rest, after);
      } else {
        assert m == [None] + after && m[1..] == after;
        b := None;
      }
    }

    /** As many octets as there are, up to a limit; without a limit, all of them. */
    method ReadBytes(limit: Option<nat>) returns (bytes: seq<byte>)
      modifies this
      ensures old(Rest()) == bytes + Rest()
      ensures limit.Some? ==> |bytes| <= limit.value
      ensures limit.None? || |bytes| < limit.value ==> Rest() == []
      ensures limit.Some? && limit.value > 0 ==> Takes(old(Seen()), limit.value, bytes, Seen())
      ensures limit.None? ==> bytes == Octets(old(Seen())) && Seen() == []
      ensures old(Solid()) ==> Solid()
    {
      hide Flatten, Marks, Reader.Rest, Reader.Solid, Reader.Seen, IsRead, Takes, ChunkMarks, Marked, First, Tail;
      bytes := [];
      ghost var all, m := Rest(), Seen();
      ghost var live := limit.None? || limit.value > 0;
      NothingRead(m);
      while true
        invariant all == bytes + Rest() && IsRead(m, bytes, Seen())
        invariant limit.Some? ==> |bytes| <= limit.value && (live ==> |bytes| < limit.value)
        invariant old(Solid()) ==> Solid()
        decreases |chunks|
      {
        var value := Read();
        if value.None? {
          ReadAllThere(m, bytes, if limit.Some? && live then limit.value else |bytes| + 1);
          return;
        }
        ghost var after := Seen();
        OctetsOfChunk(value.value);
        if limit.Some? && |bytes + value.value| >= limit.value {
          Split(bytes, value.value, Rest(), limit.value);
          if live {
            ReadEnough(m, bytes, value.value, after, limit.value);
            CutBehind(bytes, value.value, limit.value);
          }
          bytes := bytes + value.value;
          Unshift(bytes[limit.value..]);
          bytes := bytes[..limit.value];
          return;
        }
        Split(bytes, value.value, Rest(), 0);
        ReadOn(m, bytes, value.value, ChunkMarks(value.value), after);
        bytes := bytes + value.value;
      }
    }

    /** Octets that are read and pushed back; empty chunks among them are gone. */
    method PeekBytes(limit: Option<nat>) returns (bytes: seq<byte>)
      modifies this
      ensures Rest() == old(Rest()) && bytes <= Rest()
      ensures limit.Some? ==> |bytes| <= limit.value
      ensures limit.None? || |bytes| < limit.value ==> bytes == Rest()
      ensures limit.Some? && limit.value > 0 ==> Seen() == Peeked(old(Seen()), limit.value)
      ensures limit.None? ==> Seen() == Marked(Octets(old(Seen())))
      ensures old(Solid()) ==> Solid()
    {
      hide Flatten, Marks, Octets, Reach;
      bytes := ReadBytes(limit);
      ghost var rest := Rest();
      Unshift(bytes);
      assert rest == [] ==> bytes + rest == bytes;
    }
  }

  /** A stream whose first n octets have been pushed back as one chunk. */
  function Peeked(m: seq<Mark>, n: nat): seq<Mark> { Marked(Octets(m[..Reach(m, n)])) + m[Reach(m, n)..] }

  /** At least two octets are peeked at if there are two. */
  lemma PeekedTwo(m: seq<Mark>)
    requires |Octets(m)| >= 2
    ensures var p := Peeked(m, 2);
      2 <= |p| <= |m| && p[0] == Some(Octets(m)[0]) && p[1] == Some(Octets(m)[1])
  {
    hide Octets, Reach;
    var k := Reach(m, 2);
    ReachCount(m, 2);
    assert m == m[..k] + m[k..];
    OctetsAppend(m[..k], m[k..]);
  }

  lemma PeekedShorter(m: seq<Mark>, n: nat)
    ensures |Peeked(m, n)| <= |m|
  {
    hide Octets, Reach;
  }

  lemma {:induction false} ReachCount(m: seq<Mark>, n: nat)
    requires n <= |Octets(m)|
    ensures |Octets(m[..Reach(m, n)])| == n
  {
    if n > 0 {
      var k := if m[0].Some? then n - 1 else n;
      ReachCount(m[1..], k);
      var r := Reach(m, n);
      assert m[..r][0] == m[0] && m[..r][1..] == m[1..][..r - 1];
    } else {
      assert m[..0] == [];
    }
  }

  lemma {:induction false} ReachMarked(s: seq<byte>, n: nat)
    requires n <= |s|
    ensures Reach(Marked(s), n) == n && Octets(Marked(s)[..n]) == s[..n] && Marked(s)[n..] == Marked(s[n..])
  {
    hide Octets;
    if n > 0 {
      ReachMarked(s[1..], n - 1);
      assert Marked(s)[1..] == Marked(s[1..]);
    }
    assert Marked(s)[..n] == Marked(s[..n]);
    OctetsOfMarked(s[..n]);
  }

  lemma MarkedBehind(s: seq<byte>, n: nat)
    requires n <= |s|
    ensures Marked(s)[n..] == Marked(s[n..])
  {
  }

  /** Peeking changes nothing where there is no empty chunk. */
  lemma PeekedMarked(s: seq<byte>, n: nat)
    ensures Peeked(Marked(s), n) == Marked(s)
  {
    hide Octets, Reach;
    OctetsOfMarked(s);
    if n <= |s| {
      ReachMarked(s, n);
      MarkedAppend(s[..n], s[n..]);
      assert s == s[..n] + s[n..];
    } else {
      ReachFar(Marked(s), n);
      assert Marked(s)[..|s|] == Marked(s);
      assert Marked(s) + [] == Marked(s);
    }
  }

  lemma PeekedFull(m: seq<Mark>)
    requires |m| >= 2 && m[0].Some? && m[1].Some?
    ensures Peeked(m, 2) == m && |Octets(m)| >= 2 && Octets(m)[0] == m[0].value
  {
    hide Octets, Reach, Marked;
    var s := [m[0].value, m[1].value];
    MarkedPair(m[0].value, m[1].value);
    assert m == [] + (Marked(s) + m[2..]) && m == Marked(s) + m[2..];
    OctetsOfMarked([]);
    ReachIs(m, [], s, m[2..]);
    OctetsOfMarked(s);
    OctetsAppend(Marked(s), m[2..]);
  }

  lemma MarkedPair(a: byte, b: byte)
    ensures Marked([a, b]) == [Some(a), Some(b)] && Marked([]) == []
  {
  }

  lemma FirstMark(c: seq<byte>, rest: seq<Mark>)
    requires |c| > 0
    ensures var m := ChunkMarks(c) + rest;
      m[0] == Some(c[0]) && m[1..] == Marked(c[1..]) + rest
  {
  }

  lemma CutBehind(a: seq<byte>, v: seq<byte>, n: nat)
    requires |a| < n <= |a + v|
    ensures (a + v)[..n] == a + v[..n - |a|] && (a + v)[n..] == v[n - |a|..]
  {
  }
}
