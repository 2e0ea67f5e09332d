/** The streaming line-ending converters. */
module Eol {
  import opened Bytes
  import opened Streams
  import opened Util

  const CR: byte := 13
  const LF: byte := 10

  // ---------------------------------------------------------------- the one-shot maps

  /** Whether the octet at k is a line feed that no carriage return precedes. */
  predicate BareLF(x: seq<byte>, k: nat)
    requires k < |x|
  {
    x[k] == LF && !(k > 0 && x[k - 1] == CR)
  }

  /** A carriage return in front of each bare line feed. */
  function Canonical(x: seq<byte>): seq<byte> {
    if |x| == 0 then []
    else Canonical(x[..|x| - 1]) + (if BareLF(x, |x| - 1) then [CR, LF] else [x[|x| - 1]])
  }

  /** Whether the octet at k is a carriage return directly before a line feed. */
  predicate Redundant(x: seq<byte>, k: nat)
    requires k < |x|
  {
    x[k] == CR && k + 1 < |x| && x[k + 1] == LF
  }

  /** The first k octets without the redundant carriage returns. */
  function Kept(x: seq<byte>, k: nat): seq<byte>
    requires k <= |x|
  {
    if k == 0 then [] else Kept(x, k - 1) + (if Redundant(x, k - 1) then [] else [x[k - 1]])
  }

  function Native(x: seq<byte>): seq<byte> { Kept(x, |x|) }

  predicate EndsWithCR(x: seq<byte>) { |x| > 0 && x[|x| - 1] == CR }

  predicate StartsWithLF(x: seq<byte>) { |x| > 0 && x[0] == LF }

  lemma Empties(x: seq<byte>)
    ensures Canonical([]) == [] && Native([]) == [] && Kept(x, 0) == []
  {
  }

  // ---------------------------------------------------------------- laws of the maps

  lemma {:induction false} CanonicalAppend(a: seq<byte>, b: seq<byte>)
    requires !(EndsWithCR(a) && StartsWithLF(b))
    ensures Canonical(a + b) == Canonical(a) + Canonical(b)
  {
    if |b| == 0 {
      assert a + b == a;
    } else {
      CanonicalAppend(a, b[..|b| - 1]);
      assert (a + b)[..|a + b| - 1] == a + b[..|b| - 1];
    }
  }

  lemma {:induction false} KeptPrefix(a: seq<byte>, b: seq<byte>, k: nat)
    requires k <= |a| && (k == |a| ==> !(EndsWithCR(a) && StartsWithLF(b)))
    ensures Kept(a + b, k) == Kept(a, k)
  {
    if k > 0 { KeptPrefix(a, b, k - 1); }
  }

  lemma {:induction false} KeptSuffix(a: seq<byte>, b: seq<byte>, k: nat)
    requires k <= |b| && !(EndsWithCR(a) && StartsWithLF(b))
    ensures Kept(a + b, |a| + k) == Kept(a + b, |a|) + Kept(b, k)
  {
    if k > 0 { KeptSuffix(a, b, k - 1); }
  }

  lemma NativeAppend(a: seq<byte>, b: seq<byte>)
    requires !(EndsWithCR(a) && StartsWithLF(b))
    ensures Native(a + b) == Native(a) + Native(b)
  {
    KeptPrefix(a, b, |a|);
    KeptSuffix(a, b, |b|);
  }

  lemma {:induction false} KeptShift(b: seq<byte>, k: nat)
    requires StartsWithLF(b) && k <= |b|
    ensures Kept([CR] + b, k + 1) == Kept(b, k)
  {
    if k > 0 { KeptShift(b, k - 1); } else { assert Kept([CR] + b, 0) == []; }
  }

  /** A carriage return in front of a line feed disappears. */
  lemma NativeDropsCR(b: seq<byte>)
    requires StartsWithLF(b)
    ensures Native([CR] + b) == Native(b)
  {
    KeptShift(b, |b|);
  }

  lemma CanonicalOne(x: seq<byte>, c: byte)
    ensures Canonical(x + [c]) == Canonical(x) + (if c == LF && !EndsWithCR(x) then [CR, LF] else [c])
  {
    assert (x + [c])[..|x|] == x;
  }

  lemma CanonicalEndsWithCR(x: seq<byte>)
    ensures EndsWithCR(Canonical(x)) <==> EndsWithCR(x)
  {
  }

  /** Canonical text is a fixed point. */
  lemma {:induction false} CanonicalIdempotent(x: seq<byte>)
    ensures Canonical(Canonical(x)) == Canonical(x)
  {
    if |x| > 0 {
      var y, c := x[..|x| - 1], x[|x| - 1];
      var z := Canonical(y);
      CanonicalIdempotent(y);
      CanonicalEndsWithCR(y);
      if BareLF(x, |x| - 1) {
        CanonicalOne(z, CR);
        CanonicalOne(z + [CR], LF);
        assert z + [CR, LF] == z + [CR] + [LF];
        assert Canonical(z) + [CR] + [LF] == Canonical(z) + [CR, LF];
      } else {
        CanonicalOne(z, c);
      }
    }
  }

  lemma NativeOne(x: seq<byte>, c: byte)
    ensures EndsWithCR(x) && c == LF ==> Native(x + [c]) == Native(x[..|x| - 1]) + [LF]
    ensures !(EndsWithCR(x) && c == LF) ==> Native(x + [c]) == Native(x) + [c]
  {
    assert Kept([c], 1) == Kept([c], 0) + [c];
    assert Native([c]) == [c];
    if EndsWithCR(x) && c == LF {
      var y := x[..|x| - 1];
      assert x + [c] == y + ([CR] + [LF]);
      NativeAppend(y, [CR] + [LF]);
      NativeDropsCR([LF]);
    } else {
      NativeAppend(x, [c]);
    }
  }

  lemma LastOctet(x: seq<byte>)
    requires |x| > 0
    ensures x == x[..|x| - 1] + [x[|x| - 1]]
  {
  }

  /** Canonicalizing first does not change the native form. */
  lemma {:induction false} NativeOfCanonical(x: seq<byte>)
    ensures Native(Canonical(x)) == Native(x)
  {
    hide Native, Canonical;
    if |x| > 0 {
      var y, c := x[..|x| - 1], x[|x| - 1];
      var z := Canonical(y);
      LastOctet(x);
      NativeOfCanonical(y);
      CanonicalEndsWithCR(y);
      CanonicalOne(y, c);
      NativeOne(y, c);
      if c != LF {
        NativeOne(z, c);
      } else if !EndsWithCR(y) {
        NativeOne(z + [CR], LF);
        assert z + [CR, LF] == (z + [CR]) + [LF];
        assert (z + [CR])[..|z|] == z;
      } else {
        var w := y[..|y| - 1];
        LastOctet(y);
        CanonicalOne(w, CR);
        NativeOfCanonical(w);
        NativeOne(z, LF);
        assert z[..|z| - 1] == Canonical(w);
      }
    } else {
      Empties(x);
      assert x == [];
    }
  }

  ghost predicate HasCRLF(x: seq<byte>) { exists k :: 0 <= k < |x| && Redundant(x, k) }

  lemma {:induction false} KeptLength(x: seq<byte>, k: nat)
    requires k <= |x|
    ensures |Kept(x, k)| <= k
    ensures |Kept(x, k)| == k <==> forall i :: 0 <= i < k ==> !Redundant(x, i)
    ensures (forall i :: 0 <= i < k ==> !Redundant(x, i)) ==> Kept(x, k) == x[..k]
  {
    if k > 0 { KeptLength(x, k - 1); }
  }

  /** Text survives canonicalization and conversion back exactly when it holds no CR LF pair. */
  lemma TextRoundTripIff(x: seq<byte>)
    ensures Native(Canonical(x)) == x <==> !HasCRLF(x)
  {
    NativeOfCanonical(x);
    KeptLength(x, |x|);
  }

  // ---------------------------------------------------------------- the maps line by line

  /** The lines of a text, without the line feeds that end all of them but the last. */
  function Lines(x: seq<byte>): (ls: seq<seq<byte>>)
    ensures |ls| > 0
  {
    if |x| == 0 then [[]]
    else
      var ls, c := Lines(x[..|x| - 1]), x[|x| - 1];
      if c == LF then ls + [[]] else ls[..|ls| - 1] + [ls[|ls| - 1] + [c]]
  }

  /** The lines again, each ended one mapped and followed by its line feed. */
  function Joined(ls: seq<seq<byte>>, f: seq<byte> -> seq<byte>): seq<byte>
    requires |ls| > 0
  {
    Ended(ls[..|ls| - 1], f) + ls[|ls| - 1]
  }

  function Ended(ls: seq<seq<byte>>, f: seq<byte> -> seq<byte>): seq<byte> {
    if |ls| == 0 then [] else Ended(ls[..|ls| - 1], f) + f(ls[|ls| - 1]) + [LF]
  }

  function WithCR(line: seq<byte>): seq<byte> { if EndsWithCR(line) then line else line + [CR] }

  function WithoutCR(line: seq<byte>): seq<byte> {
    if EndsWithCR(line) then line[..|line| - 1] else line
  }

  function Same(line: seq<byte>): seq<byte> { line }

  lemma JoinedStep(ls: seq<seq<byte>>, f: seq<byte> -> seq<byte>, c: byte)
    requires |ls| > 0
    ensures Joined(ls + [[]], f) == Ended(ls[..|ls| - 1], f) + f(ls[|ls| - 1]) + [LF]
    ensures Joined(ls[..|ls| - 1] + [ls[|ls| - 1] + [c]], f) == Joined(ls, f) + [c]
  {
    assert (ls + [[]])[..|ls|] == ls;
    var t := ls[..|ls| - 1] + [ls[|ls| - 1] + [c]];
    assert t[..|t| - 1] == ls[..|ls| - 1];
  }

  /** Lines and line feeds make up the text; no line holds a line feed. */
  lemma {:induction false} LinesOf(x: seq<byte>)
    ensures Joined(Lines(x), Same) == x
    ensures forall l :: l in Lines(x) ==> LF !in l
    ensures var last := Lines(x)[|Lines(x)| - 1]; |last| <= |x| && x[|x| - |last|..] == last
    ensures EndsWithCR(x) <==> EndsWithCR(Lines(x)[|Lines(x)| - 1])
  {
    hide Joined;
    if |x| == 0 {
      NoLines(Same);
    } else {
      var y, c := x[..|x| - 1], x[|x| - 1];
      LinesOf(y);
      LastOctet(x);
      var ls := Lines(y);
      JoinedStep(ls, Same, c);
      if c == LF { assert Joined(ls, Same) == Ended(ls[..|ls| - 1], Same) + ls[|ls| - 1] by { JoinedIs(ls, Same); } }
    }
  }

  lemma NoLines(f: seq<byte> -> seq<byte>)
    ensures Joined([[]], f) == []
  {
    var none: seq<seq<byte>> := [[]];
    assert none[..0] == [];
  }

  lemma JoinedIs(ls: seq<seq<byte>>, f: seq<byte> -> seq<byte>)
    requires |ls| > 0
    ensures Joined(ls, f) == Ended(ls[..|ls| - 1], f) + ls[|ls| - 1]
  {
  }

  /** The canonical form ends each line with a carriage return and a line feed, adding what is missing. */
  lemma {:induction false} CanonicalByLines(x: seq<byte>)
    ensures Canonical(x) == Joined(Lines(x), WithCR)
  {
    hide Joined, Canonical;
    if |x| == 0 {
      NoLines(WithCR);
      Empties(x);
    } else {
      var y, c := x[..|x| - 1], x[|x| - 1];
      CanonicalByLines(y);
      LinesOf(y);
      LastOctet(x);
      CanonicalOne(y, c);
      var ls := Lines(y);
      JoinedStep(ls, WithCR, c);
      JoinedIs(ls, WithCR);
      if c == LF { LineFeedEnds(Ended(ls[..|ls| - 1], WithCR), ls[|ls| - 1]); }
    }
  }

  lemma LineFeedEnds(a: seq<byte>, line: seq<byte>)
    ensures a + WithCR(line) + [LF] == (a + line) + (if EndsWithCR(line) then [LF] else [CR, LF])
  {
  }

  /** The native form ends each line with a line feed alone, dropping one carriage return before it. */
  lemma {:induction false} NativeByLines(x: seq<byte>)
    ensures Native(x) == Joined(Lines(x), WithoutCR)
  {
    hide Joined, Native;
    if |x| == 0 {
      NoLines(WithoutCR);
      Empties(x);
    } else {
      var y, c := x[..|x| - 1], x[|x| - 1];
      NativeByLines(y);
      LinesOf(y);
      LastOctet(x);
      NativeOne(y, c);
      var ls := Lines(y);
      JoinedStep(ls, WithoutCR, c);
      JoinedIs(ls, WithoutCR);
      if c == LF { DroppedReturn(y, Ended(ls[..|ls| - 1], WithoutCR), ls[|ls| - 1]); }
    }
  }

  lemma DroppedReturn(y: seq<byte>, a: seq<byte>, line: seq<byte>)
    requires Native(y) == a + line && (EndsWithCR(y) <==> EndsWithCR(line))
    ensures EndsWithCR(y) ==> Native(y[..|y| - 1]) == a + WithoutCR(line)
    ensures !EndsWithCR(y) ==> Native(y) == a + WithoutCR(line)
  {
    hide Native;
    if EndsWithCR(y) {
      LastOctet(y);
      NativeOne(y[..|y| - 1], CR);
      var u, v := Native(y[..|y| - 1]), a + WithoutCR(line);
      assert a + line == v + [CR];
      assert u == (u + [CR])[..|u|] && v == (v + [CR])[..|v|];
    }
  }

  // ---------------------------------------------------------------- searching and moving

  /** The first position of b at or after i, or -1. */
  method IndexOf(x: seq<byte>, b: byte, i: nat) returns (k: int)
    requires i <= |x|
    ensures k == -1 ==> forall j :: i <= j < |x| ==> x[j] != b
    ensures k != -1 ==> i <= k < |x| && x[k] == b && forall j :: i <= j < k ==> x[j] != b
  {
    k := i;
    while k < |x|
      invariant i <= k <= |x|
      invariant forall j :: i <= j < k ==> x[j] != b
    {
      if x[k] == b { return; }
      k := k + 1;
    }
    k := -1;
  }

  /** A stretch copied to another place. */
  function Moved(s: seq<byte>, target: nat, start: nat, end: nat): (t: seq<byte>)
    requires start <= end <= |s| && target + (end - start) <= |s|
    ensures |t| == |s|
  {
    s[..target] + s[start..end] + s[target + (end - start)..]
  }

  /** Move a stretch of an array to another place in it. */
  method CopyWithin(a: array<byte>, target: nat, start: nat, end: nat)
    requires start <= end <= a.Length && target + (end - start) <= a.Length
    modifies a
    ensures a[..] == Moved(old(a[..]), target, start, end)
  {
    ghost var s := a[..];
    var moved := a[start..end];
    assert moved == s[start..end];
    SetAt(a, moved, target);
    assert a[..] == s[..target] + moved + s[target + |moved|..];
  }

  /** Moving text down leaves what comes after it, and continues what comes before its new place. */
  lemma MovedDown(x: seq<byte>, s: seq<byte>, j: nat, i: nat, last: nat, index: nat)
    requires j <= i <= last <= index <= |s| == |x| && s[i..] == x[i..]
    ensures var t := Moved(s, j, i, last);
      t[..j + (last - i)] == s[..j] + x[i..last] && t[index..] == x[index..]
    ensures j == i ==> Moved(s, j, i, last) == s
  {
    SameTail(x, s, i, index);
    var mid, at := s[i..last], j + (last - i);
    assert mid == s[i..][..last - i] && x[i..last] == x[i..][..last - i];
    var t := s[..j] + mid + s[at..];
    assert t[..at] == s[..j] + mid;
    assert t[index..] == s[at..][index - at..] == s[index..];
    if j == i { assert s[..last] == s[..j] + mid; }
  }

  // ---------------------------------------------------------------- canonicalizeEOL

  /** The positions after the bare line feeds among the first i octets. */
  function BareAfter(x: seq<byte>, i: nat): (s: seq<nat>)
    requires i <= |x|
    ensures forall k :: 0 <= k < |s| ==> 1 <= s[k] <= i
  {
    if i == 0 then []
    else if BareLF(x, i - 1) then BareAfter(x, i - 1) + [i]
    else BareAfter(x, i - 1)
  }

  lemma {:induction false} BareAfterSkip(x: seq<byte>, i: nat, j: nat)
    requires i <= j <= |x| && forall k :: i <= k < j ==> !BareLF(x, k)
    ensures BareAfter(x, j) == BareAfter(x, i)
    ensures Canonical(x[..j]) == Canonical(x[..i]) + x[i..j]
  {
    if i < j {
      BareAfterSkip(x, i, j - 1);
      CanonicalStep(x, j - 1);
    }
  }

  lemma CanonicalStep(x: seq<byte>, k: nat)
    requires k < |x|
    ensures Canonical(x[..k + 1]) == Canonical(x[..k]) + (if BareLF(x, k) then [CR, LF] else [x[k]])
  {
    assert x[..k + 1][..k] == x[..k];
    assert BareLF(x[..k + 1], k) == BareLF(x, k);
  }

  /** Between consecutive recorded positions the text is copied, with a carriage return put in before the last octet. */
  lemma {:induction false} BareAfterGaps(x: seq<byte>, i: nat, n: nat)
    requires i <= |x| && n < |BareAfter(x, i)|
    ensures var s := BareAfter(x, i);
      var from := if n == 0 then 0 else s[n - 1];
      from < s[n] && Canonical(x[..s[n]]) == Canonical(x[..from]) + x[from..s[n] - 1] + [CR, LF]
    decreases i
  {
    hide Canonical, BareLF, BareAfter;
    var s := BareAfter(x, i);
    NoBare(x);
    BareAfterNext(x, i - 1);
    if !BareLF(x, i - 1) || n < |s| - 1 {
      BareAfterGaps(x, i - 1, n);
    } else {
      var from := if n == 0 then 0 else s[n - 1];
      LastBare(x, i - 1);
      BareAfterSkip(x, from, i - 1);
      CanonicalStep(x, i - 1);
    }
  }

  lemma {:induction false} LastBare(x: seq<byte>, i: nat)
    requires i <= |x|
    ensures var s := BareAfter(x, i);
      var last := if |s| == 0 then 0 else s[|s| - 1];
      last <= i && forall k :: last <= k < i ==> !BareLF(x, k)
  {
    if i > 0 { LastBare(x, i - 1); }
  }

  lemma BareAfterNext(x: seq<byte>, k: nat)
    requires k < |x|
    ensures BareAfter(x, k + 1) == if BareLF(x, k) then BareAfter(x, k) + [k + 1] else BareAfter(x, k)
    ensures BareLF(x, k) <==> x[k] == LF && (k == 0 || x[k - 1] != CR)
  {
  }

  lemma NotLF(x: seq<byte>, i: nat, j: nat)
    requires i <= j <= |x| && forall k :: i <= k < j ==> x[k] != LF
    ensures forall k :: i <= k < j ==> !BareLF(x, k)
  {
  }

  /** Insert the carriage returns into one piece of text. */
  method Normalize(bytes: seq<byte>) returns (out: seq<byte>)
    ensures out == Canonical(bytes)
  {
    hide Canonical, BareAfter, BareLF;
    var indices: seq<nat> := [];
    NoBare(bytes);
    var i := 0;
    while true
      invariant 0 <= i <= |bytes|
      invariant indices == BareAfter(bytes, i)
      decreases |bytes| - i
    {
      var k := IndexOf(bytes, LF, i);
      if k == -1 {
        NotLF(bytes, i, |bytes|);
        BareAfterSkip(bytes, i, |bytes|);
        break;
      }
      NotLF(bytes, i, k);
      BareAfterSkip(bytes, i, k);
      BareAfterNext(bytes, k);
      var index := k + 1;
      if index < 2 || bytes[index - 2] != CR { indices := indices + [index]; }
      i := index;
    }
    LastBare(bytes, |bytes|);
    var last := if |indices| == 0 then 0 else indices[|indices| - 1];
    BareAfterSkip(bytes, last, |bytes|);
    assert bytes[..|bytes|] == bytes;
    if |indices| == 0 {
      Empties(bytes);
      assert bytes[..0] == [] && bytes[0..] == bytes;
      return bytes;
    }
    out := Assemble(bytes, indices, last);
  }

  lemma NoBare(x: seq<byte>)
    ensures BareAfter(x, 0) == []
  {
  }

  /** A line put behind what is there, with its last octet replaced by a line end. */
  lemma LineEnded(s: seq<byte>, filled: seq<byte>, t: seq<byte>, j: nat, line: seq<byte>, done: seq<byte>)
    requires |line| > 0 && j + |line| < |s| && s[..j] == done
    requires filled == s[..j] + line + s[j + |line|..]
    requires t == filled[j + |line| - 1 := CR][j + |line| := LF]
    ensures t[..j + |line| + 1] == done + line[..|line| - 1] + [CR, LF]
  {
  }

  /** Copy a line and turn its last octet into a line end. */
  method AppendLine(a: array<byte>, j: nat, line: seq<byte>, ghost done: seq<byte>) returns (j': nat)
    requires |line| > 0 && j + |line| < a.Length && a[..j] == done
    modifies a
    ensures j' == j + |line| + 1 && a[..j'] == done + line[..|line| - 1] + [CR, LF]
  {
    ghost var before := a[..];
    SetAt(a, line, j);
    ghost var filled := a[..];
    j' := j + |line|;
    a[j' - 1] := CR;
    a[j'] := LF;
    j' := j' + 1;
    LineEnded(before, filled, a[..], j, line, done);
    assert a[..][..j'] == a[..j'];
  }

  method Assemble(bytes: seq<byte>, indices: seq<nat>, last: nat) returns (out: seq<byte>)
    requires indices == BareAfter(bytes, |bytes|) && |indices| > 0 && last == indices[|indices| - 1]
    ensures out == Canonical(bytes[..last]) + bytes[last..]
  {
    hide Canonical, BareAfter, BareLF;
    var normalized := new byte[|bytes| + |indices|](_ => 0);
    var i, j, from := 0, 0, 0;
    Empties([]);
    while i < |indices|
      invariant 0 <= i <= |indices|
      invariant from == if i == 0 then 0 else indices[i - 1]
      invariant j == from + i <= normalized.Length
      invariant normalized[..j] == Canonical(bytes[..from])
    {
      BareAfterGaps(bytes, |bytes|, i);
      j := AppendLine(normalized, j, bytes[from..indices[i]], Canonical(bytes[..from]));
      from := indices[i];
      i := i + 1;
    }
    SetAt(normalized, bytes[from..], j);
    out := normalized[..];
  }

  /** A carriage return at the end waits for the next chunk. */
  function Trim(bytes: seq<byte>): seq<byte> {
    if EndsWithCR(bytes) then bytes[..|bytes| - 1] else bytes
  }

  /** The carried carriage return, put back in front. */
  function Resumed(carry: bool, chunk: seq<byte>): seq<byte> {
    if carry then [CR] + chunk else chunk
  }

  class Canonicalizer {
    var carryOverCR: bool

    constructor ()
      ensures !carryOverCR
    {
      carryOverCR := false;
    }

    method Process(chunk: seq<byte>) returns (out: seq<byte>)
      modifies this
      ensures carryOverCR == EndsWithCR(Resumed(old(carryOverCR), chunk))
      ensures out == Canonical(Trim(Resumed(old(carryOverCR), chunk)))
    {
      var bytes := chunk;
      if carryOverCR { bytes := [CR] + bytes; }
      if |bytes| > 0 && bytes[|bytes| - 1] == CR {
        carryOverCR := true;
        bytes := bytes[..|bytes| - 1];
      } else {
        carryOverCR := false;
      }
      out := Normalize(bytes);
    }

    method Finish() returns (out: seq<byte>)
      ensures out == if carryOverCR then [CR] else []
    {
      out := if carryOverCR then [CR] else [];
    }
  }

  /** Trimming and resuming only moves a carriage return from one chunk to the next. */
  lemma ResumeTrim(all: seq<byte>, settled: seq<byte>, carry: bool, chunk: seq<byte>)
    requires all == Consumed(settled, carry)
    ensures var bytes := Resumed(carry, chunk);
      all + chunk == Consumed(settled + Trim(bytes), EndsWithCR(bytes))
  {
    var bytes := Resumed(carry, chunk);
    assert all + chunk == settled + bytes;
  }

  /** What has been read: the settled part and the carried carriage return. */
  function Consumed(settled: seq<byte>, carry: bool): seq<byte> {
    if carry then settled + [CR] else settled
  }

  /** Whatever the chunks, the output is the canonical form of the whole. */
  method CanonicalizeEOL(chunks: seq<seq<byte>>) returns (out: seq<byte>)
    ensures out == Canonical(Flatten(chunks))
  {
    hide Canonical, Flatten, Trim, Resumed;
    var state := new Canonicalizer();
    out := [];
    ghost var settled: seq<byte> := [];  // the input whose output has been emitted
    var i := 0;
    Empties([]);
    FlattenEmpty(chunks);
    while i < |chunks|
      invariant 0 <= i <= |chunks| && fresh(state)
      invariant Flatten(chunks[..i]) == Consumed(settled, state.carryOverCR)
      invariant EndsWithCR(settled) ==> state.carryOverCR
      invariant out == Canonical(settled)
    {
      FlattenPrefix(chunks, i);
      ResumeTrim(Flatten(chunks[..i]), settled, state.carryOverCR, chunks[i]);
      TrimSettles(settled, state.carryOverCR, chunks[i]);
      ghost var done := Trim(Resumed(state.carryOverCR, chunks[i]));
      CanonicalAppend(settled, done);
      var piece := state.Process(chunks[i]);
      out := out + piece;
      settled := settled + done;
      i := i + 1;
    }
    assert chunks[..i] == chunks;
    var rest := state.Finish();
    if state.carryOverCR { CanonicalOne(settled, CR); }
    out := out + rest;
  }

  lemma TrimSettles(settled: seq<byte>, carry: bool, chunk: seq<byte>)
    requires EndsWithCR(settled) ==> carry
    ensures var bytes := Resumed(carry, chunk);
      && !(EndsWithCR(settled) && StartsWithLF(Trim(bytes)))
      && (EndsWithCR(settled + Trim(bytes)) ==> EndsWithCR(bytes))
  {
    var bytes := Resumed(carry, chunk);
    if |Trim(bytes)| == 0 { assert settled + Trim(bytes) == settled; }
  }

  // ---------------------------------------------------------------- nativeEOL

  lemma {:induction false} KeptSkip(x: seq<byte>, i: nat, j: nat)
    requires i <= j <= |x| && forall k :: i <= k < j ==> !Redundant(x, k)
    ensures Kept(x, j) == Kept(x, i) + x[i..j]
  {
    hide Redundant;
    if i < j {
      KeptSkip(x, i, j - 1);
      assert x[i..j] == x[i..j - 1] + [x[j - 1]];
      Regroup(Kept(x, i), x[i..j - 1], [x[j - 1]]);
    } else {
      assert x[i..j] == [];
    }
  }

  /** Drop the redundant carriage returns by moving the text together in place. */
  method Compact(bytes: array<byte>) returns (out: seq<byte>)
    modifies bytes
    ensures out == Native(old(bytes[..]))
  {
    hide Kept, Redundant, Moved, Native;
    ghost var x := bytes[..];
    var i, j := 0, 0;
    Empties(x);
    while i != bytes.Length
      invariant 0 <= j <= i <= bytes.Length
      invariant i == 0 ==> j == 0
      invariant bytes[..j] == Kept(x, i)
      invariant bytes[i..] == x[i..]  // nothing unread has been overwritten
      decreases bytes.Length - i
    {
      ghost var before := bytes[..];
      assert before[i..] == x[i..] && before[..j] == bytes[..j];
      var k := IndexOf(bytes[i..], CR, 0);
      var index := if k == -1 then bytes.Length else i + k + 1;
      var last := index - (if index < bytes.Length && bytes[index] == LF then 1 else 0);
      SameTail(x, before, i, index);
      assert bytes[i..] == before[i..];
      KeptSegment(x, i, index, last, k);
      MovedDown(x, before, j, i, last, index);
      if i != 0 { CopyWithin(bytes, j, i, last); }
      ghost var after := bytes[..];
      assert after == Moved(before, j, i, last);
      assert bytes[..j] == after[..j] && bytes[..j + (last - i)] == after[..j + (last - i)];
      assert bytes[index..] == after[index..];
      j := j + (last - i);
      i := index;
    }
    out := bytes[..j];
    KeptAll(x);
  }

  lemma KeptAll(x: seq<byte>)
    ensures Kept(x, |x|) == Native(x)
  {
  }

  lemma SameTail(x: seq<byte>, y: seq<byte>, i: nat, index: nat)
    requires i <= index <= |x| && |x| == |y| && x[i..] == y[i..]
    ensures index < |x| ==> x[index] == y[index]
    ensures x[index..] == y[index..]
  {
    assert index < |x| ==> x[index] == x[i..][index - i] == y[i..][index - i] == y[index];
    assert x[index..] == x[i..][index - i..] && y[index..] == y[i..][index - i..];
  }

  lemma KeptSegment(x: seq<byte>, i: nat, index: nat, last: nat, k: int)
    requires i < index <= |x|
    requires k == -1 ==> index == |x| && forall m :: 0 <= m < |x[i..]| ==> x[i..][m] != CR
    requires k != -1 ==> index == i + k + 1 && x[i..][k] == CR && forall m :: 0 <= m < k ==> x[i..][m] != CR
    requires last == index - (if index < |x| && x[index] == LF then 1 else 0)
    ensures Kept(x, index) == Kept(x, i) + x[i..last]
  {
    forall m | i <= m < last
      ensures !Redundant(x, m)
    {
      assert x[m] == x[i..][m - i];
    }
    KeptSkip(x, i, last);
    if last == index - 1 { assert Kept(x, index) == Kept(x, index - 1) + []; }
  }

  class Nativizer {
    var carryOverCR: bool

    constructor ()
      ensures !carryOverCR
    {
      carryOverCR := false;
    }

    method Process(chunk: seq<byte>) returns (out: seq<byte>)
      modifies this
      ensures carryOverCR == EndsWithCR(ResumedNative(old(carryOverCR), chunk))
      ensures out == Native(Trim(ResumedNative(old(carryOverCR), chunk)))
    {
      hide Native;
      var bytes := chunk;
      if carryOverCR && !(|bytes| > 0 && bytes[0] == LF) { bytes := [CR] + bytes; }
      if |bytes| > 0 && bytes[|bytes| - 1] == CR {
        carryOverCR := true;
        bytes := bytes[..|bytes| - 1];
      } else {
        carryOverCR := false;
      }
      var copy := new byte[|bytes|](i requires 0 <= i < |bytes| => bytes[i]);
      assert copy[..] == bytes;
      out := Compact(copy);
    }

    method Finish() returns (out: seq<byte>)
      ensures out == if carryOverCR then [CR] else []
    {
      out := if carryOverCR then [CR] else [];
    }
  }

  /** The carried carriage return, put back unless a line feed makes it redundant. */
  function ResumedNative(carry: bool, chunk: seq<byte>): seq<byte> {
    if carry && !StartsWithLF(chunk) then [CR] + chunk else chunk
  }

  lemma DroppedCarry(carry: bool, chunk: seq<byte>)
    ensures EndsWithCR(ResumedNative(carry, chunk)) == EndsWithCR(Resumed(carry, chunk))
    ensures Native(Trim(ResumedNative(carry, chunk))) == Native(Trim(Resumed(carry, chunk)))
  {
    if carry && StartsWithLF(chunk) {
      assert Trim([CR] + chunk) == [CR] + Trim(chunk);
      NativeDropsCR(Trim(chunk));
    }
  }

  /** Whatever the chunks, the output is the native form of the whole. */
  method NativeEOL(chunks: seq<seq<byte>>) returns (out: seq<byte>)
    ensures out == Native(Flatten(chunks))
  {
    hide Native, Flatten, Trim, Resumed, ResumedNative;
    var state := new Nativizer();
    out := [];
    ghost var settled: seq<byte> := [];
    var i := 0;
    Empties([]);
    FlattenEmpty(chunks);
    while i < |chunks|
      invariant 0 <= i <= |chunks| && fresh(state)
      invariant Flatten(chunks[..i]) == Consumed(settled, state.carryOverCR)
      invariant EndsWithCR(settled) ==> state.carryOverCR
      invariant out == Native(settled)
    {
      FlattenPrefix(chunks, i);
      ResumeTrim(Flatten(chunks[..i]), settled, state.carryOverCR, chunks[i]);
      TrimSettles(settled, state.carryOverCR, chunks[i]);
      ghost var done := Trim(Resumed(state.carryOverCR, chunks[i]));
      NativeAppend(settled, done);
      DroppedCarry(state.carryOverCR, chunks[i]);
      var piece := state.Process(chunks[i]);
      out := out + piece;
      settled := settled + done;
      i := i + 1;
    }
    assert chunks[..i] == chunks;
    var rest := state.Finish();
    if state.carryOverCR { NativeOne(settled, CR); }
    out := out + rest;
  }
}
