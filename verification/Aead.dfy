/** The chunked encryption of the AEAD-encrypted data packet, over any authenticated cipher. */
module Aead {
  import opened NumberTheory
  import opened Bytes
  import opened Bits
  import opened BlockCiphers
  import opened Readers
  import opened Results
  import opened Util
  import Ocb
  import Shifts

  /** An authenticated cipher under a fixed key: text, nonce, associated data. */
  datatype Mode = Mode(
    encrypt: (seq<byte>, seq<byte>, seq<byte>) -> seq<byte>,
    decrypt: (seq<byte>, seq<byte>, seq<byte>) -> Result<seq<byte>>)

  /** The ciphertext carries a tag of 16 octets, and only the ciphertext of P decrypts to P. */
  ghost predicate Lawful(mode: Mode, ivLength: nat) {
    forall t: seq<byte>, n: seq<byte>, a: seq<byte> :: |n| == ivLength ==>
      && |mode.encrypt(t, n, a)| == |t| + 16
      && mode.decrypt(mode.encrypt(t, n, a), n, a) == Ok(t)
      && var r := mode.decrypt(t, n, a); r.Ok? ==> t == mode.encrypt(r.value, n, a)
  }

  /**
   What stays fixed while one packet is processed: the first five octets of the associated data are its header
   fields.
   */
  datatype Packet = Packet(mode: Mode, iv: seq<byte>, head: seq<byte>, chunkSizeByte: byte)

  ghost predicate Proper(x: Packet) {
    |x.iv| >= 8 && |x.head| == 5 && Lawful(x.mode, |x.iv|)
  }

  /** The chunk size is 64 octets for a size octet of zero, and doubles with each more. */
  function PlainSize(x: Packet): (n: nat)
    ensures n >= 64
  {
    var c: nat := x.chunkSizeByte;
    PowMonotone(2, 6, c + 6);
    PowAdd(2, 2, 4);
    Pow2Values();
    Pow(2, c + 6)
  }

  // ---------------------------------------------------------------- counters, nonces, associated data

  /** An eight-octet field of which the code writes only the last four. */
  function Field(n: nat): (b: seq<byte>)
    ensures |b| == 8
  {
    [0, 0, 0, 0] + Digits(n, 4)
  }

  function Nonce(x: Packet, i: nat): (n: seq<byte>)
    requires |x.iv| >= 8
    ensures |n| == |x.iv|
  {
    x.iv[..|x.iv| - 8] + XorBytes(x.iv[|x.iv| - 8..], Field(i))
  }

  function ChunkData(x: Packet, i: nat): seq<byte> { x.head + Field(i) }

  function FinalData(x: Packet, i: nat, total: nat): seq<byte> { x.head + Field(i) + Field(total) }

  lemma FieldValue(n: nat)
    ensures Value(Field(n)) == n % 0x1_0000_0000
  {
    hide Value, Digits;
    Pow256Values();
    ValueOfDigits(n, 4);
    Shifts.ValueConcat([0, 0, 0, 0], Digits(n, 4));
    ZeroValue();
  }

  /** The field is the 64-bit number of the format exactly below 2^32. */
  lemma FieldIs64BitIff(n: nat)
    requires n < 0x1_0000_0000_0000_0000
    ensures Field(n) == Digits(n, 8) <==> n < 0x1_0000_0000
  {
    hide Value, Digits, Field;
    Pow256Values();
    PowAdd(256, 4, 4);
    FieldValue(n);
    DigitsRoundTrip(n, 8);
    if n < 0x1_0000_0000 { Shifts.SameValue(Field(n), Digits(n, 8)); }
  }

  /** Within one packet two chunks share a nonce exactly when their numbers agree modulo 2^32. */
  lemma NoncesDistinct(x: Packet, i: nat, j: nat)
    requires |x.iv| >= 8
    ensures Nonce(x, i) == Nonce(x, j) <==> i % 0x1_0000_0000 == j % 0x1_0000_0000
  {
    hide Value, Digits, Field, XorBytes, Xor;
    var k := |x.iv| - 8;
    FieldValue(i);
    FieldValue(j);
    assert Nonce(x, i)[k..] == XorBytes(x.iv[k..], Field(i)) && Nonce(x, j)[k..] == XorBytes(x.iv[k..], Field(j));
    if Nonce(x, i) == Nonce(x, j) {
      XorBytesInjective(x.iv[k..], Field(i), Field(j));
    }
    if i % 0x1_0000_0000 == j % 0x1_0000_0000 {
      Shifts.SameValue(Field(i), Field(j));
    }
  }

  lemma FieldsAgree(i: nat, j: nat)
    ensures Field(i) == Field(j) <==> i % 0x1_0000_0000 == j % 0x1_0000_0000
  {
    hide Value, Field;
    FieldValue(i);
    FieldValue(j);
    if i % 0x1_0000_0000 == j % 0x1_0000_0000 { Shifts.SameValue(Field(i), Field(j)); }
  }

  /** The size octet c stands for 2^(c + 6) octets. */
  lemma ChunkSizes(x: Packet)
    ensures var c: nat := x.chunkSizeByte;
      PlainSize(x) == 64 * Pow(2, c) && (c == 0 ==> PlainSize(x) == 64) && (c == 16 ==> PlainSize(x) == 0x40_0000)
  {
    var c: nat := x.chunkSizeByte;
    Pow2Values();
    PowAdd(2, 2, 4);
    PowAdd(2, 6, c);
    assert Pow(2, c + 6) == Pow(2, 6 + c);
  }

  /** The nonce is the initialization vector with the number of the chunk in its last octets. */
  lemma NonceIsMixed(x: Packet, i: nat)
    requires |x.iv| >= 8
    ensures XorBytes(Nonce(x, i), x.iv) == Zeros(|x.iv| - 8) + Field(i)
  {
    hide Xor, Field;
    var k := |x.iv| - 8;
    var r := XorBytes(Nonce(x, i), x.iv);
    forall j | 0 <= j < |x.iv|
      ensures r[j] == (Zeros(k) + Field(i))[j]
    {
      if j < k {
        XorSelf(x.iv[j]);
      } else {
        XorComm(x.iv[j], Field(i)[j - k]);
        XorCancel(Field(i)[j - k], x.iv[j]);
      }
    }
  }

  /** Nonce and associated data of a chunk tell its packet and its number modulo 2^32. */
  lemma ContextIff(x: Packet, i: nat, y: Packet, j: nat)
    requires |x.iv| == |y.iv| >= 8 && |x.head| == |y.head| == 5
    ensures Nonce(x, i) == Nonce(y, j) && ChunkData(x, i) == ChunkData(y, j) <==>
      x.iv == y.iv && x.head == y.head && i % 0x1_0000_0000 == j % 0x1_0000_0000
  {
    hide Nonce, Field, XorBytes;
    FieldsAgree(i, j);
    NonceIsMixed(x, i);
    NonceIsMixed(y, j);
    assert ChunkData(x, i)[..5] == x.head && ChunkData(x, i)[5..] == Field(i);
    assert ChunkData(y, j)[..5] == y.head && ChunkData(y, j)[5..] == Field(j);
    if Nonce(x, i) == Nonce(y, j) && ChunkData(x, i) == ChunkData(y, j) {
      XorBytesInjective(Nonce(x, i), x.iv, y.iv);
    }
    if x.iv == y.iv && x.head == y.head && Field(i) == Field(j) {
      assert XorBytes(Nonce(x, i), x.iv) == XorBytes(Nonce(y, j), x.iv);
      XorBytesCancel(Nonce(x, i), x.iv);
      XorBytesCancel(Nonce(y, j), x.iv);
    }
  }

  /** The associated data of the final tag tells the number of chunks and the length of the text modulo 2^32. */
  lemma FinalContextIff(x: Packet, i: nat, total: nat, j: nat, other: nat)
    requires |x.head| == 5
    ensures FinalData(x, i, total) == FinalData(x, j, other) <==>
      i % 0x1_0000_0000 == j % 0x1_0000_0000 && total % 0x1_0000_0000 == other % 0x1_0000_0000
    ensures FinalData(x, i, total) != ChunkData(x, j)
  {
    hide Field;
    FieldsAgree(i, j);
    FieldsAgree(total, other);
    var d, e := FinalData(x, i, total), FinalData(x, j, other);
    assert d[5..13] == Field(i) && d[13..] == Field(total) && e[5..13] == Field(j) && e[13..] == Field(other);
    assert |d| == 21 && |ChunkData(x, j)| == 13;
  }

  /** Exclusive-or the chunk number into the end of the initialization vector. */
  method GetNonce(iv: seq<byte>, chunkIndex: seq<byte>) returns (nonce: seq<byte>)
    requires |iv| >= 8 && |chunkIndex| == 8
    ensures nonce == iv[..|iv| - 8] + XorBytes(iv[|iv| - 8..], chunkIndex)
  {
    hide Xor;
    var k := |iv| - 8;
    nonce := iv;
    ghost var mixed := XorBytes(iv[k..], chunkIndex);
    for i := 0 to 8
      invariant |nonce| == |iv| && nonce[..k] == iv[..k] && nonce[k + i..] == iv[k + i..]
      invariant nonce[k..k + i] == mixed[..i]
    {
      assert nonce[k + i] == iv[k + i..][0];
      nonce := nonce[k + i := XorByte(nonce[k + i], chunkIndex[i])];
      assert nonce[k..k + i + 1] == nonce[k..k + i] + [mixed[i]] == mixed[..i + 1];
    }
    assert nonce == nonce[..k] + nonce[k..];
  }

  // ---------------------------------------------------------------- the format

  ghost function SealChunk(x: Packet, i: nat, p: seq<byte>): (r: seq<byte>)
    requires Proper(x)
    ensures |r| == |p| + 16
  {
    x.mode.encrypt(p, Nonce(x, i), ChunkData(x, i))
  }

  ghost function SealEnd(x: Packet, i: nat, total: nat): (r: seq<byte>)
    requires Proper(x)
    ensures |r| == 16
  {
    x.mode.encrypt([], Nonce(x, i), FinalData(x, i, total))
  }

  /** From chunk i on, after total octets of plaintext; with an empty chunk before the final tag if extra. */
  ghost function SealedFrom(x: Packet, i: nat, total: nat, p: seq<byte>, extra: bool): (r: seq<byte>)
    requires Proper(x)
    ensures |r| >= 16
    decreases |p|, if i == 0 then 1 else 0
  {
    if i > 0 && |p| == 0 then
      if extra then SealChunk(x, i, []) + SealEnd(x, i + 1, total) else SealEnd(x, i, total)
    else
      var k := Least(PlainSize(x), |p|);
      SealChunk(x, i, p[..k]) + SealedFrom(x, i + 1, total + k, p[k..], extra)
  }

  ghost function Sealed(x: Packet, p: seq<byte>): seq<byte>
    requires Proper(x)
  {
    SealedFrom(x, 0, 0, p, false)
  }

  /** The number of chunks: one for the empty text, otherwise the length over the chunk size, rounded up. */
  function ChunkCount(x: Packet, n: nat): (k: nat)
    ensures k >= 1
  {
    if n == 0 then 1 else (n - 1) / PlainSize(x) + 1
  }

  /** Chunk i of the text. */
  function ChunkOf(x: Packet, p: seq<byte>, i: nat): seq<byte>
    requires i * PlainSize(x) >= 0
  {
    p[Least(i * PlainSize(x), |p|)..Least((i + 1) * PlainSize(x), |p|)]
  }

  /**
   Where the data of one read is cut: the last 16 octets are pushed back. Negative bounds of subarray count from
   the end.
   */
  function Cut(n: nat): (k: nat)
    ensures k <= n
  {
    if n >= 16 then n - 16 else if n > 8 then 2 * n - 16 else 0
  }

  function Prepend(w: seq<byte>, r: Result<seq<byte>>): Result<seq<byte>> {
    match r case Ok(q) => Ok(w + q) case Err(e) => Err(e)
  }

  lemma Accepted(x: Packet, t: seq<byte>, n: seq<byte>, a: seq<byte>)
    requires Proper(x) && |n| == |x.iv| && x.mode.decrypt(t, n, a).Ok?
    ensures |t| >= 16 && t == x.mode.encrypt(x.mode.decrypt(t, n, a).value, n, a)
    ensures |x.mode.decrypt(t, n, a).value| == |t| - 16
  {
  }

  lemma Decrypts(x: Packet, p: seq<byte>, n: seq<byte>, a: seq<byte>)
    requires Proper(x) && |n| == |x.iv|
    ensures |x.mode.encrypt(p, n, a)| == |p| + 16
    ensures x.mode.decrypt(x.mode.encrypt(p, n, a), n, a) == Ok(p)
  {
  }

  /** What decryption makes of the data from chunk i on. */
  ghost function OpenedFrom(x: Packet, i: nat, total: nat, data: seq<byte>): Result<seq<byte>>
    requires Proper(x)
    decreases |data|, if i == 0 then 1 else 0
  {
    var n := Least(PlainSize(x) + 32, |data|);
    var k := Cut(n);
    if i == 0 || k > 0 then
      match x.mode.decrypt(data[..k], Nonce(x, i), ChunkData(x, i))
      case Err(e) => Err(e)
      case Ok(q) =>
        Accepted(x, data[..k], Nonce(x, i), ChunkData(x, i));
        Prepend(q, OpenedFrom(x, i + 1, total + (k - 16), data[k..]))
    else x.mode.decrypt(data[..n], Nonce(x, i), FinalData(x, i, total))
  }

  // ---------------------------------------------------------------- the format is what the code reads and writes

  /** The first i chunks, each sealed under its own number. */
  ghost function Pieces(x: Packet, p: seq<byte>, i: nat): seq<byte>
    requires Proper(x)
  {
    if i == 0 then []
    else
      MulNonNeg(i - 1, PlainSize(x));
      Pieces(x, p, i - 1) + SealChunk(x, i - 1, ChunkOf(x, p, i - 1))
  }

  lemma ChunkBounds(n: nat, size: nat, i: nat)
    requires size > 0 && i < (if n == 0 then 1 else (n - 1) / size + 1)
    ensures 0 <= i * size <= n && (i + 1) * size == i * size + size
    ensures i > 0 ==> i * size < n
    ensures i + 1 == (if n == 0 then 1 else (n - 1) / size + 1) ==> n <= (i + 1) * size
    ensures i + 1 < (if n == 0 then 1 else (n - 1) / size + 1) ==> (i + 1) * size < n
  {
    MulNonNeg(i, size);
    if n > 0 {
      var q := (n - 1) / size;
      assert n - 1 == size * q + (n - 1) % size;
      MulNonNeg(q - i, size);
      assert (q - i) * size == size * q - i * size;
      if i < q { MulAtLeast(size, q - i); }
    }
  }

  lemma {:induction false} SealedFromPieces(x: Packet, p: seq<byte>, i: nat)
    requires Proper(x) && i <= ChunkCount(x, |p|)
    ensures i * PlainSize(x) >= 0
    ensures var off := Least(i * PlainSize(x), |p|);
      Sealed(x, p) == Pieces(x, p, i) + SealedFrom(x, i, off, p[off..], false)
  {
    hide PlainSize, Lawful, SealChunk, SealEnd;
    hide ChunkCount;
    if i > 0 {
      var size := PlainSize(x);
      CountBounds(x, |p|, i - 1);
      SealedFromPieces(x, p, i - 1);
      PiecesStep(x, p, i - 1, (i - 1) * size, i * size);
    } else {
      assert p[0..] == p;
      assert 0 * PlainSize(x) == 0;
    }
  }

  lemma CountBounds(x: Packet, n: nat, i: nat)
    requires i < ChunkCount(x, n)
    ensures 0 <= i * PlainSize(x) <= n && (i + 1) * PlainSize(x) == i * PlainSize(x) + PlainSize(x)
    ensures i > 0 ==> i * PlainSize(x) < n
    ensures if i + 1 == ChunkCount(x, n) then n <= (i + 1) * PlainSize(x) else (i + 1) * PlainSize(x) < n
  {
    hide PlainSize;
    ChunkBounds(n, PlainSize(x), i);
  }

  lemma SealedFromStep(x: Packet, i: nat, total: nat, p: seq<byte>, extra: bool)
    requires Proper(x) && (i == 0 || |p| > 0)
    ensures var k := Least(PlainSize(x), |p|);
      SealedFrom(x, i, total, p, extra) == SealChunk(x, i, p[..k]) + SealedFrom(x, i + 1, total + k, p[k..], extra)
  {
    hide PlainSize, Lawful, SealChunk, SealEnd;
  }

  lemma SealedFromEnd(x: Packet, i: nat, total: nat)
    requires Proper(x) && i > 0
    ensures SealedFrom(x, i, total, [], false) == SealEnd(x, i, total)
    ensures SealedFrom(x, i, total, [], true) == SealChunk(x, i, []) + SealEnd(x, i + 1, total)
  {
  }

  lemma PiecesStep(x: Packet, p: seq<byte>, i: nat, off: nat, end: nat)
    requires Proper(x) && off == i * PlainSize(x) && end == (i + 1) * PlainSize(x) == off + PlainSize(x)
    requires off <= |p| && (i > 0 ==> off < |p|)
    requires Sealed(x, p) == Pieces(x, p, i) + SealedFrom(x, i, off, p[off..], false)
    ensures var off' := Least(end, |p|);
      Sealed(x, p) == Pieces(x, p, i + 1) + SealedFrom(x, i + 1, off', p[off'..], false)
  {
    hide PlainSize, Lawful, SealChunk, SealEnd, Sealed, SealedFrom;
    SealedFromStep(x, i, off, p[off..], false);
    var k := Least(PlainSize(x), |p| - off);
    assert p[off..][..k] == ChunkOf(x, p, i) && p[off..][k..] == p[off + k..];
    assert off + k == Least(end, |p|);
  }

  /**
   The packet body: every chunk of the text sealed under its number, then the tag over the number of chunks and
   the text's length.
   */
  lemma SealedIsChunked(x: Packet, p: seq<byte>)
    requires Proper(x)
    ensures var k := ChunkCount(x, |p|);
      Sealed(x, p) == Pieces(x, p, k) + SealEnd(x, k, |p|)
  {
    hide PlainSize, Lawful, SealChunk, SealEnd, Pieces, ChunkCount;
    var k := ChunkCount(x, |p|);
    SealedFromPieces(x, p, k);
    CountBounds(x, |p|, k - 1);
    assert p[|p|..] == [];
  }

  lemma {:induction false} SealedFromLength(x: Packet, i: nat, total: nat, p: seq<byte>)
    requires Proper(x)
    ensures |SealedFrom(x, i, total, p, false)| == |p| + 16 * (if i > 0 && |p| == 0 then 1 else ChunkCount(x, |p|) + 1)
    decreases |p|, if i == 0 then 1 else 0
  {
    hide PlainSize, Lawful, SealChunk, SealEnd;
    hide ChunkCount;
    var size := PlainSize(x);
    CountStep(x, |p|);
    if i == 0 || |p| > 0 {
      var k := Least(size, |p|);
      SealedFromLength(x, i + 1, total + k, p[k..]);
    }
  }

  lemma CountStep(x: Packet, n: nat)
    ensures ChunkCount(x, n) == 1 + (if n <= PlainSize(x) then 0 else ChunkCount(x, n - PlainSize(x)))
  {
    hide PlainSize;
    var size := PlainSize(x);
    if n > size {
      var q, r := (n - size - 1) / size, (n - size - 1) % size;
      assert n - size - 1 == size * q + r;
      DivModUnique(n - 1, size, q + 1, r);
    } else if n > 0 {
      DivModUnique(n - 1, size, 0, n - 1);
    }
  }

  /** One tag for each chunk, and one more. */
  lemma SealedLength(x: Packet, p: seq<byte>)
    requires Proper(x)
    ensures |Sealed(x, p)| == |p| + 16 * (ChunkCount(x, |p|) + 1)
  {
    SealedFromLength(x, 0, 0, p);
  }

  /** Whether an empty chunk may stand before the final tag. */
  predicate ExtraAllowed(x: Packet, i: nat, p: seq<byte>) {
    |p| % PlainSize(x) == 0 && (i > 0 || |p| > 0)
  }

  lemma OneStep(x: Packet, i: nat, total: nat, p: seq<byte>, rest: seq<byte>)
    requires Proper(x) && |p| <= PlainSize(x) && |rest| >= 16
    requires |p| < PlainSize(x) ==> |rest| == 16
    ensures OpenedFrom(x, i, total, SealChunk(x, i, p) + rest) == Prepend(p, OpenedFrom(x, i + 1, total + |p|, rest))
  {
    hide PlainSize, Lawful, Nonce, ChunkData;
    Decrypts(x, p, Nonce(x, i), ChunkData(x, i));
    var c := SealChunk(x, i, p);
    var data := c + rest;
    assert data[..|c|] == c && data[|c|..] == rest;
    assert Cut(Least(PlainSize(x) + 32, |data|)) == |c|;
  }

  lemma EndStep(x: Packet, i: nat, total: nat)
    requires Proper(x) && i > 0
    ensures OpenedFrom(x, i, total, SealEnd(x, i, total)) == Ok([])
  {
    hide PlainSize, Lawful, Nonce, FinalData;
    Decrypts(x, [], Nonce(x, i), FinalData(x, i, total));
    var c := SealEnd(x, i, total);
    assert c[..16] == c;
  }

  lemma {:induction false} OpenSealed(x: Packet, i: nat, total: nat, p: seq<byte>, extra: bool)
    requires Proper(x) && (extra ==> ExtraAllowed(x, i, p))
    ensures OpenedFrom(x, i, total, SealedFrom(x, i, total, p, extra)) == Ok(p)
    decreases |p|, if i == 0 then 1 else 0
  {
    hide PlainSize, Lawful, SealChunk, SealEnd, OpenedFrom, SealedFrom;
    if i > 0 && |p| == 0 {
      assert p == [] && p + p == p;
      SealedFromEnd(x, i, total);
      EndStep(x, i, total);
      EndStep(x, i + 1, total);
      OneStep(x, i, total, p, SealEnd(x, i + 1, total));
    } else {
      var size := PlainSize(x);
      var k := Least(size, |p|);
      if extra { MultipleAtLeast(|p|, size); }
      SealedFromStep(x, i, total, p, extra);
      OpenSealed(x, i + 1, total + k, p[k..], extra);
      if k < size { SealedFromEnd(x, i + 1, total + k); }
      assert k < size ==> p[k..] == [];
      OneStep(x, i, total, p[..k], SealedFrom(x, i + 1, total + k, p[k..], extra));
      assert p == p[..k] + p[k..];
    }
  }

  // ---------------------------------------------------------------- what is out of place is refused

  /** What was sealed under one nonce and associated data opens under others: the mode does not tell them apart. */
  ghost predicate Confused(mode: Mode, t: seq<byte>, n: seq<byte>, a: seq<byte>, m: seq<byte>, b: seq<byte>) {
    (n != m || a != b) && mode.decrypt(mode.encrypt(t, n, a), m, b).Ok?
  }

  /** A chunk of another packet, or at another place of its own, is refused unless the mode is confused by it. */
  lemma ForeignChunk(x: Packet, i: nat, y: Packet, j: nat, total: nat, p: seq<byte>, rest: seq<byte>)
    requires Proper(x) && Proper(y) && x.mode == y.mode && |x.iv| == |y.iv|
    requires |p| <= PlainSize(y) && |rest| >= 16 && (|p| < PlainSize(y) ==> |rest| == 16)
    requires x.iv != y.iv || x.head != y.head || i % 0x1_0000_0000 != j % 0x1_0000_0000
    ensures OpenedFrom(y, j, total, SealChunk(x, i, p) + rest).Err?
         || Confused(x.mode, p, Nonce(x, i), ChunkData(x, i), Nonce(y, j), ChunkData(y, j))
  {
    hide PlainSize, Lawful, Nonce, ChunkData;
    ContextIff(x, i, y, j);
    var c := SealChunk(x, i, p);
    var data := c + rest;
    assert data[..|c|] == c;
    assert Cut(Least(PlainSize(y) + 32, |data|)) == |c|;
  }

  /** Whole chunks from number i on, and then a tag. */
  ghost function EndedBy(x: Packet, i: nat, chunks: seq<seq<byte>>, tag: seq<byte>): (r: seq<byte>)
    requires Proper(x)
    ensures |r| >= |tag|
    decreases |chunks|
  {
    if |chunks| == 0 then tag else SealChunk(x, i, chunks[0]) + EndedBy(x, i + 1, chunks[1..], tag)
  }

  /** So are whole chunks with the final tag of more or fewer chunks, or of another length. */
  lemma {:induction false} WrongEnd(x: Packet, i: nat, chunks: seq<seq<byte>>, total: nat, n: nat, all: nat, k: nat,
                                    length: nat)
    requires Proper(x) && n == i + |chunks| > 0 && all == total + |chunks| * PlainSize(x)
    requires forall c :: c in chunks ==> |c| == PlainSize(x)
    requires n % 0x1_0000_0000 != k % 0x1_0000_0000 || all % 0x1_0000_0000 != length % 0x1_0000_0000
    ensures OpenedFrom(x, i, total, EndedBy(x, i, chunks, SealEnd(x, k, length))).Err?
         || Confused(x.mode, [], Nonce(x, k), FinalData(x, k, length), Nonce(x, n), FinalData(x, n, all))
    decreases |chunks|
  {
    hide PlainSize, Lawful, Nonce, SealChunk, SealEnd, OpenedFrom, Confused, FinalData;
    var size := PlainSize(x);
    if |chunks| > 0 {
      assert chunks[0] in chunks;
      assert |chunks| * size == size + (|chunks| - 1) * size;
      WrongEnd(x, i + 1, chunks[1..], total + size, n, all, k, length);
      OneStep(x, i, total, chunks[0], EndedBy(x, i + 1, chunks[1..], SealEnd(x, k, length)));
    } else {
      assert 0 * size == 0;
      WrongTag(x, i, total, k, length);
    }
  }

  lemma WrongTag(x: Packet, i: nat, total: nat, k: nat, length: nat)
    requires Proper(x) && i > 0
    requires i % 0x1_0000_0000 != k % 0x1_0000_0000 || total % 0x1_0000_0000 != length % 0x1_0000_0000
    ensures OpenedFrom(x, i, total, SealEnd(x, k, length)).Err?
         || Confused(x.mode, [], Nonce(x, k), FinalData(x, k, length), Nonce(x, i), FinalData(x, i, total))
  {
    hide PlainSize, Lawful, Nonce, FinalData;
    FinalContextIff(x, i, total, k, length);
    var c := SealEnd(x, k, length);
    assert c[..16] == c && Cut(16) == 0;
  }

  // ---------------------------------------------------------------- what opens was sealed

  lemma {:induction false} SealedWhenOpened(x: Packet, i: nat, total: nat, data: seq<byte>) returns (extra: bool)
    requires Proper(x) && OpenedFrom(x, i, total, data).Ok?
    ensures var p := OpenedFrom(x, i, total, data).value;
      (extra ==> ExtraAllowed(x, i, p)) && data == SealedFrom(x, i, total, p, extra)
    decreases |data|, if i == 0 then 1 else 0
  {
    hide PlainSize, Lawful, Nonce, ChunkData, FinalData, SealedFrom, SealChunk;
    var n := Least(PlainSize(x) + 32, |data|);
    var k := Cut(n);
    if i == 0 || k > 0 {
      AcceptedChunk(x, i, data[..k]);
      var q := x.mode.decrypt(data[..k], Nonce(x, i), ChunkData(x, i)).value;
      var rest := data[k..];
      extra := SealedWhenOpened(x, i + 1, total + |q|, rest);
      var p := OpenedFrom(x, i + 1, total + |q|, rest).value;
      assert data == data[..k] + rest;
      extra := Reseal(x, i, total, q, p, extra, rest);
    } else {
      Accepted(x, data[..n], Nonce(x, i), FinalData(x, i, total));
      assert data[..n] == data;
      var q := x.mode.decrypt(data[..n], Nonce(x, i), FinalData(x, i, total)).value;
      assert q == [];
      SealedFromEnd(x, i, total);
      extra := false;
    }
  }

  lemma AcceptedChunk(x: Packet, i: nat, t: seq<byte>)
    requires Proper(x) && x.mode.decrypt(t, Nonce(x, i), ChunkData(x, i)).Ok?
    ensures var q := x.mode.decrypt(t, Nonce(x, i), ChunkData(x, i)).value;
      |t| == |q| + 16 && t == SealChunk(x, i, q)
  {
    hide Nonce, ChunkData;
    Accepted(x, t, Nonce(x, i), ChunkData(x, i));
  }

  /** An accepted chunk in front of accepted data. */
  lemma Reseal(x: Packet, i: nat, total: nat, q: seq<byte>, p: seq<byte>, extra: bool, rest: seq<byte>)
    returns (extra': bool)
    requires Proper(x) && |q| <= PlainSize(x) && (|q| < PlainSize(x) ==> |rest| == 16)
    requires (extra ==> ExtraAllowed(x, i + 1, p)) && rest == SealedFrom(x, i + 1, total + |q|, p, extra)
    ensures extra' ==> ExtraAllowed(x, i, q + p)
    ensures SealChunk(x, i, q) + rest == SealedFrom(x, i, total, q + p, extra')
  {
    hide PlainSize, Lawful, SealChunk, SealEnd;
    var size := PlainSize(x);
    assert (q + p)[..|q|] == q && (q + p)[|q|..] == p;
    if |q| < size {
      SealedFromShort(x, i + 1, total + |q|, p, extra);
      assert q + p == q;
      if i > 0 && |q| == 0 {
        ModSmall(0, size);
        extra' := true;
      } else {
        extra' := false;
      }
    } else {
      extra' := extra;
      if extra { CongIntro(|q + p|, |p|, size, 1); }
    }
  }

  lemma SealedFromShort(x: Packet, i: nat, total: nat, p: seq<byte>, extra: bool)
    requires Proper(x) && i > 0 && |SealedFrom(x, i, total, p, extra)| == 16
    ensures p == [] && !extra
  {
  }

  /**
   Data decrypts to P exactly when it is P as encryption writes it, or the same with an empty chunk before the
   final tag where the last chunk is full.
   */
  lemma DecryptsIff(x: Packet, data: seq<byte>, p: seq<byte>)
    requires Proper(x)
    ensures OpenedFrom(x, 0, 0, data) == Ok(p) <==>
      || data == Sealed(x, p)
      || (|p| > 0 && |p| % PlainSize(x) == 0 && data == SealedFrom(x, 0, 0, p, true))
  {
    hide PlainSize, Lawful, OpenedFrom, SealedFrom;
    OpenSealed(x, 0, 0, p, false);
    if ExtraAllowed(x, 0, p) { OpenSealed(x, 0, 0, p, true); }
    if OpenedFrom(x, 0, 0, data) == Ok(p) {
      var extra := SealedWhenOpened(x, 0, 0, data);
    }
  }

  /** The OCB mode is such a cipher, for nonces of 15 octets. */
  ghost function OcbMode(c: BlockCipher): Mode
    requires Permutation(c)
  {
    Mode((p, n, a) => if |n| <= 15 && Permutation(c) then Ocb.Sealed(c, n, a, p) else [],
         (t, n, a) => if |n| <= 15 && Permutation(c) then Ocb.Opened(c, n, a, t) else Err(InvalidCiphertext))
  }

  lemma OcbIsLawful(c: BlockCipher)
    requires Permutation(c)
    ensures Lawful(OcbMode(c), 15)
  {
    hide Permutation, Ocb.Sealed, Ocb.Opened;
    var mode := OcbMode(c);
    forall t: seq<byte>, n: seq<byte>, a: seq<byte> | |n| == 15
      ensures |mode.encrypt(t, n, a)| == |t| + 16
      ensures mode.decrypt(mode.encrypt(t, n, a), n, a) == Ok(t)
      ensures var r := mode.decrypt(t, n, a); r.Ok? ==> t == mode.encrypt(r.value, n, a)
    {
      Ocb.RoundTrip(c, n, a, t);
      var r := Ocb.Opened(c, n, a, t);
      if r.Ok? { Ocb.OpensIffSealed(c, n, a, t, r.value); }
    }
  }

  // ---------------------------------------------------------------- the loop

  /** Store a signed 32-bit word big-endian, as a data view does. */
  method SetInt32(buffer: array<byte>, pos: nat, v: nat)
    requires pos + 4 <= buffer.Length
    modifies buffer
    ensures buffer[..] == old(buffer[..])[..pos] + Digits(v, 4) + old(buffer[..])[pos + 4..]
  {
    hide Digits;
    ghost var before := buffer[..];
    assert before[..pos] == buffer[..pos] && before[pos + 4..] == buffer[pos + 4..];
    SetAt(buffer, Digits(v, 4), pos);
  }

  /** The associated-data buffer for chunk i, and what one more store makes of it. */
  function Buffer(x: Packet, i: nat): (b: seq<byte>)
    requires |x.head| == 5
    ensures |b| == 21
  {
    ChunkData(x, i) + Zeros(8)
  }

  lemma BufferViews(x: Packet, i: nat)
    requires |x.head| == 5
    ensures Buffer(x, i)[..13] == ChunkData(x, i) && Buffer(x, i)[5..13] == Field(i)
  {
    hide Digits;
  }

  lemma NextBuffer(x: Packet, i: nat)
    requires |x.head| == 5
    ensures Buffer(x, i)[..9] + Digits(i + 1, 4) + Buffer(x, i)[13..] == Buffer(x, i + 1)
  {
    hide Digits;
    var b := Buffer(x, i);
    assert b[..9] == x.head + [0, 0, 0, 0] && b[13..] == Zeros(8);
  }

  lemma FinalBuffer(x: Packet, i: nat, total: nat)
    requires |x.head| == 5
    ensures Buffer(x, i)[..17] + Digits(total, 4) + Buffer(x, i)[21..] == FinalData(x, i, total)
  {
    hide Digits;
    var b := Buffer(x, i);
    assert b[..17] == x.head + Field(i) + [0, 0, 0, 0] && b[21..] == [];
  }

  lemma ZeroField()
    ensures Field(0) == Zeros(8) && Zeros(8)[..4] == [0, 0, 0, 0]
  {
    assert Digits(0, 4) == [0, 0, 0, 0] by {
      assert Digits(0, 1) == Digits(0, 0) + [0];
      assert Digits(0, 2) == Digits(0, 1) + [0];
      assert Digits(0, 3) == Digits(0, 2) + [0];
      assert Digits(0, 4) == Digits(0, 3) + [0];
    }
  }

  /** What remains to be produced. */
  ghost function Remaining(x: Packet, enc: bool, i: nat, total: nat, data: seq<byte>): Result<seq<byte>>
    requires Proper(x)
  {
    if enc then Ok(SealedFrom(x, i, total, data, false)) else OpenedFrom(x, i, total, data)
  }

  function Overhead(enc: bool): nat { if enc then 0 else 16 }

  ghost function Processed(x: Packet, enc: bool, t: seq<byte>, n: seq<byte>, a: seq<byte>): Result<seq<byte>> {
    if enc then Ok(x.mode.encrypt(t, n, a)) else x.mode.decrypt(t, n, a)
  }

  /** One turn of the loop: n octets of data are read and cut at k. */
  lemma Turn(x: Packet, enc: bool, i: nat, total: nat, data: seq<byte>, n: nat, k: nat)
    requires Proper(x)
    requires n == Least(PlainSize(x) + 2 * Overhead(enc), |data|) && k == (if enc then n else Cut(n))
    ensures i == 0 || k > 0 ==>
      var r := Processed(x, enc, data[..k], Nonce(x, i), ChunkData(x, i));
      if r.Err? then Remaining(x, enc, i, total, data) == Err(r.error)
      else
        && k >= Overhead(enc)
        && Remaining(x, enc, i, total, data)
           == Prepend(r.value, Remaining(x, enc, i + 1, total + (k - Overhead(enc)), data[k..]))
    ensures i > 0 && k == 0 ==>
      Remaining(x, enc, i, total, data) == Processed(x, enc, data[k..n], Nonce(x, i), FinalData(x, i, total))
  {
    hide PlainSize, Lawful, Nonce, ChunkData, FinalData, Remaining, Processed, Prepend, Cut;
    if enc {
      SealingTurn(x, i, total, data, n);
    } else {
      OpeningTurn(x, i, total, data, n, k);
    }
  }

  lemma SealingTurn(x: Packet, i: nat, total: nat, data: seq<byte>, n: nat)
    requires Proper(x) && n == Least(PlainSize(x), |data|)
    ensures i == 0 || n > 0 ==>
      var r := Processed(x, true, data[..n], Nonce(x, i), ChunkData(x, i));
      r.Ok? && Remaining(x, true, i, total, data)
               == Prepend(r.value, Remaining(x, true, i + 1, total + n, data[n..]))
    ensures i > 0 && n == 0 ==>
      Remaining(x, true, i, total, data) == Processed(x, true, data[0..n], Nonce(x, i), FinalData(x, i, total))
  {
    hide PlainSize, Lawful, Nonce, ChunkData, FinalData;
    if i > 0 && n == 0 { assert data[0..n] == []; }
  }

  lemma OpeningTurn(x: Packet, i: nat, total: nat, data: seq<byte>, n: nat, k: nat)
    requires Proper(x) && n == Least(PlainSize(x) + 32, |data|) && k == Cut(n)
    ensures i == 0 || k > 0 ==>
      var r := Processed(x, false, data[..k], Nonce(x, i), ChunkData(x, i));
      if r.Err? then Remaining(x, false, i, total, data) == Err(r.error)
      else
        && k >= 16
        && Remaining(x, false, i, total, data)
           == Prepend(r.value, Remaining(x, false, i + 1, total + (k - 16), data[k..]))
    ensures i > 0 && k == 0 ==>
      Remaining(x, false, i, total, data) == Processed(x, false, data[k..n], Nonce(x, i), FinalData(x, i, total))
  {
    hide PlainSize, Lawful, Nonce, ChunkData, FinalData;
    if i == 0 || k > 0 {
      var r := x.mode.decrypt(data[..k], Nonce(x, i), ChunkData(x, i));
      if r.Ok? { Accepted(x, data[..k], Nonce(x, i), ChunkData(x, i)); }
    } else {
      assert data[..n] == data[k..n];
    }
  }

  lemma PrependTwice(w: seq<byte>, v: seq<byte>, r: Result<seq<byte>>)
    ensures Prepend(w, Prepend(v, r)) == Prepend(w + v, r) && Prepend([], r) == r
    ensures r.Err? ==> Prepend(w, r) == Err(r.error)
  {
    match r
    case Ok(q) => assert w + (v + q) == (w + v) + q && [] + q == q;
    case Err(_) =>
  }

  /** What the whole run produces, once some of it is written. */
  ghost function Outcome(x: Packet, enc: bool, written: seq<byte>, i: nat, total: nat, data: seq<byte>):
      Result<seq<byte>>
    requires Proper(x)
  {
    Prepend(written, Remaining(x, enc, i, total, data))
  }

  /** A turn that processes a chunk. */
  lemma ChunkTurn(x: Packet, enc: bool, written: seq<byte>, i: nat, total: nat, data: seq<byte>, n: nat, k: nat)
    requires Proper(x) && (i == 0 || k > 0)
    requires n == Least(PlainSize(x) + 2 * Overhead(enc), |data|) && k == (if enc then n else Cut(n))
    ensures var r := Processed(x, enc, data[..k], Nonce(x, i), ChunkData(x, i));
      if r.Err? then Outcome(x, enc, written, i, total, data) == Err(r.error)
      else
        && k >= Overhead(enc)
        && Outcome(x, enc, written, i, total, data)
           == Outcome(x, enc, written + r.value, i + 1, total + (k - Overhead(enc)), data[k..])
  {
    hide PlainSize, Lawful, Nonce, ChunkData, FinalData, Remaining, Processed, Prepend, Cut;
    Turn(x, enc, i, total, data, n, k);
    var r := Processed(x, enc, data[..k], Nonce(x, i), ChunkData(x, i));
    if r.Err? {
      PrependTwice(written, [], Err(r.error));
    } else {
      PrependTwice(written, r.value, Remaining(x, enc, i + 1, total + (k - Overhead(enc)), data[k..]));
    }
  }

  /** The turn that processes the final tag. */
  lemma FinalTurn(x: Packet, enc: bool, written: seq<byte>, i: nat, total: nat, data: seq<byte>, n: nat, k: nat)
    requires Proper(x) && i > 0 && k == 0
    requires n == Least(PlainSize(x) + 2 * Overhead(enc), |data|) && k == (if enc then n else Cut(n))
    ensures Outcome(x, enc, written, i, total, data)
         == Prepend(written, Processed(x, enc, data[k..n], Nonce(x, i), FinalData(x, i, total)))
  {
    hide PlainSize, Lawful, Nonce, ChunkData, FinalData, Remaining, Processed, Prepend, Cut;
    Turn(x, enc, i, total, data, n, k);
  }

  lemma Unwritten(x: Packet, enc: bool, data: seq<byte>)
    requires Proper(x)
    ensures Outcome(x, enc, [], 0, 0, data) == Remaining(x, enc, 0, 0, data)
  {
    hide Remaining;
    PrependTwice([], [], Remaining(x, enc, 0, 0, data));
  }

  /** One read, cut where the tag of the last chunk might begin. */
  method ReadChunk(enc: bool, reader: Reader, limit: nat)
    returns (chunk: seq<byte>, finalChunk: seq<byte>, ghost n: nat, ghost k: nat)
    modifies reader
    ensures var data := old(reader.Rest());
      && n == Least(limit, |data|) && k == (if enc then n else Cut(n))
      && chunk == data[..k] && finalChunk == data[k..n] && finalChunk + reader.Rest() == data[k..]
  {
    hide Cut, Reader.Rest, Reader.Solid, Reader.Seen, Octets, Takes;
    var bytes := reader.ReadBytes(Some(limit));
    n := |bytes|;
    var cut := if enc then |bytes| else Cut(|bytes|);
    k := cut;
    finalChunk := bytes[cut..];
    chunk := bytes[..cut];
  }

  /** En- or decrypt a stream. */
  method Crypt(x: Packet, enc: bool, reader: Reader) returns (out: Result<seq<byte>>)
    requires Proper(x)
    modifies reader
    ensures out == Remaining(x, enc, 0, 0, old(reader.Rest()))
  {
    hide Lawful, Digits, Field, PlainSize, XorBytes, Remaining, Cut, ChunkData, FinalData, Buffer, Nonce, Prepend;
    hide Processed, Outcome, Reader.Rest, Reader.Solid, Reader.Seen, Marked, Marks, Octets, Takes;
    var tagLengthIfDecrypting := Overhead(enc);
    var chunkSize := PlainSize(x) + tagLengthIfDecrypting;
    var adataBuffer := new byte[21](_ => 0);
    assert adataBuffer[..] == Zeros(21);
    SetAt(adataBuffer, x.head, 0);
    FirstBuffer(x);
    var chunkIndex: nat, cryptedBytes: nat := 0, 0;
    var written: seq<byte> := [];
    ghost var goal := Remaining(x, enc, 0, 0, reader.Rest());
    Unwritten(x, enc, reader.Rest());
    while true
      invariant adataBuffer[..] == Buffer(x, chunkIndex)
      invariant goal == Outcome(x, enc, written, chunkIndex, cryptedBytes, reader.Rest())
      decreases |reader.Rest()|, if chunkIndex == 0 then 1 else 0
    {
      ghost var data := reader.Rest();
      ghost var n, k;
      var chunk, finalChunk;
      chunk, finalChunk, n, k := ReadChunk(enc, reader, chunkSize + tagLengthIfDecrypting);
      var nonce, adata := NonceAndData(x, adataBuffer, chunkIndex);
      if chunkIndex == 0 || |chunk| > 0 {
        ChunkTurn(x, enc, written, chunkIndex, cryptedBytes, data, n, k);
        NextBuffer(x, chunkIndex);
        reader.Unshift(finalChunk);
        var crypted := Apply(x, enc, chunk, nonce, adata);
        if crypted.Err? { return Err(crypted.error); }
        cryptedBytes := cryptedBytes + (|chunk| - tagLengthIfDecrypting);
        chunkIndex := chunkIndex + 1;
        written := written + crypted.value;
        SetInt32(adataBuffer, 9, chunkIndex);
      } else {
        FinalTurn(x, enc, written, chunkIndex, cryptedBytes, data, n, k);
        FinalBuffer(x, chunkIndex, cryptedBytes);
        SetInt32(adataBuffer, 17, cryptedBytes);
        var crypted := Apply(x, enc, finalChunk, nonce, adataBuffer[..]);
        return Prepend(written, crypted);
      }
    }
  }

  /** The nonce of chunk i and its associated data, from the views of the buffer. */
  method NonceAndData(x: Packet, adataBuffer: array<byte>, ghost i: nat) returns (nonce: seq<byte>, adata: seq<byte>)
    requires |x.iv| >= 8 && |x.head| == 5 && adataBuffer[..] == Buffer(x, i)
    ensures nonce == Nonce(x, i) && adata == ChunkData(x, i)
  {
    hide Buffer, ChunkData, Nonce, Field;
    BufferViews(x, i);
    assert adataBuffer[5..13] == adataBuffer[..][5..13] && adataBuffer[..13] == adataBuffer[..][..13];
    nonce := GetNonce(x.iv, adataBuffer[5..13]);
    NonceIs(x, i, nonce);
    adata := adataBuffer[..13];
  }

  method Apply(x: Packet, enc: bool, t: seq<byte>, n: seq<byte>, a: seq<byte>) returns (r: Result<seq<byte>>)
    ensures r == Processed(x, enc, t, n, a)
  {
    r := if enc then Ok(x.mode.encrypt(t, n, a)) else x.mode.decrypt(t, n, a);
  }

  lemma FirstBuffer(x: Packet)
    requires |x.head| == 5
    ensures x.head + Zeros(21)[5..] == Buffer(x, 0)
  {
    ZeroField();
  }

  lemma NonceIs(x: Packet, i: nat, nonce: seq<byte>)
    requires |x.iv| >= 8 && nonce == x.iv[..|x.iv| - 8] + XorBytes(x.iv[|x.iv| - 8..], Field(i))
    ensures nonce == Nonce(x, i)
  {
  }
}
