/** The OCB mode of section 4.2 of RFC 7253 with a tag of 128 bits, and its lazily grown table of masks. */
module Ocb {
  import opened NumberTheory
  import opened Bytes
  import opened Bits
  import opened BlockCiphers
  import opened Results
  import opened Shifts
  import opened Util

  // ---------------------------------------------------------------- trailing zeros

  /** The number of trailing zero bits. */
  function Ntz(n: nat): nat
    requires n > 0
  {
    if n % 2 == 1 then 0 else 1 + Ntz(n / 2)
  }

  lemma {:induction false} NtzBound(n: nat)
    requires n > 0
    ensures Pow(2, Ntz(n)) <= n
  {
    if n % 2 == 0 { NtzBound(n / 2); }
  }

  /** Every block number up to m has its mask among the first nbits(m). */
  lemma NtzInTable(n: nat, m: nat, r: nat)
    requires 0 < n <= m < Pow(2, r)
    ensures Ntz(n) < r
  {
    NtzBound(n);
    if Ntz(n) >= r { PowMonotone(2, r, Ntz(n)); }
  }

  lemma {:induction false} AndPower(n: nat, k: nat)
    ensures Pow(2, k) > 0 && (BitAnd(n, Pow(2, k)) == 0 <==> n / Pow(2, k) % 2 == 0)
  {
    PowPositive(2, k);
    if n == 0 {
      ModSmall(0, Pow(2, k));
      assert 0 / Pow(2, k) == 0 by { DivModUnique(0, Pow(2, k), 0, 0); }
    } else if k == 0 {
      assert Pow(2, 0) == 1;
      AndZero(n / 2);
      assert BitAnd(n, 1) == 2 * BitAnd(n / 2, 0) + (if n % 2 == 1 then 1 else 0);
    } else {
      AndPower(n / 2, k - 1);
      DivDiv(n, 2, Pow(2, k - 1));
    }
  }

  lemma {:induction false} AndZero(a: nat)
    ensures BitAnd(a, 0) == 0
  {
    if a > 0 { AndZero(a / 2); }
  }

  lemma NtzStep(n: nat)
    requires n > 0
    ensures Ntz(n) == if n % 2 == 1 then 0 else 1 + Ntz(n / 2)
    ensures n % 2 == 0 ==> n / 2 > 0
  {
  }

  method CountTrailingZeros(n: nat) returns (ntz: nat)
    requires 0 < n < 0x8000_0000
    ensures ntz == Ntz(n)
  {
    hide BitAnd, Pow, Ntz;
    ntz := 0;
    var i := 1;
    Pow2Values();
    while true
      invariant i == Pow(2, ntz) > 0 && n / i > 0 && Ntz(n) == ntz + Ntz(n / i)
      decreases n / i
    {
      AndPower(n, ntz);
      NtzStep(n / i);
      if BitAnd(n, i) != 0 { break; }
      NextPower(n, ntz);
      i := i * 2;
      ntz := ntz + 1;
    }
  }

  lemma NextPower(n: nat, k: nat)
    ensures Pow(2, k) > 0 && Pow(2, k + 1) == Pow(2, k) * 2 && n / Pow(2, k + 1) == n / Pow(2, k) / 2
  {
    PowPositive(2, k);
    DivDiv(n, Pow(2, k), 2);
  }

  // ---------------------------------------------------------------- key-dependent masks

  ghost function Doublings(b: seq<byte>, k: nat): (r: seq<byte>)
    requires |b| == 16
    ensures |r| == 16
  {
    if k == 0 then b else Doubled(Doublings(b, k - 1))
  }

  lemma FirstDoublings(b: seq<byte>)
    requires |b| == 16
    ensures Doublings(b, 0) == b && Doublings(b, 1) == Doubled(b) && Doublings(b, 2) == Doubled(Doubled(b))
  {
    hide Doubled;
  }

  /** L_* */
  ghost function LStar(c: BlockCipher): (r: seq<byte>)
    requires Permutation(c)
    ensures |r| == 16
  {
    c.encrypt(Zeros(16))
  }

  /** L_$ */
  ghost function LDollar(c: BlockCipher): (r: seq<byte>)
    requires Permutation(c)
    ensures |r| == 16
  {
    Doublings(LStar(c), 1)
  }

  /** L_i */
  ghost function L(c: BlockCipher, i: nat): (r: seq<byte>)
    requires Permutation(c)
    ensures |r| == 16
  {
    Doublings(LStar(c), i + 2)
  }

  // ---------------------------------------------------------------- the mode

  function Block(s: seq<byte>, i: nat): (b: seq<byte>)
    requires 16 * i + 16 <= |s|
    ensures |b| == 16
  {
    s[16 * i..16 * i + 16]
  }

  /** Offset_i, starting from Offset_0. */
  ghost function Offset(c: BlockCipher, o: seq<byte>, i: nat): (r: seq<byte>)
    requires Permutation(c) && |o| == 16
    ensures |r| == 16
  {
    if i == 0 then o else XorBytes(Offset(c, o, i - 1), L(c, Ntz(i)))
  }

  ghost function CryptBlock(c: BlockCipher, enc: bool, off: seq<byte>, b: seq<byte>): (r: seq<byte>)
    requires Permutation(c) && |off| == 16 && |b| == 16
    ensures |r| == 16
  {
    XorBytes(off, if enc then c.encrypt(XorBytes(b, off)) else c.decrypt(XorBytes(b, off)))
  }

  /** The first i blocks in either direction. */
  ghost function Blocks(c: BlockCipher, enc: bool, o: seq<byte>, text: seq<byte>, i: nat): (r: seq<byte>)
    requires Permutation(c) && |o| == 16 && 16 * i <= |text|
    ensures |r| == 16 * i
  {
    if i == 0 then []
    else Blocks(c, enc, o, text, i - 1) + CryptBlock(c, enc, Offset(c, o, i), Block(text, i - 1))
  }

  ghost function Pad(c: BlockCipher, o: seq<byte>, m: nat): (r: seq<byte>)
    requires Permutation(c) && |o| == 16
    ensures |r| == 16
  {
    c.encrypt(XorBytes(Offset(c, o, m), LStar(c)))
  }

  /** Whole blocks, then the rest under the pad. */
  ghost function Output(c: BlockCipher, enc: bool, o: seq<byte>, text: seq<byte>): (r: seq<byte>)
    requires Permutation(c) && |o| == 16
    ensures |r| == |text|
  {
    var m := |text| / 16;
    Blocks(c, enc, o, text, m) + XorBytes(text[16 * m..], Pad(c, o, m))
  }

  function Checksum(p: seq<byte>, i: nat): (r: seq<byte>)
    requires 16 * i <= |p|
    ensures |r| == 16
  {
    if i == 0 then Zeros(16) else XorBytes(Checksum(p, i - 1), Block(p, i - 1))
  }

  /** A partial block, a one bit, and zeros. */
  function Padded(rest: seq<byte>): (r: seq<byte>)
    requires |rest| < 16
    ensures |r| == 16
  {
    rest + [0x80] + Zeros(15 - |rest|)
  }

  ghost function FinalOffset(c: BlockCipher, o: seq<byte>, n: nat): (r: seq<byte>)
    requires Permutation(c) && |o| == 16
    ensures |r| == 16
  {
    var off := Offset(c, o, n / 16);
    if n % 16 == 0 then off else XorBytes(off, LStar(c))
  }

  function FinalChecksum(p: seq<byte>): (r: seq<byte>)
    ensures |r| == 16
  {
    var m := |p| / 16;
    if |p| % 16 == 0 then Checksum(p, m) else XorBytes(Checksum(p, m), Padded(p[16 * m..]))
  }

  ghost function HashSum(c: BlockCipher, a: seq<byte>, i: nat): (r: seq<byte>)
    requires Permutation(c) && 16 * i <= |a|
    ensures |r| == 16
  {
    if i == 0 then Zeros(16)
    else XorBytes(HashSum(c, a, i - 1), c.encrypt(XorBytes(Block(a, i - 1), Offset(c, Zeros(16), i))))
  }

  /** HASH(K, A) */
  ghost function Hashed(c: BlockCipher, a: seq<byte>): (r: seq<byte>)
    requires Permutation(c)
    ensures |r| == 16
  {
    var m := |a| / 16;
    if |a| % 16 == 0 then HashSum(c, a, m)
    else XorBytes(HashSum(c, a, m), c.encrypt(XorBytes(Padded(a[16 * m..]), FinalOffset(c, Zeros(16), |a|))))
  }

  ghost function Tag(c: BlockCipher, o: seq<byte>, p: seq<byte>, a: seq<byte>): (r: seq<byte>)
    requires Permutation(c) && |o| == 16
    ensures |r| == 16
  {
    var x := XorBytes(XorBytes(FinalChecksum(p), FinalOffset(c, o, |p|)), LDollar(c));
    XorBytes(c.encrypt(x), Hashed(c, a))
  }

  /** Tag length modulo 128 in seven bits, zeros, a one bit, and the nonce. */
  function NonceBlock(n: seq<byte>): (r: seq<byte>)
    requires |n| <= 15
    ensures |r| == 16
  {
    Zeros(15 - |n|) + [1] + n
  }

  /** Bits 1 + bottom to 128 + bottom of a string of 192 bits. */
  function Window(stretch: seq<byte>, bottom: nat): (r: seq<byte>)
    requires |stretch| == 24 && bottom < 64
    ensures |r| == 16
  {
    PowPositive(2, 64 - bottom);
    Digits(Value(stretch) / Pow(2, 64 - bottom), 16)
  }

  function Stretched(kTop: seq<byte>): (r: seq<byte>)
    requires |kTop| == 16
    ensures |r| == 24
  {
    kTop + XorBytes(kTop[..8], kTop[1..9])
  }

  /** Offset_0 */
  ghost function InitialOffset(c: BlockCipher, n: seq<byte>): (r: seq<byte>)
    requires Permutation(c) && |n| <= 15
    ensures |r| == 16
  {
    var b := NonceBlock(n);
    var low: nat := b[15];
    Window(Stretched(c.encrypt(b[..15] + [low - low % 64])), low % 64)
  }

  /** OCB-ENCRYPT(K, N, A, P) */
  ghost function Sealed(c: BlockCipher, n: seq<byte>, a: seq<byte>, p: seq<byte>): (r: seq<byte>)
    requires Permutation(c) && |n| <= 15
    ensures |r| == |p| + 16
  {
    var o := InitialOffset(c, n);
    Output(c, true, o, p) + Tag(c, o, p, a)
  }

  /** OCB-DECRYPT(K, N, A, C) */
  ghost function Opened(c: BlockCipher, n: seq<byte>, a: seq<byte>, ct: seq<byte>): Result<seq<byte>>
    requires Permutation(c) && |n| <= 15
  {
    if |ct| < 16 then Err(InvalidCiphertext)
    else
      var o := InitialOffset(c, n);
      var p := Output(c, false, o, ct[..|ct| - 16]);
      if ct[|ct| - 16..] == Tag(c, o, p, a) then Ok(p) else Err(TagMismatch)
  }

  // ---------------------------------------------------------------- one direction undoes the other

  lemma CryptBlockInverse(c: BlockCipher, enc: bool, off: seq<byte>, b: seq<byte>)
    requires Permutation(c) && |off| == 16 && |b| == 16
    ensures CryptBlock(c, !enc, off, CryptBlock(c, enc, off, b)) == b
  {
    hide XorBytes, Xor;
    var x := XorBytes(b, off);
    var y := if enc then c.encrypt(x) else c.decrypt(x);
    XorBytesComm(off, y);
    XorBytesCancel(y, off);
    XorBytesComm(off, x);
    XorBytesCancel(b, off);
  }

  lemma {:induction false} BlocksInverse(c: BlockCipher, enc: bool, o: seq<byte>, s: seq<byte>, t: seq<byte>, i: nat)
    requires Permutation(c) && |o| == 16 && 16 * i <= |t| && 16 * i <= |s|
    requires s[..16 * i] == Blocks(c, enc, o, t, i)
    ensures Blocks(c, !enc, o, s, i) == t[..16 * i]
  {
    hide Permutation, CryptBlock, Offset;
    if i > 0 {
      var off, b := Offset(c, o, i), Block(t, i - 1);
      var init, last := Blocks(c, enc, o, t, i - 1), CryptBlock(c, enc, off, b);
      Front(s, i - 1, init, last);
      BlocksInverse(c, enc, o, s, t, i - 1);
      CryptBlockInverse(c, enc, off, b);
      Front(t, i - 1, t[..16 * (i - 1)], b);
    }
  }

  lemma Front(s: seq<byte>, i: nat, init: seq<byte>, last: seq<byte>)
    requires 16 * i + 16 <= |s| && |init| == 16 * i && |last| == 16
    ensures s[..16 * (i + 1)] == init + last <==> s[..16 * i] == init && Block(s, i) == last
  {
    assert s[..16 * (i + 1)] == s[..16 * i] + Block(s, i);
    assert (init + last)[..16 * i] == init && (init + last)[16 * i..] == last;
  }

  /** Offsets depend on neither direction nor data, so the directions undo each other, partial last block included. */
  lemma OutputInverse(c: BlockCipher, enc: bool, o: seq<byte>, t: seq<byte>)
    requires Permutation(c) && |o| == 16
    ensures Output(c, !enc, o, Output(c, enc, o, t)) == t
  {
    hide Permutation, Offset, Xor, XorBytes, Blocks, Pad;
    var m, s := |t| / 16, Output(c, enc, o, t);
    var pad := Pad(c, o, m);
    assert s[..16 * m] == Blocks(c, enc, o, t, m) && s[16 * m..] == XorBytes(t[16 * m..], pad);
    BlocksInverse(c, enc, o, s, t, m);
    XorBytesCancel(t[16 * m..], pad);
    assert t == t[..16 * m] + t[16 * m..];
  }

  /** A string opens to P exactly when it is P sealed. */
  lemma OpensIffSealed(c: BlockCipher, n: seq<byte>, a: seq<byte>, ct: seq<byte>, p: seq<byte>)
    requires Permutation(c) && |n| <= 15
    ensures Opened(c, n, a, ct) == Ok(p) <==> ct == Sealed(c, n, a, p)
  {
    hide Permutation, Output, Tag, InitialOffset;
    var o := InitialOffset(c, n);
    if |ct| >= 16 {
      var text, tag := ct[..|ct| - 16], ct[|ct| - 16..];
      assert ct == text + tag;
      OutputInverse(c, false, o, text);
      OutputInverse(c, true, o, p);
      var s := Sealed(c, n, a, p);
      assert s[..|p|] == Output(c, true, o, p) && s[|p|..] == Tag(c, o, p, a);
    }
  }

  lemma RoundTrip(c: BlockCipher, n: seq<byte>, a: seq<byte>, p: seq<byte>)
    requires Permutation(c) && |n| <= 15
    ensures Opened(c, n, a, Sealed(c, n, a, p)) == Ok(p)
  {
    hide Permutation, Opened, Sealed;
    OpensIffSealed(c, n, a, Sealed(c, n, a, p), p);
  }

  // ---------------------------------------------------------------- stretch and shift

  lemma ModDiv(y: int, p: int, r: int)
    requires p > 0 && r > 0
    ensures p * r > 0 && y % (p * r) / p == y / p % r
  {
    MulAtLeast(p, r);
    var z := y / p;
    var t, u := z % r, y % p;
    assert y == p * z + u && z == r * (z / r) + t;
    assert p * z == (p * r) * (z / r) + p * t by { assert p * (r * (z / r)) == (p * r) * (z / r); }
    MulBetween(p, t, r);
    DivModUnique(y, p * r, z / r, p * t + u);
    DivModUnique(p * t + u, p, t, u);
  }

  lemma {:induction false} DigitsTail(x: nat, k: nat)
    ensures Digits(x, k + 1)[1..] == Digits(x, k)
  {
    if k > 0 {
      DigitsTail(x / 256, k - 1);
      var d := Digits(x / 256, k);
      assert (d + [x % 256])[1..] == d[1..] + [x % 256];
    }
  }

  /** The number in seventeen octets from place bottom / 8 on, without the bits behind the window. */
  lemma WindowValue(s: seq<byte>, bottom: nat)
    requires |s| == 24 && bottom < 64
    ensures var k, j := bottom / 8, 8 - bottom % 8;
      && Pow(2, j) > 0 && Pow(2, 64 - bottom) > 0 && Pow(2, 136 - j) > 0
      && Value(s[k..k + 17]) / Pow(2, j) == Value(s) / Pow(2, 64 - bottom) % Pow(2, 136 - j)
  {
    hide Value, Pow;
    var k, j := bottom / 8, 8 - bottom % 8;
    var v, d, m := Value(s), Pow(256, 7 - k), Pow(256, 17);
    var p, r := Pow(2, j), Pow(2, 136 - j);
    ValueSlices(s, k);
    ValueSlices(s[k..], 17);
    assert s[k..][..17] == s[k..k + 17];
    PowPositive(256, 17);
    PowPositive(2, j);
    PowPositive(2, 136 - j);
    PowAdd(256, 7 - k, 17);
    ModDiv(v, d, m);
    Pow256(17);
    PowAdd(2, j, 136 - j);
    ModDiv(v / d, p, r);
    Pow256(7 - k);
    PowAdd(2, 8 * (7 - k), j);
    DivDiv(v, d, p);
    assert 8 * (7 - k) + j == 64 - bottom;
  }

  /** Sixteen of seventeen octets do not depend on the bits above them. */
  lemma LowSixteen(z: nat, e: nat)
    requires e >= 128
    ensures Pow(2, e) > 0 && Digits(z % Pow(2, e), 17)[1..] == Digits(z, 16)
  {
    hide Pow, Digits;
    var r, l := Pow(2, e), Pow(256, 16);
    PowPositive(2, e);
    PowPositive(256, 16);
    PowPositive(2, e - 128);
    Pow256(16);
    PowAdd(2, 128, e - 128);
    CongMod(z, r);
    CongFactor(z % r, z, l, Pow(2, e - 128));
    DigitsTail(z % r, 16);
    DigitsMod(z % r, 16);
    DigitsMod(z, 16);
  }

  /**
   Seventeen octets from the right place, shifted right by one to eight bits and without their first octet, are
   the window.
   */
  lemma WindowByShifting(s: seq<byte>, bottom: nat)
    requires |s| == 24 && bottom < 64
    ensures var k, j := bottom / 8, 8 - bottom % 8;
      && Pow(2, j) > 0
      && Digits(Value(s[k..k + 17]) / Pow(2, j), 17)[1..] == Window(s, bottom)
  {
    hide Value, Pow, Digits;
    WindowValue(s, bottom);
    LowSixteen(Value(s) / Pow(2, 64 - bottom), 136 - (8 - bottom % 8));
  }

  // ---------------------------------------------------------------- the code

  lemma XorLonger(s: seq<byte>, t: seq<byte>)
    requires |s| <= |t|
    ensures XorBytes(s, t) == XorBytes(s, t[..|s|])
  {
    hide Xor;
  }

  /** The first i blocks do not change when later ones are added. */
  lemma {:induction false} OutputBlocks(c: BlockCipher, enc: bool, o: seq<byte>, text: seq<byte>, i: nat, k: nat)
    requires Permutation(c) && |o| == 16 && k < i && 16 * i <= |text|
    ensures Block(Blocks(c, enc, o, text, i), k) == CryptBlock(c, enc, Offset(c, o, k + 1), Block(text, k))
  {
    hide Permutation, CryptBlock, Offset, Block;
    var y := CryptBlock(c, enc, Offset(c, o, i), Block(text, i - 1));
    BlockOfAppend(Blocks(c, enc, o, text, i - 1), y, k);
    if k < i - 1 { OutputBlocks(c, enc, o, text, i - 1, k); }
  }

  lemma BlockOfAppend(s: seq<byte>, y: seq<byte>, k: nat)
    requires |y| == 16 && |s| % 16 == 0 && 16 * k <= |s|
    ensures Block(s + y, k) == if 16 * k < |s| then Block(s, k) else y
  {
  }

  /** What the loop of crypt computes for one block. */
  lemma BlockStep(c: BlockCipher, enc: bool, off: seq<byte>, text: seq<byte>)
    requires Permutation(c) && |off| == 16 && |text| >= 16
    ensures var x := XorBytes(off, text);
      CryptBlock(c, enc, off, text[..16]) == XorBytes(if enc then c.encrypt(x) else c.decrypt(x), off)
  {
    hide XorBytes, Xor;
    var x := XorBytes(off, text);
    XorLonger(off, text);
    XorBytesComm(off, text[..16]);
    XorBytesComm(off, if enc then c.encrypt(x) else c.decrypt(x));
  }

  lemma CipherText(c: BlockCipher, enc: bool, b: seq<byte>)
    requires Permutation(c) && |b| == 16
    ensures |if enc then c.encrypt(b) else c.decrypt(b)| == 16
  {
  }

  lemma Bases(c: BlockCipher, enc: bool, o: seq<byte>, text: seq<byte>)
    requires Permutation(c) && |o| == 16
    ensures Offset(c, o, 0) == o && Blocks(c, enc, o, text, 0) == []
    ensures Checksum(text, 0) == Zeros(16) && HashSum(c, text, 0) == Zeros(16)
  {
  }

  lemma TableSize(x: nat, y: nat)
    ensures x / 16 <= (if x < y then y else x) / 16 && y / 16 <= (if x < y then y else x) / 16
  {
  }

  /** What one more block adds to the offsets and to the output. */
  lemma NextBlock(c: BlockCipher, enc: bool, o: seq<byte>, text: seq<byte>, i: nat)
    requires Permutation(c) && |o| == 16 && 16 * i + 16 <= |text|
    ensures Offset(c, o, i + 1) == XorBytes(Offset(c, o, i), L(c, Ntz(i + 1)))
    ensures Blocks(c, enc, o, text, i + 1)
         == Blocks(c, enc, o, text, i) + CryptBlock(c, enc, Offset(c, o, i + 1), Block(text, i))
  {
    hide Permutation, CryptBlock, Block, XorBytes, L, Ntz;
  }

  lemma BlockAhead(s: seq<byte>, rest: seq<byte>, i: nat)
    requires 16 * i + 16 <= |s| && rest == s[16 * i..]
    ensures rest[..16] == Block(s, i)
  {
  }

  lemma BehindStore(s: seq<byte>, front: seq<byte>, y: seq<byte>, back: seq<byte>)
    requires s == front + y + back
    ensures s[..|front| + |y|] == front + y && s[|front|..|front| + |y|] == y
  {
  }

  /** The mode under a fixed key. The table of masks is filled as longer data arrives, and never shrinks. */
  class OCB {
    const cipher: BlockCipher
    const maskX: seq<byte>
    const maskD: seq<byte>
    var mask: seq<seq<byte>>
    var maxNtz: nat

    ghost predicate Valid()
      reads this
    {
      && Permutation(cipher)
      && maskX == LStar(cipher) && maskD == LDollar(cipher)
      && maxNtz < |mask|
      && forall i :: 0 <= i < |mask| ==> mask[i] == L(cipher, i)
    }

    /** The table reaches the masks of the first m blocks. */
    ghost predicate Covers(m: nat)
      reads this
    {
      m < Pow(2, maxNtz + 1)
    }

    constructor (cipher: BlockCipher)
      requires Permutation(cipher)
      ensures Valid() && this.cipher == cipher
    {
      hide Permutation, Doubled, Doublings, Zeros;
      CipherLength(cipher, Zeros(16));
      var x := cipher.encrypt(Zeros(16));
      var d := Double(x);
      var l := Double(d);
      this.cipher, maskX, maskD := cipher, x, d;
      mask, maxNtz := [l], 0;
      FirstDoublings(x);
    }

    method ExtendKeyVariables(text: seq<byte>, adata: seq<byte>)
      requires Valid() && |text| < 0x8_0000_0000 && |adata| < 0x8_0000_0000
      modifies this
      ensures Valid() && Covers(|text| / 16) && Covers(|adata| / 16)
      ensures |mask| >= |old(mask)|
    {
      hide Doublings, Pow, Permutation, L, LStar, LDollar, Doubled;
      var length := if |text| < |adata| then |adata| else |text|;
      var bits := Nbits(length / 16);
      TableSize(|text|, |adata|);
      PowPositive(2, bits);
      var newMaxNtz := bits - 1;
      var i := maxNtz + 1;
      while i <= newMaxNtz
        invariant Valid() && i > maxNtz && i <= |mask| && |mask| >= |old(mask)|
        invariant i > newMaxNtz ==> newMaxNtz < |mask|
        decreases newMaxNtz - i
      {
        var next := Double(mask[i - 1]);
        DoublingsStep(cipher, i);
        mask := if i < |mask| then mask[i := next] else mask + [next];
        i := i + 1;
      }
      maxNtz := newMaxNtz;
    }

    /** The mask of block number n. */
    method MaskOf(n: nat, ghost m: nat) returns (l: seq<byte>)
      requires Valid() && 0 < n <= m && n < 0x8000_0000 && Covers(m)
      ensures l == L(cipher, Ntz(n))
    {
      NtzInTable(n, m, maxNtz + 1);
      var ntz := CountTrailingZeros(n);
      l := mask[ntz];
    }

    /** One block of associated data. */
    method HashNext(ghost adata: seq<byte>, rest: seq<byte>, i: nat, offset: array<byte>, sum: array<byte>)
      requires Valid() && |adata| < 0x8_0000_0000 && Covers(|adata| / 16)
      requires 16 * i + 16 <= |adata| && rest == adata[16 * i..] && offset != sum
      requires offset[..] == Offset(cipher, Zeros(16), i) && sum[..] == HashSum(cipher, adata, i)
      modifies offset, sum
      ensures offset[..] == Offset(cipher, Zeros(16), i + 1) && sum[..] == HashSum(cipher, adata, i + 1)
    {
      hide Permutation, L, LStar, LDollar, Doublings, Pow, XorBytes, Xor;
      var l := MaskOf(i + 1, |adata| / 16);
      XorMut(offset, l);
      var x := XorBytes(offset[..], rest);
      XorLonger(offset[..], rest);
      assert rest[..16] == Block(adata, i);
      XorBytesComm(offset[..], rest[..16]);
      CipherLength(cipher, x);
      XorMut(sum, cipher.encrypt(x));
    }

    /** The final partial block of associated data. */
    method HashRest(ghost adata: seq<byte>, rest: seq<byte>, offset: array<byte>, sum: array<byte>)
      requires Valid() && offset != sum
      requires rest == adata[16 * (|adata| / 16)..] && |rest| > 0
      requires offset[..] == Offset(cipher, Zeros(16), |adata| / 16) && sum[..] == HashSum(cipher, adata, |adata| / 16)
      modifies offset, sum
      ensures sum[..] == Hashed(cipher, adata)
    {
      hide Permutation, Offset, HashSum, LStar, LDollar, L, XorBytes, Xor, Padded;
      XorMut(offset, maskX);
      var cipherInput := new byte[16](_ => 0);
      FillPadded(cipherInput, rest);
      XorMut(cipherInput, offset[..]);
      CipherLength(cipher, cipherInput[..]);
      XorMut(sum, cipher.encrypt(cipherInput[..]));
    }

    method Hash(adata: seq<byte>) returns (r: seq<byte>)
      requires Valid() && |adata| < 0x8_0000_0000 && Covers(|adata| / 16)
      ensures r == Hashed(cipher, adata)
    {
      hide Permutation, Offset, HashSum, L, LStar, LDollar, Pow, XorBytes, Xor, FinalOffset, Padded, Block;
      var m := |adata| / 16;
      Bases(cipher, true, Zeros(16), adata);
      if |adata| == 0 { return Zeros(16); }
      var offset := new byte[16](_ => 0);
      var sum := new byte[16](_ => 0);
      assert offset[..] == Zeros(16) && sum[..] == Zeros(16);
      var rest := adata;
      var i := 0;
      while i < m
        invariant 0 <= i <= m && rest == adata[16 * i..]
        invariant offset[..] == Offset(cipher, Zeros(16), i) && sum[..] == HashSum(cipher, adata, i)
      {
        HashNext(adata, rest, i, offset, sum);
        rest := rest[16..];
        i := i + 1;
      }
      if |rest| > 0 { HashRest(adata, rest, offset, sum); }
      r := sum[..];
    }

    method FirstOffset(nonce: seq<byte>) returns (offset: array<byte>)
      requires Valid() && |nonce| <= 15
      ensures fresh(offset) && offset[..] == InitialOffset(cipher, nonce)
    {
      hide Permutation, Value, Digits, Pow, XorBytes, Window;
      var paddedNonce := Zeros(16)[..15 - |nonce|] + [1] + nonce;
      assert paddedNonce == NonceBlock(nonce);
      var low: nat := paddedNonce[15];
      var bottom := low % 64;
      paddedNonce := paddedNonce[15 := low - bottom];
      assert paddedNonce == NonceBlock(nonce)[..15] + [low - bottom];
      CipherLength(cipher, paddedNonce);
      var kTop := cipher.encrypt(paddedNonce);
      var stretched := kTop + XorBytes(kTop[..8], kTop[1..9]);
      var window := stretched[bottom / 8..17 + bottom / 8];
      var shifted := new byte[17](i requires 0 <= i < 17 => window[i]);
      assert shifted[..] == window;
      WindowByShifting(stretched, bottom);
      ShiftRight(shifted, 8 - bottom % 8);
      var sub := shifted[1..];
      assert sub == shifted[..][1..];
      offset := new byte[16](i requires 0 <= i < 16 => sub[i]);
      assert offset[..] == sub;
    }

    /** What the whole blocks before number i have made of the buffers. */
    ghost predicate Processed(enc: bool, o: seq<byte>, text: seq<byte>, i: nat, offset: array<byte>,
                              checksum: array<byte>, ct: array<byte>)
      requires Permutation(cipher) && |o| == 16 && 16 * i <= |text|
      reads offset, checksum, ct
    {
      && offset != checksum && offset != ct && checksum != ct && ct.Length == |text| + 16
      && offset[..] == Offset(cipher, o, i)
      && ct[..16 * i] == Blocks(cipher, enc, o, text, i)
      && checksum[..] == Checksum(Plain(enc, o, text), i)
    }

    ghost function Plain(enc: bool, o: seq<byte>, text: seq<byte>): (p: seq<byte>)
      requires Permutation(cipher) && |o| == 16
      ensures |p| == |text|
    {
      if enc then text else Output(cipher, enc, o, text)
    }

    lemma NextChecksum(enc: bool, o: seq<byte>, text: seq<byte>, i: nat)
      requires Permutation(cipher) && |o| == 16 && 16 * i + 16 <= |text|
      ensures var p := Plain(enc, o, text);
        Checksum(p, i + 1) == XorBytes(Checksum(p, i), Block(p, i))
    {
      hide Permutation, Output, XorBytes;
    }

    /** The plaintext block is the block of text, or what it is decrypted to. */
    lemma PlainIs(enc: bool, o: seq<byte>, text: seq<byte>, i: nat)
      requires Permutation(cipher) && |o| == 16 && 16 * i + 16 <= |text|
      ensures Block(Plain(enc, o, text), i)
           == if enc then Block(text, i) else CryptBlock(cipher, enc, Offset(cipher, o, i + 1), Block(text, i))
    {
      hide Permutation, Output, CryptBlock, Offset, Block;
      PlainBlock(cipher, enc, o, text, i);
    }

    /** One block of text. */
    method CryptNext(enc: bool, ghost o: seq<byte>, ghost text: seq<byte>, rest: seq<byte>, i: nat,
        offset: array<byte>, checksum: array<byte>, ct: array<byte>)
      requires Valid() && |text| < 0x8_0000_0000 && Covers(|text| / 16) && |o| == 16
      requires 16 * i + 16 <= |text| && rest == text[16 * i..] && Processed(enc, o, text, i, offset, checksum, ct)
      modifies offset, checksum, ct
      ensures Processed(enc, o, text, i + 1, offset, checksum, ct)
    {
      hide Permutation, Output, L, LStar, LDollar, Doublings, Pow, XorBytes, Xor, CryptBlock;
      hide Offset, Blocks, Checksum, Block, OCB.Plain;
      NextBlock(cipher, enc, o, text, i);
      NextChecksum(enc, o, text, i);
      var pos := 16 * i;
      var l := MaskOf(i + 1, |text| / 16);
      XorMut(offset, l);
      var x := XorBytes(offset[..], rest);
      BlockStep(cipher, enc, offset[..], rest);
      CipherText(cipher, enc, x);
      var y := XorBytes(if enc then cipher.encrypt(x) else cipher.decrypt(x), offset[..]);
      BlockAhead(text, rest, i);
      PlainIs(enc, o, text, i);
      ghost var front, back := ct[..pos], ct[pos + 16..];
      SetAt(ct, y, pos);
      BehindStore(ct[..], front, y, back);
      assert ct[pos..pos + 16] == ct[..][pos..pos + 16] && ct[..pos + 16] == ct[..][..pos + 16];
      var plain := if enc then rest else ct[pos..];
      assert plain[..16] == if enc then rest[..16] else ct[pos..pos + 16];
      XorLonger(checksum[..], plain);
      XorMut(checksum, plain);
    }

    /** The final partial block. */
    method CryptRest(enc: bool, ghost o: seq<byte>, ghost text: seq<byte>, rest: seq<byte>, pos: nat,
        offset: array<byte>, checksum: array<byte>, ct: array<byte>)
      requires Valid() && |o| == 16
      requires pos == 16 * (|text| / 16) && rest == text[pos..] && |rest| > 0
      requires Processed(enc, o, text, |text| / 16, offset, checksum, ct)
      modifies offset, checksum, ct
      ensures offset[..] == FinalOffset(cipher, o, |text|) && checksum[..] == FinalChecksum(Plain(enc, o, text))
      ensures ct.Length == |text| + 16 && ct[..|text|] == Output(cipher, enc, o, text)
    {
      hide Permutation, Blocks, Offset, Checksum, LStar, LDollar, XorBytes, Xor, Padded;
      XorMut(offset, maskX);
      CipherLength(cipher, offset[..]);
      var padding := cipher.encrypt(offset[..]);
      var y := XorBytes(rest, padding);
      SetAt(ct, y, pos);
      assert ct[..|text|] == ct[..pos] + y;
      assert ct[pos..ct.Length - 16] == y;
      var xorInput := new byte[16](_ => 0);
      FillPadded(xorInput, if enc then rest else ct[pos..ct.Length - 16]);
      XorMut(checksum, xorInput[..]);
    }

    lemma NoRest(enc: bool, o: seq<byte>, text: seq<byte>)
      requires Permutation(cipher) && |o| == 16 && |text| % 16 == 0
      ensures Output(cipher, enc, o, text) == Blocks(cipher, enc, o, text, |text| / 16)
    {
      hide Permutation, Blocks, Pad;
      var m := |text| / 16;
      assert text[16 * m..] == [];
    }

    /** One direction of the cipher over a text, with the tag of the plaintext appended in both cases. */
    method Crypt(enc: bool, text: seq<byte>, nonce: seq<byte>, adata: seq<byte>) returns (ct: array<byte>)
      requires Valid() && |nonce| <= 15 && |text| < 0x8_0000_0000 && |adata| < 0x8_0000_0000
      modifies this
      ensures Valid() && fresh(ct)
      ensures var o := InitialOffset(cipher, nonce);
        ct[..] == Output(cipher, enc, o, text) + Tag(cipher, o, Plain(enc, o, text), adata)
    {
      hide Permutation, Offset, Checksum, Blocks, LStar, LDollar, L, Pow, XorBytes, Xor;
      hide InitialOffset, Hashed, Doublings, Tag, Pad;
      var m := |text| / 16;
      ExtendKeyVariables(text, adata);
      ghost var o := InitialOffset(cipher, nonce);
      ghost var p := Plain(enc, o, text);
      var offset := FirstOffset(nonce);
      var checksum := new byte[16](_ => 0);
      assert checksum[..] == Zeros(16);
      ct := new byte[|text| + 16](_ => 0);
      Bases(cipher, enc, o, text);
      Bases(cipher, enc, o, p);
      var rest := text;
      var i := 0;
      while i < m
        invariant 0 <= i <= m && rest == text[16 * i..]
        invariant Valid() && Covers(m) && Covers(|adata| / 16)
        invariant fresh(offset) && fresh(checksum) && fresh(ct)
        invariant Processed(enc, o, text, i, offset, checksum, ct)
      {
        CryptNext(enc, o, text, rest, i, offset, checksum, ct);
        rest := rest[16..];
        i := i + 1;
      }
      if |rest| > 0 {
        CryptRest(enc, o, text, rest, 16 * m, offset, checksum, ct);
      } else {
        NoRest(enc, o, text);
      }
      Finish(text, nonce, adata, p, offset, checksum, ct);
    }

    /** Append the tag. */
    method Finish(ghost text: seq<byte>, ghost nonce: seq<byte>, adata: seq<byte>, ghost p: seq<byte>,
        offset: array<byte>, checksum: array<byte>, ct: array<byte>)
      requires Valid() && |nonce| <= 15 && |adata| < 0x8_0000_0000 && Covers(|adata| / 16) && |p| == |text|
      requires offset != checksum && offset != ct && checksum != ct && ct.Length == |text| + 16
      requires offset[..] == FinalOffset(cipher, InitialOffset(cipher, nonce), |text|)
      requires checksum[..] == FinalChecksum(p)
      modifies checksum, ct
      ensures ct[..] == old(ct[..|text|]) + Tag(cipher, InitialOffset(cipher, nonce), p, adata)
    {
      hide Permutation, FinalOffset, FinalChecksum, LStar, LDollar, L, Pow, XorBytes, Xor, InitialOffset, Hashed;
      XorMut(checksum, offset[..]);
      XorMut(checksum, maskD);
      CipherLength(cipher, checksum[..]);
      var hash := Hash(adata);
      var tag := XorBytes(cipher.encrypt(checksum[..]), hash);
      SetAt(ct, tag, ct.Length - 16);
    }

    method Encrypt(plaintext: seq<byte>, nonce: seq<byte>, adata: seq<byte>) returns (ct: seq<byte>)
      requires Valid() && |nonce| <= 15 && |plaintext| < 0x8_0000_0000 && |adata| < 0x8_0000_0000
      modifies this
      ensures Valid() && ct == Sealed(cipher, nonce, adata, plaintext)
    {
      hide Permutation, Output, Tag, InitialOffset;
      var a := Crypt(true, plaintext, nonce, adata);
      ct := a[..];
    }

    method Decrypt(ciphertext: seq<byte>, nonce: seq<byte>, adata: seq<byte>) returns (r: Result<seq<byte>>)
      requires Valid() && |nonce| <= 15 && |ciphertext| < 0x8_0000_0000 && |adata| < 0x8_0000_0000
      modifies this
      ensures Valid() && r == Opened(cipher, nonce, adata, ciphertext)
    {
      hide Permutation, Output, Tag, InitialOffset;
      if |ciphertext| < 16 { return Err(InvalidCiphertext); }
      var tag := ciphertext[|ciphertext| - 16..];
      var text := ciphertext[..|ciphertext| - 16];
      var crypted := Crypt(false, text, nonce, adata);
      var end := crypted.Length - 16;
      assert crypted[..] == crypted[..end] + crypted[end..];
      if tag == crypted[end..] { return Ok(crypted[..end]); }
      return Err(TagMismatch);
    }
  }

  lemma DoublingsStep(c: BlockCipher, i: nat)
    requires Permutation(c) && i > 0
    ensures Doubled(L(c, i - 1)) == L(c, i)
  {
  }

  /** Block i of the plaintext, in either direction. */
  lemma PlainBlock(c: BlockCipher, enc: bool, o: seq<byte>, text: seq<byte>, i: nat)
    requires Permutation(c) && |o| == 16 && 16 * i + 16 <= |text|
    ensures var out := Output(c, enc, o, text);
      Block(out, i) == CryptBlock(c, enc, Offset(c, o, i + 1), Block(text, i))
  {
    hide Permutation, Offset, CryptBlock, Blocks, Pad, XorBytes;
    var m := |text| / 16;
    OutputBlocks(c, enc, o, text, m, i);
    assert Block(Output(c, enc, o, text), i) == Block(Blocks(c, enc, o, text, m), i);
  }

  method FillPadded(a: array<byte>, rest: seq<byte>)
    requires a.Length == 16 && |rest| < 16 && a[..] == Zeros(16)
    modifies a
    ensures a[..] == Padded(rest)
  {
    SetAt(a, rest, 0);
    a[|rest|] := 0x80;
    assert a[..] == Padded(rest);
  }
}
