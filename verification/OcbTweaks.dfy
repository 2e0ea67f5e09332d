/** OCB in closed form, by tweaks of the cipher instead of running offsets, and what its tag depends on. */
module OcbTweaks {
  import opened NumberTheory
  import opened Bytes
  import opened Bits
  import opened BlockCiphers
  import opened Results
  import Shifts
  import opened Ocb

  // ---------------------------------------------------------------- multiples in the field

  /** The bits of the number i, each exclusive-ored with the next higher one: its Gray code. */
  function Gray(i: nat): nat { Xor(i, i / 2) }

  /** The Gray codes of neighbours differ in one bit, at the place of the last bit set. */
  lemma {:induction false} GrayStep(i: nat)
    requires i > 0
    ensures Pow(2, Ntz(i)) > 0 && Gray(i) == Xor(Gray(i - 1), Pow(2, Ntz(i)))
  {
    hide Xor, Gray;
    PowPositive(2, Ntz(i));
    if i % 2 == 1 {
      GrayOdd(i / 2);
      assert Pow(2, 0) == 1;
    } else {
      GrayStep(i / 2);
      NtzStep(i);
      PowPositive(2, Ntz(i / 2));
      GrayEven(i / 2, Pow(2, Ntz(i / 2)));
      assert Pow(2, Ntz(i)) == 2 * Pow(2, Ntz(i / 2));
    }
  }

  lemma GrayOdd(m: nat)
    ensures Gray(2 * m + 1) == Xor(Gray(2 * m), 1)
  {
    hide Xor, Gray;
    GrayHalf(2 * m + 1);
    GrayHalf(2 * m);
    assert (2 * m + 1) / 2 == m && 2 * m / 2 == m;
    XorTwice(Gray(m), GrayBit(2 * m), 0, 1);
    XorZero(Gray(m));
  }

  lemma GrayEven(m: nat, p: nat)
    requires m > 0 && Gray(m) == Xor(Gray(m - 1), p)
    ensures Gray(2 * m) == Xor(Gray(2 * m - 1), 2 * p)
  {
    hide Xor, Gray;
    GrayHalf(2 * m);
    GrayHalf(2 * m - 1);
    assert (2 * m - 1) / 2 == m - 1 && 2 * m / 2 == m;
    XorTwice(Gray(m - 1), GrayBit(2 * m - 1), p, 0);
  }

  lemma GrayZero()
    ensures Gray(0) == 0
  {
  }

  function GrayBit(i: nat): nat { if i % 2 != i / 2 % 2 then 1 else 0 }

  lemma GrayHalf(i: nat)
    ensures Gray(i) == 2 * Gray(i / 2) + GrayBit(i)
  {
    XorHalf(i, i / 2);
  }

  /** x times b, for a polynomial x with the bits of a number: b doubled as often as each bit asks, summed up. */
  ghost function Times(x: nat, b: seq<byte>): (r: seq<byte>)
    requires |b| == 16
    ensures |r| == 16
    decreases x
  {
    if x == 0 then Zeros(16)
    else
      var rest := Times(x / 2, Shifts.Doubled(b));
      if x % 2 == 1 then XorBytes(rest, b) else rest
  }

  lemma XorZeros(s: seq<byte>)
    ensures XorBytes(s, Zeros(|s|)) == s && XorBytes(Zeros(|s|), s) == s
  {
    hide Xor;
    forall i | 0 <= i < |s|
      ensures XorBytes(s, Zeros(|s|))[i] == s[i] && XorBytes(Zeros(|s|), s)[i] == s[i]
    {
      XorZero(s[i]);
    }
  }

  lemma XorBytesAssoc(a: seq<byte>, b: seq<byte>, c: seq<byte>)
    requires |a| == |b| == |c|
    ensures XorBytes(XorBytes(a, b), c) == XorBytes(a, XorBytes(b, c))
  {
    hide Xor;
    forall i | 0 <= i < |a|
      ensures XorBytes(XorBytes(a, b), c)[i] == XorBytes(a, XorBytes(b, c))[i]
    {
      XorAssoc(a[i], b[i], c[i]);
    }
  }

  lemma XorBytesSwap(a: seq<byte>, b: seq<byte>, c: seq<byte>, d: seq<byte>)
    requires |a| == |b| == |c| == |d|
    ensures XorBytes(XorBytes(a, b), XorBytes(c, d)) == XorBytes(XorBytes(a, c), XorBytes(b, d))
  {
    hide Xor;
    forall i | 0 <= i < |a|
      ensures XorBytes(XorBytes(a, b), XorBytes(c, d))[i] == XorBytes(XorBytes(a, c), XorBytes(b, d))[i]
    {
      XorSwap(a[i], b[i], c[i], d[i]);
    }
  }

  lemma XorBytesSelf(a: seq<byte>)
    ensures XorBytes(a, a) == Zeros(|a|)
  {
    hide Xor;
    forall i | 0 <= i < |a| ensures XorBytes(a, a)[i] == 0 { XorSelf(a[i]); }
  }

  /** A sum of polynomials multiplies to the sum of the products. */
  lemma {:induction false} TimesXor(x: nat, y: nat, b: seq<byte>)
    requires |b| == 16
    ensures Times(Xor(x, y), b) == XorBytes(Times(x, b), Times(y, b))
    decreases x + y
  {
    hide Xor, XorBytes;
    XorZeros(Zeros(16));
    if x == 0 && y == 0 {
      XorZero(0);
    } else {
      TimesXor(x / 2, y / 2, Shifts.Doubled(b));
      XorHalf(x, y);
      TimesHalf(x, b);
      TimesHalf(y, b);
      TimesHalf(Xor(x, y), b);
      var c := Shifts.Doubled(b);
      var z := Zeros(16);
      XorBytesSwap(Times(x / 2, c), if x % 2 == 1 then b else z, Times(y / 2, c), if y % 2 == 1 then b else z);
      XorBytesSelf(b);
      XorZeros(b);
    }
  }

  lemma TimesHalf(x: nat, b: seq<byte>)
    requires |b| == 16
    ensures Times(x, b) == XorBytes(Times(x / 2, Shifts.Doubled(b)), if x % 2 == 1 then b else Zeros(16))
  {
    hide XorBytes;
    XorZeros(Times(x / 2, Shifts.Doubled(b)));
  }

  lemma {:induction false} TimesPower(k: nat, b: seq<byte>)
    requires |b| == 16
    ensures Pow(2, k) > 0 && Times(Pow(2, k), b) == Doublings(b, k)
    decreases k
  {
    hide XorBytes, Shifts.Doubled;
    PowPositive(2, k);
    if k == 0 {
      assert Pow(2, 0) == 1 && Times(0, Shifts.Doubled(b)) == Zeros(16);
      XorZeros(b);
    } else {
      TimesPower(k - 1, Shifts.Doubled(b));
      DivModUnique(Pow(2, k), 2, Pow(2, k - 1), 0);
      DoublingsFront(b, k - 1);
    }
  }

  lemma {:induction false} DoublingsFront(b: seq<byte>, k: nat)
    requires |b| == 16
    ensures Doublings(Shifts.Doubled(b), k) == Doublings(b, k + 1)
    decreases k
  {
    hide Shifts.Doubled;
    if k > 0 { DoublingsFront(b, k - 1); } else { assert Doublings(b, 0) == b; }
  }

  /** The running offset in closed form: the i-th one adds four times the Gray code of i, times L_*. */
  lemma {:induction false} OffsetIsGray(c: BlockCipher, o: seq<byte>, i: nat)
    requires Permutation(c) && |o| == 16
    ensures Offset(c, o, i) == XorBytes(o, Times(4 * Gray(i), LStar(c)))
    decreases i
  {
    hide Permutation, LStar, Xor, XorBytes, Gray, Ntz;
    var l := LStar(c);
    if i == 0 {
      GrayZero();
      assert Times(0, l) == Zeros(16);
      XorZeros(o);
    } else {
      OffsetIsGray(c, o, i - 1);
      GrayStep(i);
      var g, t := Gray(i - 1), Ntz(i);
      TimesPower(t + 2, l);
      PowPositive(2, t);
      assert Pow(2, t + 2) == 2 * Pow(2, t + 1) && Pow(2, t + 1) == 2 * Pow(2, t);
      FourTimes(g, Pow(2, t));
      TimesXor(4 * g, Pow(2, t + 2), l);
      XorBytesAssoc(o, Times(4 * g, l), Doublings(l, t + 2));
    }
  }

  lemma FourTimes(x: nat, y: nat)
    ensures 4 * Xor(x, y) == Xor(4 * x, 4 * y)
  {
    hide Xor;
    XorTwice(x, 0, y, 0);
    XorTwice(2 * x, 0, 2 * y, 0);
  }

  /** Adding one or two to a multiple of four adds the same multiple of the operand. */
  lemma TimesPlus(x: nat, k: nat, b: seq<byte>)
    requires |b| == 16 && 1 <= k < 4
    ensures Times(4 * x + k, b)
         == XorBytes(Times(4 * x, b),
                     if k == 1 then b
                     else if k == 2 then Shifts.Doubled(b)
                     else XorBytes(b, Shifts.Doubled(b)))
  {
    hide XorBytes, Xor, Shifts.Doubled;
    Pow2Values();
    XorZero(x);
    XorConcat(x, 0, 0, k, 2);
    XorZero(k);
    TimesXor(4 * x, k, b);
    TimesSmall(k, b);
  }

  lemma TimesSmall(k: nat, b: seq<byte>)
    requires |b| == 16 && 1 <= k < 4
    ensures Times(k, b) == if k == 1 then b else if k == 2 then Shifts.Doubled(b) else XorBytes(b, Shifts.Doubled(b))
  {
    hide XorBytes, Xor, Shifts.Doubled;
    var d := Shifts.Doubled(b);
    assert Times(0, d) == Zeros(16) && Times(0, Shifts.Doubled(d)) == Zeros(16);
    XorZeros(b);
    XorZeros(d);
    if k == 3 { XorBytesComm(d, b); }
    if k >= 2 { assert Times(1, d) == XorBytes(Times(0, Shifts.Doubled(d)), d); }
  }

  // ---------------------------------------------------------------- the tweaked cipher

  /** The mask of tweak x: x times L_* added to the initial offset. */
  ghost function Mask(c: BlockCipher, o: seq<byte>, x: nat): (r: seq<byte>)
    requires Permutation(c) && |o| == 16
    ensures |r| == 16
  {
    XorBytes(o, Times(x, LStar(c)))
  }

  /** The cipher under a tweak: masked before. */
  ghost function Masked(c: BlockCipher, o: seq<byte>, x: nat, b: seq<byte>): (r: seq<byte>)
    requires Permutation(c) && |o| == 16 && |b| == 16
    ensures |r| == 16
  {
    CipherLength(c, XorBytes(b, Mask(c, o, x)));
    c.encrypt(XorBytes(b, Mask(c, o, x)))
  }

  /** The cipher under a tweak: masked before and after. */
  ghost function MaskedTwice(c: BlockCipher, enc: bool, o: seq<byte>, x: nat, b: seq<byte>): (r: seq<byte>)
    requires Permutation(c) && |o| == 16 && |b| == 16
    ensures |r| == 16
  {
    var y := XorBytes(b, Mask(c, o, x));
    CipherLength(c, y);
    XorBytes(if enc then c.encrypt(y) else c.decrypt(y), Mask(c, o, x))
  }

  /** Block i from 0 on of a text, and a padded rest where there is one. */
  function Parts(s: seq<byte>): (bs: seq<seq<byte>>)
    ensures forall b :: b in bs ==> |b| == 16
  {
    seq(|s| / 16, i requires 0 <= i < |s| / 16 => Block(s, i)) + (if HasRest(s) then [Padded(RestOf(s))] else [])
  }

  predicate HasRest(s: seq<byte>) { |s| % 16 != 0 }

  function RestOf(s: seq<byte>): (r: seq<byte>)
    ensures |r| == |s| % 16
  {
    s[16 * (|s| / 16)..]
  }

  /** The tweak of the i-th part: four times a Gray code, and one more for a padded rest. */
  function PartTweak(s: seq<byte>, i: nat): nat {
    if i < |s| / 16 then 4 * Gray(i + 1) else 4 * Gray(|s| / 16) + 1
  }

  function Sum(bs: seq<seq<byte>>): (r: seq<byte>)
    requires forall b :: b in bs ==> |b| == 16
    ensures |r| == 16
  {
    if |bs| == 0 then Zeros(16) else XorBytes(Sum(bs[..|bs| - 1]), bs[|bs| - 1])
  }

  /** Each part of the associated data, enciphered under its tweak. */
  ghost function HashTerms(c: BlockCipher, a: seq<byte>): (bs: seq<seq<byte>>)
    requires Permutation(c)
    ensures |bs| == |Parts(a)| && forall b :: b in bs ==> |b| == 16
  {
    seq(|Parts(a)|, i requires 0 <= i < |Parts(a)| =>
      assert Parts(a)[i] in Parts(a); Masked(c, Zeros(16), PartTweak(a, i), Parts(a)[i]))
  }

  lemma ZeroOffset(c: BlockCipher, i: nat)
    requires Permutation(c)
    ensures Offset(c, Zeros(16), i) == Mask(c, Zeros(16), 4 * Gray(i))
    ensures XorBytes(Offset(c, Zeros(16), i), LStar(c)) == Mask(c, Zeros(16), 4 * Gray(i) + 1)
  {
    hide Permutation, LStar, Xor, XorBytes, Gray, Times;
    OffsetIsGray(c, Zeros(16), i);
    OffsetPlus(c, Zeros(16), i);
  }

  lemma OffsetPlus(c: BlockCipher, o: seq<byte>, i: nat)
    requires Permutation(c) && |o| == 16
    ensures Offset(c, o, i) == Mask(c, o, 4 * Gray(i))
    ensures XorBytes(Offset(c, o, i), LStar(c)) == Mask(c, o, 4 * Gray(i) + 1)
    ensures XorBytes(Offset(c, o, i), LDollar(c)) == Mask(c, o, 4 * Gray(i) + 2)
    ensures XorBytes(XorBytes(Offset(c, o, i), LStar(c)), LDollar(c)) == Mask(c, o, 4 * Gray(i) + 3)
  {
    hide Permutation, LStar, Xor, XorBytes, Gray, Times, Shifts.Doubled;
    OffsetIsGray(c, o, i);
    var l, g := LStar(c), Gray(i);
    FirstDoublings(l);
    var t, d := Times(4 * g, l), Shifts.Doubled(l);
    TimesPlus(g, 1, l);
    TimesPlus(g, 2, l);
    TimesPlus(g, 3, l);
    XorBytesAssoc(o, t, l);
    XorBytesAssoc(o, t, d);
    XorBytesAssoc(XorBytes(o, t), l, d);
    XorBytesAssoc(o, t, XorBytes(l, d));
  }

  lemma {:induction false} HashSumIsSum(c: BlockCipher, a: seq<byte>, i: nat)
    requires Permutation(c) && 16 * i <= |a|
    ensures i <= |Parts(a)| && HashSum(c, a, i) == Sum(HashTerms(c, a)[..i])
    decreases i
  {
    hide Permutation, XorBytes, Mask, Gray, Offset, Parts, HashTerms, PartTweak;
    PartsOf(a);
    var ts := HashTerms(c, a);
    if i > 0 {
      HashSumIsSum(c, a, i - 1);
      BlockTerm(c, a, i - 1);
      assert ts[..i][..i - 1] == ts[..i - 1];
    }
  }

  lemma BlockTerm(c: BlockCipher, a: seq<byte>, i: nat)
    requires Permutation(c) && i < |a| / 16
    ensures i < |HashTerms(c, a)|
    ensures HashTerms(c, a)[i] == c.encrypt(XorBytes(Block(a, i), Offset(c, Zeros(16), i + 1)))
  {
    hide Permutation, XorBytes, Mask, Gray, Offset, Parts, Block;
    PartsOf(a);
    TermAt(c, a, i);
    ZeroOffset(c, i + 1);
  }

  lemma PartsOf(s: seq<byte>)
    ensures |Parts(s)| == |s| / 16 + (if HasRest(s) then 1 else 0)
    ensures forall i :: 0 <= i < |s| / 16 ==> Parts(s)[i] == Block(s, i)
    ensures HasRest(s) ==> Parts(s)[|s| / 16] == Padded(RestOf(s))
  {
  }

  /** HASH is the sum of the parts, each enciphered under its own tweak. */
  lemma HashIsSum(c: BlockCipher, a: seq<byte>)
    requires Permutation(c)
    ensures Hashed(c, a) == Sum(HashTerms(c, a))
  {
    hide Permutation, XorBytes, Mask, Gray, Offset, HashSum, Parts, Padded;
    var m, ts := |a| / 16, HashTerms(c, a);
    PartsOf(a);
    HashSumIsSum(c, a, m);
    if HasRest(a) {
      ZeroOffset(c, m);
      assert ts[..|ts| - 1] == ts[..m];
    } else {
      assert ts[..m] == ts;
    }
  }

  lemma {:induction false} ChecksumIsSum(p: seq<byte>, i: nat)
    requires 16 * i <= |p|
    ensures i <= |Parts(p)| && Checksum(p, i) == Sum(Parts(p)[..i])
    decreases i
  {
    hide XorBytes, Parts;
    PartsOf(p);
    var ts := Parts(p);
    if i > 0 {
      ChecksumIsSum(p, i - 1);
      assert ts[..i][..i - 1] == ts[..i - 1];
    }
  }

  /** The tag enciphers the sum of the text's parts under a tweak of its own, and adds the hash. */
  lemma TagIsSum(c: BlockCipher, o: seq<byte>, p: seq<byte>, a: seq<byte>)
    requires Permutation(c) && |o| == 16
    ensures Tag(c, o, p, a)
         == XorBytes(Masked(c, o, 4 * Gray(|p| / 16) + (if HasRest(p) then 3 else 2), Sum(Parts(p))),
                     Sum(HashTerms(c, a)))
  {
    hide Permutation, XorBytes, Mask, Gray, Offset, Hashed, HashTerms, Parts, Padded, Checksum, LDollar, LStar;
    var m, ts := |p| / 16, Parts(p);
    PartsOf(p);
    HashIsSum(c, a);
    ChecksumIsSum(p, m);
    OffsetPlus(c, o, m);
    if HasRest(p) {
      assert ts[..|ts| - 1] == ts[..m];
      XorBytesAssoc(Sum(ts), XorBytes(Offset(c, o, m), LStar(c)), LDollar(c));
    } else {
      assert ts[..m] == ts;
      XorBytesAssoc(Sum(ts), Offset(c, o, m), LDollar(c));
    }
  }

  /** Each block of the text goes through the tweaked cipher by itself, and the rest under a tweaked pad. */
  lemma OutputIsTweaked(c: BlockCipher, enc: bool, o: seq<byte>, text: seq<byte>)
    requires Permutation(c) && |o| == 16
    ensures var out, m := Output(c, enc, o, text), |text| / 16;
      && (forall i :: 0 <= i < m ==> Block(out, i) == MaskedTwice(c, enc, o, 4 * Gray(i + 1), Block(text, i)))
      && RestOf(out) == XorBytes(RestOf(text), Masked(c, o, 4 * Gray(m) + 1, Zeros(16)))
  {
    hide Permutation, XorBytes, Mask, Gray, Offset, Blocks, Block, LStar;
    var out, m := Output(c, enc, o, text), |text| / 16;
    forall i | 0 <= i < m
      ensures Block(out, i) == MaskedTwice(c, enc, o, 4 * Gray(i + 1), Block(text, i))
    {
      PlainBlock(c, enc, o, text, i);
      OffsetPlus(c, o, i + 1);
      var y := XorBytes(Block(text, i), Offset(c, o, i + 1));
      CipherLength(c, y);
      XorBytesComm(Offset(c, o, i + 1), if enc then c.encrypt(y) else c.decrypt(y));
    }
    OffsetPlus(c, o, m);
    XorZeros(Mask(c, o, 4 * Gray(m) + 1));
  }

  // ---------------------------------------------------------------- what the tag depends on

  /** Two strings of as many blocks, both with a rest or both without, that differ in one part. */
  ghost predicate OnePartApart(a: seq<byte>, b: seq<byte>, k: nat) {
    && |a| / 16 == |b| / 16 && HasRest(a) == HasRest(b)
    && k < |Parts(a)| == |Parts(b)| && Parts(a)[k] != Parts(b)[k]
    && forall i :: 0 <= i < |Parts(a)| && i != k ==> Parts(a)[i] == Parts(b)[i]
  }

  lemma PaddedMark(s: seq<byte>)
    requires |s| < 16
    ensures var r := Padded(s);
      r[..|s|] == s && r[|s|] == 0x80 && forall i :: |s| < i < 16 ==> r[i] == 0
  {
  }

  /** Different rests are padded differently, whatever their lengths. */
  lemma PaddedInjective(s: seq<byte>, t: seq<byte>)
    requires |s| < 16 && |t| < 16 && Padded(s) == Padded(t)
    ensures s == t
  {
    hide Padded;
    PaddedMark(s);
    PaddedMark(t);
    assert |s| == |t|;
  }

  /** Strings that differ only in their rests, or only in one whole block, differ in one part. */
  lemma DifferentRests(a: seq<byte>, b: seq<byte>)
    requires |a| / 16 == |b| / 16 && HasRest(a) && HasRest(b) && RestOf(a) != RestOf(b)
    requires a[..16 * (|a| / 16)] == b[..16 * (|a| / 16)]
    ensures OnePartApart(a, b, |a| / 16)
  {
    hide Padded;
    var m := |a| / 16;
    PartsOf(a);
    PartsOf(b);
    if Padded(RestOf(a)) == Padded(RestOf(b)) { PaddedInjective(RestOf(a), RestOf(b)); }
    forall i | 0 <= i < m ensures Block(a, i) == Block(b, i) {
      assert Block(a, i) == a[..16 * m][16 * i..16 * i + 16] && Block(b, i) == b[..16 * m][16 * i..16 * i + 16];
    }
  }

  lemma DifferentBlock(a: seq<byte>, b: seq<byte>, k: nat)
    requires |a| == |b| && 16 * k + 16 <= |a| && a[..16 * k] == b[..16 * k] && a[16 * k + 16..] == b[16 * k + 16..]
    requires a != b
    ensures OnePartApart(a, b, k)
  {
    hide Padded, Block, RestOf, Parts;
    PartsOf(a);
    PartsOf(b);
    SameOutside(a, b, k);
  }

  lemma SameOutside(a: seq<byte>, b: seq<byte>, k: nat)
    requires |a| == |b| && 16 * k + 16 <= |a| && a[..16 * k] == b[..16 * k] && a[16 * k + 16..] == b[16 * k + 16..]
    requires a != b
    ensures Block(a, k) != Block(b, k) && RestOf(a) == RestOf(b)
    ensures forall i :: 0 <= i < |a| / 16 && i != k ==> Block(a, i) == Block(b, i)
  {
    forall j | 0 <= j < |a| && !(16 * k <= j < 16 * k + 16)
      ensures a[j] == b[j]
    {
      if j < 16 * k {
        assert a[j] == a[..16 * k][j] && b[j] == b[..16 * k][j];
      } else {
        assert a[j] == a[16 * k + 16..][j - 16 * k - 16] && b[j] == b[16 * k + 16..][j - 16 * k - 16];
      }
    }
    if Block(a, k) == Block(b, k) { SameInside(a, b, k); }
  }

  lemma SameInside(a: seq<byte>, b: seq<byte>, k: nat)
    requires |a| == |b| && 16 * k + 16 <= |a| && Block(a, k) == Block(b, k)
    requires forall j :: 0 <= j < |a| && !(16 * k <= j < 16 * k + 16) ==> a[j] == b[j]
    ensures a == b
  {
    forall j | 16 * k <= j < 16 * k + 16
      ensures a[j] == b[j]
    {
      assert a[j] == Block(a, k)[j - 16 * k] && b[j] == Block(b, k)[j - 16 * k];
    }
  }

  /** A sum changes with each single term. */
  lemma {:induction false} SumChanges(s: seq<seq<byte>>, t: seq<seq<byte>>, k: nat)
    requires (forall b :: b in s ==> |b| == 16) && (forall b :: b in t ==> |b| == 16)
    requires |s| == |t| && k < |s| && s[k] != t[k] && forall i :: 0 <= i < |s| && i != k ==> s[i] == t[i]
    ensures Sum(s) != Sum(t)
    decreases |s|
  {
    hide XorBytes;
    var n := |s| - 1;
    assert s[n] in s && t[n] in t;
    if k == n {
      assert s[..n] == t[..n];
      if Sum(s) == Sum(t) { XorBytesInjective(Sum(s[..n]), s[n], t[n]); }
    } else {
      SumChanges(s[..n], t[..n], k);
      if Sum(s) == Sum(t) { XorBytesOther(Sum(s[..n]), Sum(t[..n]), s[n]); }
    }
  }

  lemma XorBytesOther(a: seq<byte>, b: seq<byte>, c: seq<byte>)
    requires |a| == |b| == |c| && XorBytes(a, c) == XorBytes(b, c)
    ensures a == b
  {
    hide XorBytes;
    XorBytesCancel(a, c);
    XorBytesCancel(b, c);
  }

  lemma MaskedInjective(c: BlockCipher, o: seq<byte>, x: nat, a: seq<byte>, b: seq<byte>)
    requires Permutation(c) && |o| == 16 && |a| == 16 && |b| == 16 && Masked(c, o, x, a) == Masked(c, o, x, b)
    ensures a == b
  {
    hide XorBytes, Mask;
    var m := Mask(c, o, x);
    Deciphers(c, XorBytes(a, m));
    Deciphers(c, XorBytes(b, m));
    XorBytesOther(a, b, m);
  }

  lemma Deciphers(c: BlockCipher, b: seq<byte>)
    requires Permutation(c) && |b| == 16
    ensures c.decrypt(c.encrypt(b)) == b
  {
  }

  /** The hash changes with every single block and with the rest of the associated data. */
  lemma HashBinds(c: BlockCipher, a: seq<byte>, b: seq<byte>, k: nat)
    requires Permutation(c) && OnePartApart(a, b, k)
    ensures Hashed(c, a) != Hashed(c, b)
  {
    hide Permutation, Masked, Parts, Gray, Hashed, XorBytes, Sum;
    HashIsSum(c, a);
    HashIsSum(c, b);
    TermsApart(c, a, b, k);
    SumChanges(HashTerms(c, a), HashTerms(c, b), k);
  }

  lemma TermAt(c: BlockCipher, a: seq<byte>, i: nat)
    requires Permutation(c) && i < |Parts(a)|
    ensures |HashTerms(c, a)| == |Parts(a)| && |Parts(a)[i]| == 16
    ensures HashTerms(c, a)[i] == Masked(c, Zeros(16), PartTweak(a, i), Parts(a)[i])
  {
    hide Permutation, Masked, Parts, PartTweak;
    assert Parts(a)[i] in Parts(a);
  }

  lemma TermsApart(c: BlockCipher, a: seq<byte>, b: seq<byte>, k: nat)
    requires Permutation(c) && OnePartApart(a, b, k)
    ensures var s, t := HashTerms(c, a), HashTerms(c, b);
      |s| == |t| && k < |s| && s[k] != t[k] && forall i :: 0 <= i < |s| && i != k ==> s[i] == t[i]
  {
    hide Permutation, Masked, Parts, Gray, XorBytes, HashTerms;
    TermAt(c, a, k);
    TermAt(c, b, k);
    if HashTerms(c, a)[k] == HashTerms(c, b)[k] {
      MaskedInjective(c, Zeros(16), PartTweak(a, k), Parts(a)[k], Parts(b)[k]);
    }
    forall i | 0 <= i < |Parts(a)| && i != k
      ensures HashTerms(c, a)[i] == HashTerms(c, b)[i]
    {
      TermAt(c, a, i);
      TermAt(c, b, i);
    }
  }

  /** So does the tag, and what was sealed under one does not open under the other. */
  lemma DataBinds(c: BlockCipher, n: seq<byte>, a: seq<byte>, b: seq<byte>, p: seq<byte>, k: nat)
    requires Permutation(c) && |n| <= 15 && OnePartApart(a, b, k)
    ensures Sealed(c, n, a, p) != Sealed(c, n, b, p) && Opened(c, n, b, Sealed(c, n, a, p)) == Err(TagMismatch)
  {
    hide Permutation, XorBytes, Output, InitialOffset, Hashed, Parts, FinalChecksum, FinalOffset, LDollar;
    var o := InitialOffset(c, n);
    HashBinds(c, a, b, k);
    var s := Sealed(c, n, a, p);
    var text := s[..|s| - 16];
    assert text == Output(c, true, o, p) && s[|s| - 16..] == Tag(c, o, p, a);
    OutputInverse(c, true, o, p);
    var x := XorBytes(XorBytes(FinalChecksum(p), FinalOffset(c, o, |p|)), LDollar(c));
    CipherLength(c, x);
    if Tag(c, o, p, a) == Tag(c, o, p, b) { XorBytesInjective(c.encrypt(x), Hashed(c, a), Hashed(c, b)); }
    assert Opened(c, n, b, s) == Err(TagMismatch);
    OpensIffSealed(c, n, b, s, p);
  }

  /** Opening fails for less than a tag, or for a tag that no text has. */
  lemma OpenFails(c: BlockCipher, n: seq<byte>, a: seq<byte>, ct: seq<byte>)
    requires Permutation(c) && |n| <= 15
    ensures Opened(c, n, a, ct) == Err(InvalidCiphertext) <==> |ct| < 16
    ensures Opened(c, n, a, ct) == Err(TagMismatch) <==> |ct| >= 16 && forall p :: Sealed(c, n, a, p) != ct
  {
    hide Permutation, Sealed, Output, Tag, InitialOffset;
    var r := Opened(c, n, a, ct);
    if r.Ok? { OpensIffSealed(c, n, a, ct, r.value); }
    if p :| Sealed(c, n, a, p) == ct { OpensIffSealed(c, n, a, ct, p); }
  }

  /** The tag changes with every single block and with the rest of the text. */
  lemma TextBinds(c: BlockCipher, o: seq<byte>, p: seq<byte>, q: seq<byte>, a: seq<byte>, k: nat)
    requires Permutation(c) && |o| == 16 && OnePartApart(p, q, k)
    ensures Tag(c, o, p, a) != Tag(c, o, q, a)
  {
    hide Permutation, XorBytes, Masked, Parts, HashTerms, Gray;
    TagIsSum(c, o, p, a);
    TagIsSum(c, o, q, a);
    SumChanges(Parts(p), Parts(q), k);
    var x := 4 * Gray(|p| / 16) + (if HasRest(p) then 3 else 2);
    if Tag(c, o, p, a) == Tag(c, o, q, a) {
      XorBytesOther(Masked(c, o, x, Sum(Parts(p))), Masked(c, o, x, Sum(Parts(q))), Sum(HashTerms(c, a)));
      MaskedInjective(c, o, x, Sum(Parts(p)), Sum(Parts(q)));
    }
  }

  // ---------------------------------------------------------------- the nonce

  /** The block that is enciphered for a nonce, and the number of bits its stretched form is shifted by. */
  function TopOf(n: seq<byte>): seq<byte>
    requires |n| <= 15
  {
    var b := NonceBlock(n);
    var low: nat := b[15];
    b[..15] + [low - low % 64]
  }

  function BottomOf(n: seq<byte>): nat
    requires |n| <= 15
  {
    var low: nat := NonceBlock(n)[15];
    low % 64
  }

  lemma OffsetOfNonce(c: BlockCipher, n: seq<byte>)
    requires Permutation(c) && |n| <= 15
    ensures |TopOf(n)| == 16 && |c.encrypt(TopOf(n))| == 16
    ensures InitialOffset(c, n) == Window(Stretched(c.encrypt(TopOf(n))), BottomOf(n))
  {
    hide Window, Stretched;
    CipherLength(c, TopOf(n));
  }

  lemma NonceMark(n: seq<byte>)
    requires |n| <= 15
    ensures var b := NonceBlock(n);
      b[16 - |n|..] == n && b[15 - |n|] == 1 && forall i :: 0 <= i < 15 - |n| ==> b[i] == 0
  {
  }

  /** Two nonces, of the same or different lengths, differ in the block or in the shift. */
  lemma NonceInjective(n: seq<byte>, m: seq<byte>)
    requires |n| <= 15 && |m| <= 15 && TopOf(n) == TopOf(m) && BottomOf(n) == BottomOf(m)
    ensures n == m
  {
    hide NonceBlock;
    var b, d := NonceBlock(n), NonceBlock(m);
    var x: nat, y: nat := b[15], d[15];
    assert TopOf(n)[15] == x - x % 64 && TopOf(m)[15] == y - y % 64;
    assert TopOf(n)[..15] == b[..15] && TopOf(m)[..15] == d[..15];
    assert b == b[..15] + [b[15]] && d == d[..15] + [d[15]];
    NonceMark(n);
    NonceMark(m);
    assert |n| == |m|;
  }

  /** Exclusive or on octets is exclusive or on the numbers they spell. */
  lemma {:induction false} XorValues(s: seq<byte>, t: seq<byte>)
    requires |s| == |t|
    ensures Value(XorBytes(s, t)) == Xor(Value(s), Value(t))
  {
    hide Xor;
    if |s| > 0 {
      var k := |s| - 1;
      XorValues(s[..k], t[..k]);
      assert XorBytes(s, t)[..k] == XorBytes(s[..k], t[..k]);
      Pow2Values();
      XorConcat(Value(s[..k]), s[k], Value(t[..k]), t[k], 8);
    } else {
      XorZero(0);
      assert XorBytes(s, t) == [];
    }
  }

  /** The enciphered block, and behind it the block exclusive-ored with itself shifted by eight bits. */
  function Stretch(k: nat): nat {
    PowPositive(2, 128);
    MulNonNeg(k, Pow(2, 128));
    k * Pow(2, 128) + Xor(k, k * 256 % Pow(2, 128))
  }

  /** Behind the block come the upper 64 bits of that sum. */
  lemma StretchedValue(b: seq<byte>)
    requires |b| == 16
    ensures Pow(2, 64) > 0 && Value(Stretched(b)) == Stretch(Value(b)) / Pow(2, 64)
  {
    hide Value, Xor, XorBytes, Pow;
    var k, m := Value(b), Pow(2, 64);
    PowPositive(2, 64);
    PowPositive(2, 128);
    PowAdd(2, 64, 64);
    Shifts.Pow256(8);
    Shifts.ValueConcat(b, XorBytes(b[..8], b[1..9]));
    XorValues(b[..8], b[1..9]);
    MiddleValue(b);
    Shifts.ValueSlices(b, 8);
    XorDivMod(k, k * 256 % Pow(2, 128), 64);
    UpperPart(k, Xor(k, k * 256 % Pow(2, 128)), m);
  }

  lemma UpperPart(k: int, y: int, m: int)
    requires m > 0
    ensures (k * (m * m) + y) / m == k * m + y / m
  {
    MulRegroup(k, 1, m, m);
    Distribute(m, k * m, y / m);
    assert y == m * (y / m) + y % m;
    DivModUnique(k * (m * m) + y, m, k * m + y / m, y % m);
  }

  lemma MiddleValue(b: seq<byte>)
    requires |b| == 16
    ensures Pow(2, 64) > 0 && Pow(2, 128) > 0
    ensures Value(b[1..9]) == Value(b) * 256 % Pow(2, 128) / Pow(2, 64)
  {
    hide Value, Pow;
    var k := Value(b);
    PowPositive(2, 56);
    PowPositive(2, 64);
    PowPositive(2, 128);
    PowAdd(2, 64, 64);
    PowAdd(2, 8, 56);
    Pow2Values();
    Shifts.Pow256(8);
    Shifts.Pow256(7);
    Shifts.ValueSlices(b, 9);
    Shifts.ValueSlices(b[..9], 1);
    assert b[..9][1..] == b[1..9];
    ModDiv(k * 256, Pow(2, 64), Pow(2, 64));
    DivCommonFactor(k, 256, Pow(2, 56));
  }

  lemma DivCommonFactor(k: nat, f: int, p: int)
    requires f > 0 && p > 0
    ensures f * p > 0 && k * f / (f * p) == k / p
  {
    MulAtLeast(f, p);
    var q, r := k / p, k % p;
    assert k == p * q + r;
    Distribute(f, p * q, r);
    MulRegroup(f, 1, p, q);
    MulBetween(f, r, p);
    DivModUnique(k * f, f * p, q, r * f);
  }

  /** The initial offset is the stretch shifted left by the bottom bits, its upper 128 bits. */
  lemma WindowOfStretch(b: seq<byte>, bottom: nat)
    requires |b| == 16 && bottom < 64
    ensures Pow(2, 128) > 0
    ensures Value(Window(Stretched(b), bottom)) == Stretch(Value(b)) * Pow(2, bottom) / Pow(2, 128) % Pow(2, 128)
  {
    hide Value, Pow, Stretched, Stretch, Digits;
    var s, e := Stretch(Value(b)), 64 - bottom;
    StretchedValue(b);
    PowPositive(2, e);
    PowPositive(2, bottom);
    PowPositive(2, 128);
    PowAdd(2, 64, e);
    PowAdd(2, bottom, 64 + e);
    DivDiv(s, Pow(2, 64), Pow(2, e));
    DivCommonFactor(s, Pow(2, bottom), Pow(2, 64 + e));
    ValueOfDigits(s / Pow(2, 64) / Pow(2, e), 16);
    Shifts.Pow256(16);
  }
}
