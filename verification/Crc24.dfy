/** The CRC-24 of ASCII armor: the table-driven form against section 6.1 of RFC 4880. */
module Crc24 {
  import opened NumberTheory
  import opened Bytes
  import opened Bits
  import opened Results
  import opened Streams

  // ---------------------------------------------------------------- the reference

  const INIT: nat := 0xB704CE
  const POLYNOMIAL: nat := 0x1864CFB

  /** Shift out one bit, reducing by the polynomial when a bit falls out of the 24. */
  function BitStep(c: nat): nat {
    if 2 * c / 0x100_0000 % 2 == 1 then Xor(2 * c, POLYNOMIAL) else 2 * c
  }

  function BitSteps(c: nat, n: nat): nat
    decreases n, c
  {
    if n == 0 then c else BitStep(BitSteps(c, n - 1))
  }

  /** The remainder after one more octet. */
  function OctetStep(c: nat, b: byte): nat {
    var shifted: nat := b * 0x1_0000;
    BitSteps(Xor(c, shifted), 8)
  }

  /** The remainder after a string of octets, from a starting remainder. */
  function Remainder(c: nat, data: seq<byte>): nat {
    if |data| == 0 then c else OctetStep(Remainder(c, data[..|data| - 1]), data[|data| - 1])
  }

  /** The checksum as three octets, most significant first. */
  function Reference(data: seq<byte>): seq<byte> { Digits(Remainder(INIT, data), 3) }

  // ---------------------------------------------------------------- the tables

  function TopBit(c: nat): nat { if c / 0x80_0000 % 2 == 1 then 0x864CFB else 0 }

  function TableStep(c: nat): nat { Xor(2 * c, TopBit(c)) }

  function TableSteps(c: nat, n: nat): nat
    decreases n, c
  {
    if n == 0 then c else TableStep(TableSteps(c, n - 1))
  }

  function Third(x: nat): (b: byte) { x / 0x1_0000 % 0x100 }
  function Second(x: nat): (b: byte) { x / 0x100 % 0x100 }
  function First(x: nat): (b: byte) { x % 0x100 }
  function Fourth(x: nat): (b: byte) { x / 0x100_0000 % 0x100 }

  /** The word with the given octets, the first the least significant. */
  function Word(b0: byte, b1: byte, b2: byte, b3: byte): nat {
    var x0: nat, x1: nat, x2: nat, x3: nat := b0, b1, b2, b3;
    x0 + x1 * 0x100 + x2 * 0x1_0000 + x3 * 0x100_0000
  }

  lemma WordOctets(b0: byte, b1: byte, b2: byte, b3: byte)
    ensures var w := Word(b0, b1, b2, b3);
      First(w) == b0 && Second(w) == b1 && Third(w) == b2 && Fourth(w) == b3 && w / 0x100 == Word(b1, b2, b3, 0)
  {
    var x1: nat, x2: nat, x3: nat := b1, b2, b3;
    Peel(x1 + x2 * 0x100 + x3 * 0x1_0000, b0);
    Peel(x2 + x3 * 0x100, b1);
    Peel(x3, b2);
    Peel(0, b3);
    Quotients(Word(b0, b1, b2, b3));
  }

  lemma Peel(h: nat, b: byte)
    ensures (h * 0x100 + b) / 0x100 == h && First(h * 0x100 + b) == b
  {
    DivModUnique(h * 0x100 + b, 0x100, h, b);
  }

  lemma Quotients(w: nat)
    ensures w / 0x1_0000 == w / 0x100 / 0x100 && w / 0x100_0000 == w / 0x100 / 0x100 / 0x100
  {
    DivDiv(w, 0x100, 0x100);
    DivDiv(w, 0x1_0000, 0x100);
  }

  lemma WordBound(b0: byte, b1: byte, b2: byte, b3: byte)
    ensures Word(b0, b1, b2, b3) < 0x1_0000_0000
  {
  }

  lemma Decompose(x: nat)
    requires x < 0x1_0000_0000
    ensures x == Word(First(x), Second(x), Third(x), Fourth(x))
  {
    Quotients(x);
    var y := x / 0x100;
    var z := y / 0x100;
    LowOctet(x);
    LowOctet(y);
    LowOctet(z);
    ModSmall(z / 0x100, 0x100);
  }

  lemma LowOctet(x: nat)
    ensures x == x / 0x100 * 0x100 + First(x)
  {
  }

  /** Exchange the first and third octet of the low 24 bits. */
  function Swap(c: nat): (r: nat)
    ensures r < 0x100_0000
  {
    Word(Third(c), Second(c), First(c), 0)
  }

  function T0(a: byte): (r: nat)
    ensures r < 0x100_0000
  {
    var x: nat := a * 0x1_0000;
    Swap(TableSteps(x, 8))
  }

  /** One zero octet through the byte-swapped register. */
  function Advance(x: nat): nat { Xor(x / 0x100, T0(First(x))) }

  function T1(a: byte): nat { Advance(T0(a)) }
  function T2(a: byte): nat { Advance(T1(a)) }
  function T3(a: byte): nat { Advance(T2(a)) }

  datatype Tables = Tables(t0: seq<nat>, t1: seq<nat>, t2: seq<nat>, t3: seq<nat>)

  ghost predicate ValidTables(t: Tables) {
    && |t.t0| == |t.t1| == |t.t2| == |t.t3| == 256
    && forall i: byte :: t.t0[i] == T0(i) && t.t1[i] == T1(i) && t.t2[i] == T2(i) && t.t3[i] == T3(i)
  }

  /** The table of every octet's eight shifts. */
  method BuildFirst() returns (t: seq<nat>)
    ensures |t| == 256 && forall i: byte :: t[i] == T0(i)
  {
    hide TableStep, Swap;
    t := [];
    var i := 0;
    while i < 256
      invariant 0 <= i <= 256 && |t| == i
      invariant forall j: byte :: j < i ==> t[j] == T0(j)
    {
      var crc: nat := i * 0x1_0000;
      var n := 0;
      while n < 8
        invariant 0 <= n <= 8
        invariant crc == TableSteps(i * 0x1_0000, n)
      {
        crc := TableStep(crc);
        n := n + 1;
      }
      t := t + [Swap(crc)];
      i := i + 1;
    }
  }

  /** Each later table advances the one before by an octet. */
  method BuildNext(t0: seq<nat>, previous: seq<nat>) returns (t: seq<nat>)
    requires |t0| == |previous| == 256 && forall i: byte :: t0[i] == T0(i)
    ensures |t| == 256 && forall i: byte :: t[i] == Advance(previous[i])
  {
    hide T0, Xor;
    t := [];
    var i := 0;
    while i < 256
      invariant 0 <= i <= 256 && |t| == i
      invariant forall j: byte :: j < i ==> t[j] == Advance(previous[j])
    {
      t := t + [Xor(previous[i] / 0x100, t0[First(previous[i])])];
      i := i + 1;
    }
  }

  method BuildTables() returns (t: Tables)
    ensures ValidTables(t)
  {
    hide T0, Advance;
    var t0 := BuildFirst();
    var t1 := BuildNext(t0, t0);
    var t2 := BuildNext(t0, t1);
    var t3 := BuildNext(t0, t2);
    t := Tables(t0, t1, t2, t3);
  }

  // ---------------------------------------------------------------- linearity

  lemma TopBitXor(x: nat, y: nat)
    ensures TopBit(Xor(x, y)) == Xor(TopBit(x), TopBit(y))
  {
    hide Xor;
    Pow2Values();
    XorDivMod(x, y, 23);
    XorHalf(x / 0x80_0000, y / 0x80_0000);
    XorSelf(0x864CFB);
    XorZero(0x864CFB);
    XorZero(0);
  }

  lemma DoubleXor(x: nat, y: nat)
    ensures 2 * Xor(x, y) == Xor(2 * x, 2 * y)
  {
    XorTwice(x, 0, y, 0);
  }

  lemma TableStepXor(x: nat, y: nat)
    ensures TableStep(Xor(x, y)) == Xor(TableStep(x), TableStep(y))
  {
    hide TopBit, Xor;
    TopBitXor(x, y);
    DoubleXor(x, y);
    XorSwap(2 * x, 2 * y, TopBit(x), TopBit(y));
  }

  lemma {:induction false} TableStepsXor(x: nat, y: nat, n: nat)
    ensures TableSteps(Xor(x, y), n) == Xor(TableSteps(x, n), TableSteps(y, n))
  {
    hide TableStep, Xor;
    if n > 0 {
      TableStepsXor(x, y, n - 1);
      TableStepXor(TableSteps(x, n - 1), TableSteps(y, n - 1));
    }
  }

  lemma OctetsXor(x: nat, y: nat)
    ensures First(Xor(x, y)) == XorByte(First(x), First(y))
    ensures Second(Xor(x, y)) == XorByte(Second(x), Second(y))
    ensures Third(Xor(x, y)) == XorByte(Third(x), Third(y))
    ensures Xor(x, y) / 0x100 == Xor(x / 0x100, y / 0x100)
  {
    hide Xor;
    Pow2Values();
    XorDivMod(x, y, 8);
    XorDivMod(x / 0x100, y / 0x100, 8);
    XorDivMod(x, y, 16);
    XorDivMod(x / 0x1_0000, y / 0x1_0000, 8);
  }

  lemma LowOctetXor(x: nat, y: nat)
    ensures First(Xor(x, y)) == XorByte(First(x), First(y))
    ensures Xor(x, y) / 0x100 == Xor(x / 0x100, y / 0x100)
  {
    hide Xor;
    OctetsXor(x, y);
  }

  lemma ConcatXor(a: nat, c: nat, b: nat, d: nat)
    requires c < 0x100 && d < 0x100
    ensures Xor(a * 0x100 + c, b * 0x100 + d) == Xor(a, b) * 0x100 + Xor(c, d)
  {
    Pow2Values();
    XorConcat(a, c, b, d, 8);
  }

  lemma SwapIs(c: nat)
    ensures var x1: nat, x2: nat, x3: nat := First(c), Second(c), Third(c);
      Swap(c) == (x1 * 0x100 + x2) * 0x100 + x3
  {
    hide First, Second, Third;
  }

  lemma SwapXor(x: nat, y: nat)
    ensures Swap(Xor(x, y)) == Xor(Swap(x), Swap(y))
  {
    hide Xor, Swap, First, Second, Third;
    OctetsXor(x, y);
    SwapIs(x);
    SwapIs(y);
    SwapIs(Xor(x, y));
    var a: nat, b: nat, c: nat := First(x), Second(x), Third(x);
    var d: nat, e: nat, f: nat := First(y), Second(y), Third(y);
    ConcatXor(a, b, d, e);
    ConcatXor(a * 0x100 + b, c, d * 0x100 + e, f);
  }

  /** The table is linear under exclusive or. */
  lemma T0Xor(a: byte, b: byte)
    ensures T0(XorByte(a, b)) == Xor(T0(a), T0(b))
  {
    hide Xor, TableSteps, Swap;
    var x: nat, y: nat := a, b;
    var u, v := x * 0x1_0000, y * 0x1_0000;
    Pow2Values();
    XorConcat(x, 0, y, 0, 16);
    XorZero(0);
    TableStepsXor(u, v, 8);
    SwapXor(TableSteps(u, 8), TableSteps(v, 8));
  }

  lemma T0Zero()
    ensures T0(0) == 0
  {
    XorSelf(0);
    T0Xor(0, 0);
    XorSelf(T0(0));
  }

  lemma AdvanceXor(x: nat, y: nat)
    ensures Advance(Xor(x, y)) == Xor(Advance(x), Advance(y))
  {
    hide Xor, T0;
    OctetsXor(x, y);
    T0Xor(First(x), First(y));
    XorSwap(x / 0x100, y / 0x100, T0(First(x)), T0(First(y)));
  }

  /** A register whose low octet is clear only shifts. */
  lemma AdvanceShifts(x: nat)
    ensures Advance(x * 0x100) == x
  {
    hide Xor, T0;
    T0Zero();
    XorZero(x);
  }

  /** A register holding only its low octet advances to that octet's table entry. */
  lemma AdvanceLow(a: byte)
    ensures Advance(a) == T0(a)
  {
    hide Xor, T0;
    XorZero(T0(a));
  }

  // ---------------------------------------------------------------- one octet, and four

  /** The byte path: one octet through the byte-swapped register. */
  function FastOctet(crc: nat, b: byte): nat { Xor(crc / 0x100, T0(XorByte(First(crc), b))) }

  lemma FastOctetAdvances(crc: nat, b: byte)
    ensures FastOctet(crc, b) == Advance(Xor(crc, b))
  {
    hide Xor, T0, First;
    LowOctetXor(crc, b);
    Peel(0, b);
    XorZero(crc / 0x100);
  }

  /** The word path: four octets at once. */
  function FastWord(crc: nat, w: nat): nat {
    var x := Xor(crc, w);
    Xor(Xor(Xor(T0(Fourth(x)), T1(Third(x))), T2(Second(x))), T3(First(x)))
  }

  function Advance4(x: nat): nat { Advance(Advance(Advance(Advance(x)))) }

  lemma Advance4Xor(x: nat, y: nat)
    ensures Advance4(Xor(x, y)) == Xor(Advance4(x), Advance4(y))
  {
    hide Advance;
    AdvanceXor(x, y);
    AdvanceXor(Advance(x), Advance(y));
    AdvanceXor(Advance(Advance(x)), Advance(Advance(y)));
    AdvanceXor(Advance(Advance(Advance(x))), Advance(Advance(Advance(y))));
  }

  /** Four steps take each octet of the register to its own table. */
  lemma Advance4Octets(a: byte)
    ensures Advance4(a) == T3(a)
    ensures Advance4(a * 0x100) == T2(a)
    ensures Advance4(a * 0x1_0000) == T1(a)
    ensures Advance4(a * 0x100_0000) == T0(a)
  {
    hide Advance, T0;
    var x: nat := a;
    AdvanceLow(a);
    AdvanceShifts(x);
    AdvanceShifts(x * 0x100);
    AdvanceShifts(x * 0x1_0000);
  }

  /** A word is the exclusive or of its octets in place. */
  lemma WordIsXor(a: byte, b: byte, c: byte, d: byte)
    ensures Word(a, b, c, d) == Xor(Xor(Xor(d * 0x100_0000, c * 0x1_0000), b * 0x100), a)
  {
    hide Xor;
    Pow2Values();
    var a': int, b': int, c': int, d': int := a, b, c, d;
    XorDisjoint(d', c' * 0x1_0000, 24);
    XorDisjoint(d' * 0x100 + c', b' * 0x100, 16);
    XorDisjoint(d' * 0x1_0000 + c' * 0x100 + b', a', 8);
  }

  /** The slicing tables compute four steps at once. */
  lemma WordAdvances(crc: nat, w: nat)
    requires Xor(crc, w) < 0x1_0000_0000
    ensures FastWord(crc, w) == Advance4(Xor(crc, w))
  {
    hide Xor, T0, T1, T2, T3, Advance, Advance4, First, Second, Third, Fourth;
    var x := Xor(crc, w);
    var a, b, c, d := First(x), Second(x), Third(x), Fourth(x);
    Decompose(x);
    WordIsXor(a, b, c, d);
    var a': nat, b': nat, c': nat, d': nat := a, b, c, d;
    var A, B, C, D := a', b' * 0x100, c' * 0x1_0000, d' * 0x100_0000;
    Advance4Xor(Xor(Xor(D, C), B), A);
    Advance4Xor(Xor(D, C), B);
    Advance4Xor(D, C);
    Advance4Octets(a);
    Advance4Octets(b);
    Advance4Octets(c);
    Advance4Octets(d);
  }

  /** An octet placed one position up arrives one step later. */
  lemma InjectOctet(x: nat, y: nat)
    ensures Advance(Xor(x, y * 0x100)) == Xor(Advance(x), y)
  {
    hide Xor, Advance;
    AdvanceXor(x, y * 0x100);
    AdvanceShifts(y);
  }

  /** The word path agrees with the byte path on the word's octets. */
  lemma WordIsFourOctets(crc: nat, b0: byte, b1: byte, b2: byte, b3: byte)
    requires crc < 0x1_0000_0000
    ensures FastWord(crc, Word(b0, b1, b2, b3))
      == FastOctet(FastOctet(FastOctet(FastOctet(crc, b0), b1), b2), b3)
  {
    hide Xor, Advance, FastOctet, FastWord, Word;
    var w := Word(b0, b1, b2, b3);
    Pow2Values();
    WordBound(b0, b1, b2, b3);
    XorBound(crc, w, 32);
    WordAdvances(crc, w);
    FoldOctets(crc, b0, b1, b2, b3);
    var y1 := FastOctet(crc, b0);
    var y2 := FastOctet(y1, b1);
    FastOctetAdvances(crc, b0);
    FastOctetAdvances(y1, b1);
    FastOctetAdvances(y2, b2);
    FastOctetAdvances(FastOctet(y2, b2), b3);
  }

  /** Feeding the octets one by one, or all at the start in their places. */
  lemma FoldOctets(crc: nat, b0: byte, b1: byte, b2: byte, b3: byte)
    ensures Advance4(Xor(crc, Word(b0, b1, b2, b3)))
      == Advance(Xor(Advance(Xor(Advance(Xor(Advance(Xor(crc, b0)), b1)), b2)), b3))
  {
    hide Xor, Advance, Word;
    var a: nat, b: nat, c: nat, d: nat := b0, b1, b2, b3;
    var x0 := Xor(crc, a);
    ReorderXor(crc, a, b * 0x100, c * 0x1_0000, d * 0x100_0000);
    WordIsXor(b0, b1, b2, b3);
    var x1 := Xor(x0, b * 0x100);
    var x2 := Xor(x1, c * 0x1_0000);
    // the fourth octet moves down three places, the third two, the second one
    InjectOctet(x2, d * 0x1_0000);
    InjectOctet(Advance(x2), d * 0x100);
    InjectOctet(Advance(Advance(x2)), d);
    InjectOctet(x1, c * 0x100);
    InjectOctet(Advance(x1), c);
    InjectOctet(x0, b);
  }

  lemma ReorderXor(x: nat, a: nat, b: nat, c: nat, d: nat)
    ensures Xor(x, Xor(Xor(Xor(d, c), b), a)) == Xor(Xor(Xor(Xor(x, a), b), c), d)
  {
    hide Xor;
    XorComm(Xor(Xor(d, c), b), a);
    XorAssoc(x, a, Xor(Xor(d, c), b));
    XorComm(Xor(d, c), b);
    XorAssoc(Xor(x, a), b, Xor(d, c));
    XorComm(d, c);
    XorAssoc(Xor(Xor(x, a), b), c, d);
  }

  // ---------------------------------------------------------------- against the reference

  lemma StepsAgree(c: nat)
    ensures BitStep(c % 0x100_0000) == TableStep(c) % 0x100_0000
  {
    hide Xor;
    var k, e := c / 0x100_0000, c % 0x100_0000;
    var t := if e < 0x80_0000 then 0 else 1;
    DivModUnique(c, 0x80_0000, 2 * k + t, e - t * 0x80_0000);
    DivModUnique(2 * k + t, 2, k, t);
    DivModUnique(2 * e, 0x100_0000, t, 2 * e - t * 0x100_0000);
    DivModUnique(2 * c, 0x100_0000, 2 * k + t, 2 * e - t * 0x100_0000);
    ModSmall(t, 2);
    if t == 1 {
      CarryAgrees(c, e);
    } else {
      XorZero(2 * c);
    }
  }

  lemma CarryAgrees(c: nat, e: nat)
    requires 0x80_0000 <= e < 0x100_0000 && 2 * c % 0x100_0000 == 2 * e - 0x100_0000
    ensures Xor(2 * e, POLYNOMIAL) == Xor(2 * c, 0x864CFB) % 0x100_0000
  {
    hide Xor;
    Pow2Values();
    XorDivMod(2 * c, 0x864CFB, 24);
    XorConcat(1, 2 * e - 0x100_0000, 1, 0x864CFB, 24);
    XorSelf(1);
    ModSmall(0x864CFB, 0x100_0000);
  }

  /** Within 24 bits, the table's shifts are the reference's. */
  lemma {:induction false} TableStepsAreBitSteps(c: nat, n: nat)
    ensures BitSteps(c % 0x100_0000, n) == TableSteps(c, n) % 0x100_0000
  {
    if n > 0 {
      TableStepsAreBitSteps(c, n - 1);
      StepsAgree(TableSteps(c, n - 1));
    }
  }

  /** Clear high bits shift out without reduction. */
  lemma {:induction false} ShiftClear(x: nat, n: nat)
    requires n <= 8 && x < 0x1_0000
    ensures Pow(2, n) <= 0x100 && x * Pow(2, n) < 0x1_0000 * Pow(2, n) && TableSteps(x, n) == x * Pow(2, n)
  {
    hide Xor;
    Pow2Values();
    PowMonotone(2, n, 8);
    PowPositive(2, n);
    ScaleBelow(x, 0x1_0000, Pow(2, n));
    if n > 0 {
      ShiftClear(x, n - 1);
      DoubleScale(x, n);
      PowMonotone(2, n - 1, 7);
      XorZero(x * Pow(2, n));
    }
  }

  lemma ScaleBelow(x: int, y: int, m: int)
    requires m > 0 && x < y
    ensures x * m < y * m
  {
  }

  /** The reference step splits into the octet shifted out and the sixteen bits shifted up. */
  lemma OctetStepSplits(c: nat, hi: byte, lo: nat, b: byte)
    requires lo < 0x1_0000 && c == hi * 0x1_0000 + lo
    ensures var top: nat := XorByte(hi, b) * 0x1_0000;
      OctetStep(c, b) == Xor(TableSteps(top, 8), lo * 0x100) % 0x100_0000
  {
    hide Xor, TableSteps, BitSteps;
    Pow2Values();
    var top: nat := XorByte(hi, b) * 0x1_0000;
    XorConcat(hi, lo, b, 0, 16);
    XorZero(lo);
    XorDisjoint(XorByte(hi, b), lo, 16);
    var x := Xor(top, lo);
    assert x < 0x100_0000;
    TableStepsAreBitSteps(x, 8);
    TableStepsXor(top, lo, 8);
    ShiftClear(lo, 8);
  }

  lemma SwapParts(hi: byte, mid: byte, low: byte)
    ensures Swap(Word(low, mid, hi, 0)) == Word(hi, mid, low, 0)
    ensures Swap(Word(low, mid, hi, 0)) / 0x100 == Word(mid, low, 0, 0)
    ensures Swap(Word(low, mid, 0, 0) * 0x100) == Word(mid, low, 0, 0)
  {
    hide First, Second, Third;
    WordOctets(low, mid, hi, 0);
    WordOctets(hi, mid, low, 0);
    WordOctets(0, low, mid, 0);
    assert Word(low, mid, 0, 0) * 0x100 == Word(0, low, mid, 0);
  }

  lemma SwapLow24(c: nat)
    ensures Swap(c % 0x100_0000) == Swap(c)
  {
    hide First, Second, Third;
    var q, e := c / 0x100_0000, c % 0x100_0000;
    Decompose24(e);
    LowOctets(First(e), Second(e), Third(e), q);
  }

  lemma LowOctets(a: byte, b: byte, c: byte, q: nat)
    ensures var x := Word(a, b, c, 0) + q * 0x100_0000;
      First(x) == a && Second(x) == b && Third(x) == c
  {
    var b': nat, c': nat := b, c;
    var x := Word(a, b, c, 0) + q * 0x100_0000;
    Peel(q, c);
    Peel(q * 0x100 + c', b);
    Peel(q * 0x1_0000 + c' * 0x100 + b', a);
    Quotients(x);
  }

  /** The byte path is the reference step seen through the swap. */
  lemma FastOctetIsReference(c: nat, b: byte)
    requires c < 0x100_0000
    ensures FastOctet(Swap(c), b) == Swap(OctetStep(c, b))
    ensures OctetStep(c, b) < 0x100_0000
  {
    hide Xor, TableSteps, OctetStep, Swap, First, Second, Third, Fourth;
    var hi, mid, low := Third(c), Second(c), First(c);
    Decompose24(c);
    OctetStepSplits(c, hi, Word(low, mid, 0, 0), b);
    var a := XorByte(hi, b);
    var a': nat := a;
    var top, up := a' * 0x1_0000, Word(low, mid, 0, 0) * 0x100;
    SwapLow24(Xor(TableSteps(top, 8), up));
    SwapXor(TableSteps(top, 8), up);
    SwapParts(hi, mid, low);
    WordOctets(hi, mid, low, 0);
    XorComm(T0(a), Word(mid, low, 0, 0));
  }

  lemma Decompose24(c: nat)
    requires c < 0x100_0000
    ensures c == Word(First(c), Second(c), Third(c), 0)
  {
    Decompose(c);
    DivModUnique(c, 0x100_0000, 0, c);
    ModSmall(0, 0x100);
  }

  /** The register after a string of octets, by the byte path. */
  function Fast(crc: nat, data: seq<byte>): nat {
    if |data| == 0 then crc else FastOctet(Fast(crc, data[..|data| - 1]), data[|data| - 1])
  }

  /** For every string of octets, the fast register is the reference remainder, byte-swapped. */
  lemma {:induction false} FastIsReference(c: nat, data: seq<byte>)
    requires c < 0x100_0000
    ensures Fast(Swap(c), data) == Swap(Remainder(c, data))
    ensures Remainder(c, data) < 0x100_0000
  {
    hide FastOctet, OctetStep, Swap;
    if |data| > 0 {
      FastIsReference(c, data[..|data| - 1]);
      FastOctetIsReference(Remainder(c, data[..|data| - 1]), data[|data| - 1]);
    }
  }

  lemma {:induction false} FastAppend(crc: nat, a: seq<byte>, b: seq<byte>)
    ensures Fast(crc, a + b) == Fast(Fast(crc, a), b)
  {
    hide FastOctet;
    if |b| == 0 {
      assert a + b == a;
    } else {
      FastAppend(crc, a, b[..|b| - 1]);
      assert (a + b)[..|a + b| - 1] == a + b[..|b| - 1];
    }
  }

  lemma {:induction false} FastBound(crc: nat, data: seq<byte>)
    requires crc < 0x100_0000
    ensures Fast(crc, data) < 0x100_0000
  {
    hide T0, Xor;
    if |data| > 0 {
      var x := Fast(crc, data[..|data| - 1]);
      FastBound(crc, data[..|data| - 1]);
      Pow2Values();
      XorBound(x / 0x100, T0(XorByte(First(x), data[|data| - 1])), 24);
    }
  }

  lemma FastOne(crc: nat, s: seq<byte>, b: byte)
    ensures Fast(crc, s + [b]) == FastOctet(Fast(crc, s), b)
  {
    hide FastOctet;
    assert (s + [b])[..|s|] == s;
  }

  lemma FastFour(crc: nat, s: seq<byte>, b0: byte, b1: byte, b2: byte, b3: byte)
    requires crc < 0x100_0000
    ensures Fast(crc, s + [b0, b1, b2, b3]) == FastWord(Fast(crc, s), Word(b0, b1, b2, b3))
  {
    hide FastOctet, FastWord, Word;
    FastBound(crc, s);
    WordIsFourOctets(Fast(crc, s), b0, b1, b2, b3);
    FastOne(crc, s, b0);
    FastOne(crc, s + [b0], b1);
    FastOne(crc, s + [b0] + [b1], b2);
    FastOne(crc, s + [b0] + [b1] + [b2], b3);
    assert s + [b0, b1, b2, b3] == s + [b0] + [b1] + [b2] + [b3];
  }

  /** The four octets from i on go into the register as one word. */
  lemma NextWord(crc: nat, data: seq<byte>, i: nat)
    requires crc < 0x100_0000 && i + 4 <= |data|
    ensures Fast(crc, data[..i + 4])
         == FastWord(Fast(crc, data[..i]), Word(data[i], data[i + 1], data[i + 2], data[i + 3]))
  {
    hide Fast, FastWord, Word;
    FastFour(crc, data[..i], data[i], data[i + 1], data[i + 2], data[i + 3]);
    assert data[..i + 4] == data[..i] + [data[i], data[i + 1], data[i + 2], data[i + 3]];
  }

  lemma NextOctet(crc: nat, data: seq<byte>, i: nat)
    requires i < |data|
    ensures Fast(crc, data[..i + 1]) == FastOctet(Fast(crc, data[..i]), data[i])
  {
    hide Fast, FastOctet;
    FastOne(crc, data[..i], data[i]);
    assert data[..i + 1] == data[..i] + [data[i]];
  }

  lemma NoOctets(crc: nat, data: seq<byte>)
    ensures Fast(crc, data[..0]) == crc && data[..|data|] == data
  {
  }

  /** The polynomial of section 6.1 of RFC 4880, by its exponents. */
  lemma PolynomialIs()
    ensures POLYNOMIAL
         == Pow(2, 24) + Pow(2, 23) + Pow(2, 18) + Pow(2, 17) + Pow(2, 14) + Pow(2, 11) + Pow(2, 10) + Pow(2, 7)
            + Pow(2, 6) + Pow(2, 5) + Pow(2, 4) + Pow(2, 3) + Pow(2, 1) + Pow(2, 0)
  {
    Pow2Values();
    assert Pow(2, 3) == 2 * Pow(2, 2) && Pow(2, 5) == 2 * Pow(2, 4) && Pow(2, 6) == 2 * Pow(2, 5);
    assert Pow(2, 9) == 2 * Pow(2, 8) && Pow(2, 10) == 2 * Pow(2, 9) && Pow(2, 11) == 2 * Pow(2, 10);
    assert Pow(2, 12) == 2 * Pow(2, 11) && Pow(2, 13) == 2 * Pow(2, 12) && Pow(2, 14) == 2 * Pow(2, 13);
    assert Pow(2, 17) == 2 * Pow(2, 16) && Pow(2, 18) == 2 * Pow(2, 17);
  }

  /** The checksum of nothing is the initial value of section 6.1 of RFC 4880. */
  lemma EmptyChecksum()
    ensures Reference([]) == [0xB7, 0x04, 0xCE]
  {
    hide First, Second, Third;
    ThreeDigits(INIT);
    InitialOctets();
  }

  lemma InitialOctets()
    ensures Third(INIT) == 0xB7 && Second(INIT) == 0x04 && First(INIT) == 0xCE
  {
  }

  // ---------------------------------------------------------------- what the checksum is for

  /** Eight shifts of a register whose upper octet is clear. */
  lemma ShiftOctet(x: nat)
    requires x < 0x1_0000
    ensures BitSteps(x, 8) == x * 0x100
  {
    hide BitSteps, TableSteps;
    Pow2Values();
    ShiftClear(x, 8);
    TableStepsAreBitSteps(x, 8);
    ModSmall(x, 0x100_0000);
    ModSmall(x * 0x100, 0x100_0000);
  }

  /** An octet equal to the upper one of the register cancels it. */
  lemma CancelOctet(h: byte, rest: nat)
    requires rest < 0x1_0000
    ensures var v: nat := h; OctetStep(v * 0x1_0000 + rest, h) == rest * 0x100
  {
    hide Xor, BitSteps;
    var v: nat := h;
    Pow2Values();
    XorConcat(v, rest, v, 0, 16);
    XorSelf(v);
    XorZero(rest);
    ShiftOctet(rest);
  }

  /** Followed by its own checksum, a text has the remainder zero. */
  lemma ChecksumCancels(c: nat)
    requires c < 0x100_0000
    ensures Remainder(c, Digits(c, 3)) == 0
  {
    hide OctetStep, Digits, First, Second, Third;
    ThreeDigits(c);
    Decompose24(c);
    var h, m, l := Third(c), Second(c), First(c);
    var x: nat, y: nat, z: nat := h, m, l;
    assert c == x * 0x1_0000 + (y * 0x100 + z) by { hide First, Second, Third; assert c == Word(l, m, h, 0); }
    CancelOctet(h, y * 0x100 + z);
    CancelOctet(m, z * 0x100);
    CancelOctet(l, 0);
    RemainderThree(c, h, m, l);
  }

  lemma RemainderThree(c: nat, x: byte, y: byte, z: byte)
    ensures Remainder(c, [x, y, z]) == OctetStep(OctetStep(OctetStep(c, x), y), z)
  {
    hide OctetStep;
    RemainderOne(c, [], x);
    RemainderOne(c, [x], y);
    RemainderOne(c, [x, y], z);
    assert [] + [x] == [x] && [x] + [y] == [x, y] && [x, y] + [z] == [x, y, z];
  }

  lemma {:induction false} RemainderAppend(c: nat, a: seq<byte>, b: seq<byte>)
    ensures Remainder(c, a + b) == Remainder(Remainder(c, a), b)
  {
    hide OctetStep;
    if |b| == 0 {
      assert a + b == a;
    } else {
      RemainderAppend(c, a, b[..|b| - 1]);
      assert (a + b)[..|a + b| - 1] == a + b[..|b| - 1];
    }
  }

  /** So data and checksum together are verified by a remainder of zero. */
  lemma AppendedIsZero(data: seq<byte>)
    ensures Remainder(INIT, data + Reference(data)) == 0
  {
    hide Remainder, Digits;
    FastIsReference(INIT, data);
    ChecksumCancels(Remainder(INIT, data));
    RemainderAppend(INIT, data, Reference(data));
  }

  /** A shift can be undone: its lowest bit tells whether the polynomial was added. */
  lemma BitStepInjective(c: nat, d: nat)
    requires c < 0x100_0000 && d < 0x100_0000 && BitStep(c) == BitStep(d)
    ensures c == d
  {
    hide Xor;
    TopTaken(c);
    TopTaken(d);
    XorCancel(2 * c, POLYNOMIAL);
    XorCancel(2 * d, POLYNOMIAL);
  }

  lemma TopTaken(c: nat)
    requires c < 0x100_0000
    ensures BitStep(c) == if c >= 0x80_0000 then Xor(2 * c, POLYNOMIAL) else 2 * c
    ensures BitStep(c) % 2 == if c >= 0x80_0000 then 1 else 0
    ensures BitStep(c) < 0x100_0000
  {
    hide Xor;
    DivModUnique(2 * c, 2, c, 0);
    if c >= 0x80_0000 {
      DivModUnique(2 * c, 0x100_0000, 1, 2 * c - 0x100_0000);
      XorHalf(2 * c, POLYNOMIAL);
      Pow2Values();
      XorConcat(1, 2 * c - 0x100_0000, 1, POLYNOMIAL - 0x100_0000, 24);
      XorSelf(1);
      XorBound(2 * c - 0x100_0000, POLYNOMIAL - 0x100_0000, 24);
    } else {
      DivModUnique(2 * c, 0x100_0000, 0, 2 * c);
    }
  }

  lemma {:induction false} BitStepsInjective(c: nat, d: nat, n: nat)
    requires c < 0x100_0000 && d < 0x100_0000
    ensures BitSteps(c, n) < 0x100_0000 && BitSteps(d, n) < 0x100_0000
    ensures BitSteps(c, n) == BitSteps(d, n) ==> c == d
  {
    hide BitStep;
    if n > 0 {
      BitStepsInjective(c, d, n - 1);
      TopTaken(BitSteps(c, n - 1));
      TopTaken(BitSteps(d, n - 1));
      if BitSteps(c, n) == BitSteps(d, n) { BitStepInjective(BitSteps(c, n - 1), BitSteps(d, n - 1)); }
    }
  }

  /** An octet goes into the register without loss. */
  lemma OctetStepInjective(c: nat, d: nat, x: byte, y: byte)
    requires c < 0x100_0000 && d < 0x100_0000 && OctetStep(c, x) == OctetStep(d, y)
    ensures x == y ==> c == d
    ensures c == d ==> x == y
  {
    hide Xor, BitSteps;
    Pow2Values();
    var u: nat, v: nat := x, y;
    XorBound(c, u * 0x1_0000, 24);
    XorBound(d, v * 0x1_0000, 24);
    BitStepsInjective(Xor(c, u * 0x1_0000), Xor(d, v * 0x1_0000), 8);
    XorCancel(c, u * 0x1_0000);
    XorCancel(d, v * 0x1_0000);
    XorCancel(u * 0x1_0000, c);
    XorCancel(v * 0x1_0000, d);
  }

  lemma {:induction false} RemainderInjective(c: nat, d: nat, data: seq<byte>)
    requires c < 0x100_0000 && d < 0x100_0000
    ensures Remainder(c, data) < 0x100_0000 && Remainder(d, data) < 0x100_0000
    ensures Remainder(c, data) == Remainder(d, data) ==> c == d
  {
    hide OctetStep;
    FastIsReference(c, data);
    FastIsReference(d, data);
    if |data| > 0 {
      RemainderInjective(c, d, data[..|data| - 1]);
      if Remainder(c, data) == Remainder(d, data) {
        var b := data[|data| - 1];
        OctetStepInjective(Remainder(c, data[..|data| - 1]), Remainder(d, data[..|data| - 1]), b, b);
      }
    }
  }

  /** A single wrong octet, wherever it stands, changes the checksum. */
  lemma OneWrongOctetShows(a: seq<byte>, x: byte, y: byte, b: seq<byte>)
    requires x != y
    ensures Reference(a + [x] + b) != Reference(a + [y] + b)
  {
    hide Remainder, OctetStep, Digits;
    var c := Remainder(INIT, a);
    RemainderInjective(INIT, INIT, a);
    RemainderAppend(INIT, a + [x], b);
    RemainderAppend(INIT, a + [y], b);
    RemainderOne(INIT, a, x);
    RemainderOne(INIT, a, y);
    RemainderInjective(INIT, INIT, a + [x]);
    RemainderInjective(INIT, INIT, a + [y]);
    if OctetStep(c, x) == OctetStep(c, y) { OctetStepInjective(c, c, x, y); }
    RemainderInjective(OctetStep(c, x), OctetStep(c, y), b);
    Pow256Values();
    DigitsRoundTrip(Remainder(INIT, a + [x] + b), 3);
    DigitsRoundTrip(Remainder(INIT, a + [y] + b), 3);
  }

  lemma RemainderOne(c: nat, s: seq<byte>, b: byte)
    ensures Remainder(c, s + [b]) == OctetStep(Remainder(c, s), b)
  {
    hide OctetStep;
    assert (s + [b])[..|s|] == s;
  }

  // ---------------------------------------------------------------- the streaming computation

  /** A typed-array view: its octets, and where it starts in its buffer. */
  datatype View = View(byteOffset: nat, octets: seq<byte>)

  class Checksum {
    const tables: Tables
    const littleEndian: bool
    var crc: nat

    constructor (tables: Tables, littleEndian: bool)
      ensures this.tables == tables && this.littleEndian == littleEndian && crc == Swap(INIT)
    {
      this.tables := tables;
      this.littleEndian := littleEndian;
      InitSwapped();
      crc := 0xCE04B7;
    }

    /** Feed one chunk: words where the platform allows, then single octets. A word view has to be aligned. */
    method Process(value: View) returns (r: Result<()>)
      requires ValidTables(tables) && crc < 0x100_0000
      modifies this
      ensures r == if value.byteOffset % 4 != 0 then Err(MisalignedView) else Ok(())
      ensures crc == if r.Ok? then Fast(old(crc), value.octets) else old(crc)
    {
      hide Xor, T0, T1, T2, T3, First, Second, Third, Fourth, Word, Fast;
      var data := value.octets;
      if value.byteOffset % 4 != 0 { return Err(MisalignedView); }
      var len32 := if littleEndian then |data| / 4 else 0;
      ghost var start := crc;
      NoOctets(start, data);
      var i := 0;
      while i < len32
        invariant 0 <= i <= len32
        invariant crc == Fast(start, data[..4 * i])
      {
        NextWord(start, data, 4 * i);
        var x := Xor(crc, Word(data[4 * i], data[4 * i + 1], data[4 * i + 2], data[4 * i + 3]));
        crc := Xor(Xor(Xor(tables.t0[Fourth(x)], tables.t1[Third(x)]), tables.t2[Second(x)]), tables.t3[First(x)]);
        i := i + 1;
      }
      i := len32 * 4;
      while i < |data|
        invariant 0 <= i <= |data|
        invariant crc == Fast(start, data[..i])
      {
        NextOctet(start, data, i);
        crc := Xor(crc / 0x100, tables.t0[XorByte(First(crc), data[i])]);
        i := i + 1;
      }
      return Ok(());
    }

    method Finish() returns (out: seq<byte>)
      ensures out == [First(crc), Second(crc), Third(crc)]
    {
      out := [First(crc), Second(crc), Third(crc)];
    }
  }

  lemma InitSwapped()
    ensures Swap(INIT) == 0xCE04B7
  {
    assert Third(INIT) == 0xB7 && Second(INIT) == 0x04 && First(INIT) == 0xCE;
  }

  lemma SwappedOctets(c: nat)
    requires c < 0x100_0000
    ensures [First(Swap(c)), Second(Swap(c)), Third(Swap(c))] == Digits(c, 3)
  {
    hide First, Second, Third;
    WordOctets(Third(c), Second(c), First(c), 0);
    ThreeDigits(c);
  }

  lemma ThreeDigits(c: nat)
    ensures Digits(c, 3) == [Third(c), Second(c), First(c)]
  {
    assert Digits(c, 1 + 1 + 1) == Digits(c / 256, 1 + 1) + [c % 256];
    assert Digits(c / 256, 1 + 1) == Digits(c / 256 / 256, 1) + [c / 256 % 256];
    assert Digits(c / 256 / 256, 1) == Digits(c / 256 / 256 / 256, 0) + [c / 256 / 256 % 256];
    assert c / 256 / 256 == c / 0x1_0000;
  }

  function OctetsOf(chunks: seq<View>): (s: seq<seq<byte>>)
    ensures |s| == |chunks|
  {
    seq(|chunks|, i requires 0 <= i < |chunks| => chunks[i].octets)
  }

  /**
   The checksum of a stream is the reference CRC of its octets, however they are cut; it fails on a chunk that is
   not word-aligned.
   */
  method CreateCrc24(chunks: seq<View>, littleEndian: bool) returns (r: Result<seq<byte>>)
    ensures r.Ok? <==> forall i :: 0 <= i < |chunks| ==> chunks[i].byteOffset % 4 == 0
    ensures r.Ok? ==> r.value == Reference(Flatten(OctetsOf(chunks)))
  {
    hide Remainder, Swap, FastOctet;
    var tables := BuildTables();
    var state := new Checksum(tables, littleEndian);
    var i := 0;
    FlattenEmpty(OctetsOf(chunks));
    while i < |chunks|
      invariant 0 <= i <= |chunks|
      invariant fresh(state) && state.tables == tables
      invariant forall j :: 0 <= j < i ==> chunks[j].byteOffset % 4 == 0
      invariant state.crc == Fast(Swap(INIT), Flatten(OctetsOf(chunks)[..i]))
    {
      FastBound(Swap(INIT), Flatten(OctetsOf(chunks)[..i]));
      var o := state.Process(chunks[i]);
      if o.Err? { return Err(o.error); }
      FastAppend(Swap(INIT), Flatten(OctetsOf(chunks)[..i]), chunks[i].octets);
      FlattenPrefix(OctetsOf(chunks), i);
      i := i + 1;
    }
    assert OctetsOf(chunks)[..i] == OctetsOf(chunks);
    FastIsReference(INIT, Flatten(OctetsOf(chunks)));
    SwappedOctets(Remainder(INIT, Flatten(OctetsOf(chunks))));
    var out := state.Finish();
    return Ok(out);
  }
}
