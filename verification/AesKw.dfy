/** AES key wrap (section 2.2 of RFC 3394) and its exact inverse, over any block permutation. */
module AesKw {
  import opened NumberTheory
  import opened Bytes
  import opened Bits
  import opened BlockCiphers
  import opened Results

  type word = x: int | 0 <= x < 0x1_0000_0000

  // ---------------------------------------------------------------- words and octets

  /** Four octets per word, big-endian. */
  function Packed(w: seq<word>): (b: seq<byte>)
    ensures |b| == 4 * |w|
  {
    if |w| == 0 then [] else Packed(w[..|w| - 1]) + Digits(w[|w| - 1], 4)
  }

  function Unpacked(b: seq<byte>): (w: seq<word>)
    requires |b| % 4 == 0
    ensures |w| == |b| / 4
  {
    if |b| == 0 then []
    else
      ValueBound(b[|b| - 4..]);
      Pow256Values();
      Unpacked(b[..|b| - 4]) + [Value(b[|b| - 4..])]
  }

  lemma {:induction false} UnpackPacked(w: seq<word>)
    ensures Unpacked(Packed(w)) == w
  {
    hide Value;
    if |w| > 0 {
      var init, last := w[..|w| - 1], w[|w| - 1];
      UnpackPacked(init);
      Pow256Values();
      DigitsRoundTrip(last, 4);
      assert Packed(w)[..4 * |w| - 4] == Packed(init) && Packed(w)[4 * |w| - 4..] == Digits(last, 4);
      assert w == init + [last];
    }
  }

  lemma PackedEmpty()
    ensures Packed([]) == []
  {
  }

  lemma PackedSnoc(w: seq<word>, x: word)
    ensures Packed(w + [x]) == Packed(w) + Digits(x, 4)
  {
    assert (w + [x])[..|w|] == w;
  }

  lemma UnpackedSnoc(b: seq<byte>)
    requires |b| % 4 == 0 && |b| > 0
    ensures var init, last := b[..|b| - 4], b[|b| - 4..];
      Value(last) < 0x1_0000_0000 && Unpacked(b) == Unpacked(init) + [Value(last)] && b == init + last
  {
    hide Value;
    ValueBound(b[|b| - 4..]);
    Pow256Values();
  }

  lemma {:induction false} PackUnpacked(b: seq<byte>)
    requires |b| % 4 == 0
    ensures Packed(Unpacked(b)) == b
  {
    hide Value, Packed, Unpacked, Digits;
    if |b| > 0 {
      var init, last := b[..|b| - 4], b[|b| - 4..];
      PackUnpacked(init);
      UnpackedSnoc(b);
      DigitsOfValue(last);
      PackedSnoc(Unpacked(init), Value(last));
    } else {
      PackedEmpty();
      assert b == [] && Unpacked(b) == [];
    }
  }

  method Pack(w: seq<word>) returns (b: seq<byte>)
    ensures b == Packed(w)
  {
    b := [];
    var j := 0;
    assert w[..0] == [];
    while j < |w|
      invariant 0 <= j <= |w| && b == Packed(w[..j])
    {
      assert w[..j + 1][..j] == w[..j];
      b := b + Digits(w[j], 4);
      j := j + 1;
    }
    assert w[..j] == w;
  }

  lemma UnpackedStep(b: seq<byte>, i: nat)
    requires 4 * (i + 1) <= |b|
    ensures Value(b[4 * i..4 * i + 4]) < 0x1_0000_0000
    ensures Unpacked(b[..4 * (i + 1)]) == Unpacked(b[..4 * i]) + [Value(b[4 * i..4 * i + 4])]
  {
    hide Value;
    var c := b[..4 * (i + 1)];
    ValueBound(b[4 * i..4 * i + 4]);
    Pow256Values();
    assert c[..|c| - 4] == b[..4 * i] && c[|c| - 4..] == b[4 * i..4 * i + 4];
  }

  lemma UnpackedEmpty()
    ensures Unpacked([]) == []
  {
  }

  method Unpack(b: seq<byte>) returns (w: seq<word>)
    requires |b| % 4 == 0
    ensures w == Unpacked(b)
  {
    hide Unpacked, Value;
    w := [];
    var i := 0;
    assert b[..0] == [];
    UnpackedEmpty();
    while i < |b| / 4
      invariant 0 <= i <= |b| / 4 && w == Unpacked(b[..4 * i])
    {
      UnpackedStep(b, i);
      w := w + [Value(b[4 * i..4 * i + 4])];
      i := i + 1;
    }
    assert b[..4 * i] == b;
  }

  /** The cipher on blocks of four words. */
  ghost function Enciphered(c: BlockCipher, b: seq<word>): (r: seq<word>)
    requires Permutation(c) && |b| == 4
    ensures |r| == 4
  {
    CipherLength(c, Packed(b));
    Unpacked(c.encrypt(Packed(b)))
  }

  ghost function Deciphered(c: BlockCipher, b: seq<word>): (r: seq<word>)
    requires Permutation(c) && |b| == 4
    ensures |r| == 4
  {
    CipherLength(c, Packed(b));
    Unpacked(c.decrypt(Packed(b)))
  }

  lemma WordsInverse(c: BlockCipher, b: seq<word>)
    requires Permutation(c) && |b| == 4
    ensures Deciphered(c, Enciphered(c, b)) == b && Enciphered(c, Deciphered(c, b)) == b
  {
    CipherLength(c, Packed(b));
    PackUnpacked(c.encrypt(Packed(b)));
    PackUnpacked(c.decrypt(Packed(b)));
    UnpackPacked(b);
  }

  // ---------------------------------------------------------------- the steps

  /** The integrity register and the key data, two words per register. */
  datatype State = State(a: seq<word>, r: seq<word>)

  predicate Shaped(s: State, n: nat) { |s.a| == 2 && |s.r| == 2 * n }

  function XorWord(x: word, y: word): word {
    Pow2Values();
    XorBound(x, y, 32);
    Xor(x, y)
  }

  lemma XorWordCancel(x: word, y: word)
    ensures XorWord(XorWord(x, y), y) == x
  {
    hide Xor;
    XorCancel(x, y);
  }

  /** The step number, as the 32-bit word that is exclusive-ored into the register. */
  function Counter(k: nat): word { (k + 1) % 0x1_0000_0000 }

  /**
   Step k of wrapping, k counting from 0: encrypt the register with one half-block, then mark it with the step
   number.
   */
  ghost function Step(c: BlockCipher, n: nat, s: State, k: nat): (t: State)
    requires Permutation(c) && n > 0 && Shaped(s, n)
    ensures Shaped(t, n)
  {
    var i := k % n;
    var b := Enciphered(c, s.a + s.r[2 * i..2 * i + 2]);
    State([b[0], XorWord(b[1], Counter(k))], s.r[..2 * i] + b[2..] + s.r[2 * i + 2..])
  }

  /** The step undone. */
  ghost function Unstep(c: BlockCipher, n: nat, s: State, k: nat): (t: State)
    requires Permutation(c) && n > 0 && Shaped(s, n)
    ensures Shaped(t, n)
  {
    var i := k % n;
    var b := Deciphered(c, [s.a[0], XorWord(s.a[1], Counter(k))] + s.r[2 * i..2 * i + 2]);
    State(b[..2], s.r[..2 * i] + b[2..] + s.r[2 * i + 2..])
  }

  /** Steps 0 to k - 1. */
  ghost function Steps(c: BlockCipher, n: nat, s: State, k: nat): (t: State)
    requires Permutation(c) && n > 0 && Shaped(s, n)
    ensures Shaped(t, n)
    decreases k
  {
    if k == 0 then s else Step(c, n, Steps(c, n, s, k - 1), k - 1)
  }

  /** Steps k - 1 down to 0, undone. */
  ghost function Unsteps(c: BlockCipher, n: nat, s: State, k: nat): (t: State)
    requires Permutation(c) && n > 0 && Shaped(s, n)
    ensures Shaped(t, n)
    decreases k
  {
    if k == 0 then s else Unsteps(c, n, Unstep(c, n, s, k - 1), k - 1)
  }

  /** Replacing two entries touches nothing else. */
  lemma Replaced<T>(r: seq<T>, i: nat, x: seq<T>)
    requires i + 2 <= |r| && |x| == 2
    ensures var t := r[..i] + x + r[i + 2..];
      && |t| == |r| && t[i..i + 2] == x
      && t[..i] + r[i..i + 2] + t[i + 2..] == r
  {
  }

  lemma Halves<T>(x: seq<T>, y: seq<T>, b: seq<T>)
    requires |x| == 2 && |b| == 4
    ensures (x + y)[..2] == x && (x + y)[2..] == y && [b[0], b[1]] == b[..2] && b[..2] + b[2..] == b
  {
  }

  lemma UnstepStep(c: BlockCipher, n: nat, s: State, k: nat)
    requires Permutation(c) && n > 0 && Shaped(s, n)
    ensures Unstep(c, n, Step(c, n, s, k), k) == s
  {
    hide Permutation, Enciphered, Deciphered, XorWord, Unpacked, Packed;
    var i := k % n;
    var y := s.r[2 * i..2 * i + 2];
    var x := s.a + y;
    var b := Enciphered(c, x);
    XorWordCancel(b[1], Counter(k));
    WordsInverse(c, x);
    Halves(s.a, y, b);
    Replaced(s.r, 2 * i, b[2..]);
  }

  lemma StepUnstep(c: BlockCipher, n: nat, s: State, k: nat)
    requires Permutation(c) && n > 0 && Shaped(s, n)
    ensures Step(c, n, Unstep(c, n, s, k), k) == s
  {
    hide Permutation, Enciphered, Deciphered, XorWord, Unpacked, Packed;
    var i := k % n;
    var y := s.r[2 * i..2 * i + 2];
    var a := [s.a[0], XorWord(s.a[1], Counter(k))];
    var b := Deciphered(c, a + y);
    WordsInverse(c, a + y);
    XorWordCancel(s.a[1], Counter(k));
    Halves(a, y, b);
    Replaced(s.r, 2 * i, b[2..]);
    assert s.a == [s.a[0], s.a[1]];
  }

  lemma {:induction false} UnstepsSteps(c: BlockCipher, n: nat, s: State, k: nat)
    requires Permutation(c) && n > 0 && Shaped(s, n)
    ensures Unsteps(c, n, Steps(c, n, s, k), k) == s
    decreases k
  {
    hide Step, Unstep, Permutation;
    if k > 0 {
      UnstepStep(c, n, Steps(c, n, s, k - 1), k - 1);
      UnstepsSteps(c, n, s, k - 1);
    }
  }

  lemma {:induction false} StepsUnsteps(c: BlockCipher, n: nat, s: State, k: nat)
    requires Permutation(c) && n > 0 && Shaped(s, n)
    ensures Steps(c, n, Unsteps(c, n, s, k), k) == s
    decreases k
  {
    hide Step, Unstep, Permutation;
    if k > 0 {
      StepsUnsteps(c, n, Unstep(c, n, s, k - 1), k - 1);
      StepUnstep(c, n, s, k - 1);
    }
  }

  // ---------------------------------------------------------------- wrapping

  const IV: seq<word> := [0xA6A6A6A6, 0xA6A6A6A6]

  ghost function AllSteps(c: BlockCipher, n: nat, s: State): (t: State)
    requires Permutation(c) && Shaped(s, n)
    ensures Shaped(t, n)
  {
    if n == 0 then s else Steps(c, n, s, 6 * n)
  }

  ghost function AllUnsteps(c: BlockCipher, n: nat, s: State): (t: State)
    requires Permutation(c) && Shaped(s, n)
    ensures Shaped(t, n)
  {
    if n == 0 then s else Unsteps(c, n, s, 6 * n)
  }

  lemma HalfBlocks(k: nat)
    requires k % 8 == 0
    ensures k % 4 == 0 && k / 4 == 2 * (k / 8)
  {
  }

  /** Wrapping on words: the initial value in front, all steps. */
  ghost function WrappedWords(c: BlockCipher, n: nat, p: seq<word>): (w: seq<word>)
    requires Permutation(c) && |p| == 2 * n
    ensures |w| == 2 * n + 2
  {
    var t := AllSteps(c, n, State(IV, p));
    t.a + t.r
  }

  /** Unwrapping on words, before the integrity check. */
  ghost function UnwrappedState(c: BlockCipher, n: nat, w: seq<word>): (t: State)
    requires Permutation(c) && |w| == 2 * n + 2
    ensures Shaped(t, n)
  {
    AllUnsteps(c, n, State(w[..2], w[2..]))
  }

  lemma WordsIff(c: BlockCipher, n: nat, w: seq<word>, p: seq<word>)
    requires Permutation(c) && |w| == 2 * n + 2 && |p| == 2 * n
    ensures UnwrappedState(c, n, w) == State(IV, p) <==> WrappedWords(c, n, p) == w
  {
    hide Permutation, Steps, Unsteps;
    var s := State(w[..2], w[2..]);
    var t := State(IV, p);
    assert w == s.a + s.r;
    if n > 0 {
      StepsUnsteps(c, n, s, 6 * n);
      UnstepsSteps(c, n, t, 6 * n);
    }
    var u := AllSteps(c, n, t);
    assert (u.a + u.r)[..2] == u.a && (u.a + u.r)[2..] == u.r;
  }

  /** The wrapped form of a string of half-blocks. */
  ghost function Wrapped(c: BlockCipher, data: seq<byte>): (r: seq<byte>)
    requires Permutation(c) && |data| % 8 == 0
    ensures |r| == |data| + 8
  {
    HalfBlocks(|data|);
    Packed(WrappedWords(c, |data| / 8, Unpacked(data)))
  }

  /** The key data, if the integrity register comes back to its initial value. */
  ghost function Unwrapped(c: BlockCipher, data: seq<byte>): Result<seq<byte>>
    requires Permutation(c) && |data| % 8 == 0 && |data| >= 8
  {
    HalfBlocks(|data|);
    var t := UnwrappedState(c, |data| / 8 - 1, Unpacked(data));
    if t.a == IV then Ok(Packed(t.r)) else Err(IntegrityFailed)
  }

  /** Unwrapping gives P exactly for the string that wraps P. */
  lemma UnwrapIffWrap(c: BlockCipher, data: seq<byte>, p: seq<byte>)
    requires Permutation(c) && |data| % 8 == 0 && |data| >= 8 && |p| % 8 == 0
    ensures Unwrapped(c, data) == Ok(p) <==> Wrapped(c, p) == data
  {
    hide Permutation, WrappedWords, UnwrappedState, Packed, Unpacked;
    HalfBlocks(|data|);
    HalfBlocks(|p|);
    var n, w := |data| / 8 - 1, Unpacked(data);
    var t := UnwrappedState(c, n, w);
    PackUnpacked(data);
    PackUnpacked(p);
    UnpackPacked(t.r);
    if |p| == 8 * n {
      var u := WrappedWords(c, n, Unpacked(p));
      UnpackPacked(u);
      WordsIff(c, n, w, Unpacked(p));
    }
  }

  lemma UnwrapWrapped(c: BlockCipher, p: seq<byte>)
    requires Permutation(c) && |p| % 8 == 0
    ensures |Wrapped(c, p)| % 8 == 0
    ensures Unwrapped(c, Wrapped(c, p)) == Ok(p)
  {
    hide Permutation, Wrapped, Unwrapped;
    UnwrapIffWrap(c, Wrapped(c, p), p);
  }

  // ---------------------------------------------------------------- the steps as a shift register

  /** A step on registers that are shifted, so that the half-block to encrypt always comes first. */
  ghost function ShiftStep(c: BlockCipher, s: State, t: word): (u: State)
    requires Permutation(c) && |s.a| == 2 && |s.r| >= 2
    ensures |u.a| == 2 && |u.r| == |s.r|
  {
    var b := Enciphered(c, s.a + s.r[..2]);
    State([b[0], XorWord(b[1], t)], s.r[2..] + b[2..])
  }

  /** Steps 1 to k of section 2.2.1 of RFC 3394, in its version with shifts. */
  ghost function ShiftSteps(c: BlockCipher, s: State, k: nat): (u: State)
    requires Permutation(c) && |s.a| == 2 && |s.r| >= 2
    ensures |u.a| == 2 && |u.r| == |s.r|
    decreases k
  {
    if k == 0 then s else ShiftStep(c, ShiftSteps(c, s, k - 1), k % 0x1_0000_0000)
  }

  function Rotated(r: seq<word>, i: nat): seq<word>
    requires i <= |r|
  {
    r[i..] + r[..i]
  }

  lemma NextIndex(k: nat, n: nat)
    requires n > 0
    ensures (k + 1) % n == if k % n + 1 == n then 0 else k % n + 1
  {
    var q, i := k / n, k % n;
    assert k == n * q + i;
    if i + 1 == n {
      assert k + 1 == (q + 1) * n by { Distribute(n, q, 1); }
      DivModUnique(k + 1, n, q + 1, 0);
    } else {
      DivModUnique(k + 1, n, q, i + 1);
    }
  }

  /** Replacing the half-block at i is shifting it out and the new one in. */
  lemma ShiftedIn(r: seq<word>, i: nat, x: seq<word>, n: nat)
    requires |r| == 2 * n && i < n && |x| == 2
    ensures var t := r[..2 * i] + x + r[2 * i + 2..];
      && Rotated(r, 2 * i)[..2] == r[2 * i..2 * i + 2]
      && Rotated(r, 2 * i)[2..] + x == if i + 1 == n then t else Rotated(t, 2 * (i + 1))
  {
    var t := r[..2 * i] + x + r[2 * i + 2..];
    assert Rotated(r, 2 * i)[2..] == r[2 * i + 2..] + r[..2 * i];
    if i + 1 == n { assert r[2 * i + 2..] == []; }
    assert t[2 * i + 2..] == r[2 * i + 2..] && t[..2 * i + 2] == r[..2 * i] + x;
  }

  lemma {:induction false} StepsAreShifts(c: BlockCipher, n: nat, s: State, k: nat)
    requires Permutation(c) && n > 0 && Shaped(s, n)
    ensures var t, u := Steps(c, n, s, k), ShiftSteps(c, s, k);
      2 * (k % n) <= |t.r| && u.a == t.a && u.r == Rotated(t.r, 2 * (k % n))
    decreases k
  {
    hide Permutation, Step, ShiftStep, Rotated;
    if k == 0 {
      ModSmall(0, n);
      RotatedByNothing(s.r);
    } else {
      StepsAreShifts(c, n, s, k - 1);
      StepIsShift(c, n, Steps(c, n, s, k - 1), ShiftSteps(c, s, k - 1), k - 1);
    }
  }

  lemma StepIsShift(c: BlockCipher, n: nat, t: State, u: State, k: nat)
    requires Permutation(c) && n > 0 && Shaped(t, n) && |u.r| == |t.r|
    requires 2 * (k % n) <= |t.r| && u.a == t.a && u.r == Rotated(t.r, 2 * (k % n))
    ensures var t', u' := Step(c, n, t, k), ShiftStep(c, u, Counter(k));
      2 * ((k + 1) % n) <= |t'.r| && u'.a == t'.a && u'.r == Rotated(t'.r, 2 * ((k + 1) % n))
  {
    hide Permutation, Enciphered, XorWord, Rotated, Counter;
    var i := k % n;
    NextIndex(k, n);
    var b := Enciphered(c, t.a + t.r[2 * i..2 * i + 2]);
    ShiftedIn(t.r, i, b[2..], n);
    RotatedByNothing(Step(c, n, t, k).r);
  }

  lemma RotatedByNothing(r: seq<word>)
    ensures Rotated(r, 0) == r
  {
  }

  /** The version with indices computes what the version with shifts does. */
  lemma ShiftRegisterForm(c: BlockCipher, n: nat, s: State)
    requires Permutation(c) && n > 0 && Shaped(s, n)
    ensures AllSteps(c, n, s) == ShiftSteps(c, s, 6 * n)
  {
    hide Permutation, Steps, ShiftSteps;
    StepsAreShifts(c, n, s, 6 * n);
    DivModUnique(6 * n, n, 6, 0);
    RotatedByNothing(Steps(c, n, s, 6 * n).r);
  }

  // ---------------------------------------------------------------- what the step numbers add up to

  function Unchanged(b: seq<byte>): seq<byte> { b }

  /** The cipher that does nothing. */
  const IDENTITY := BlockCipher(Unchanged, Unchanged)

  lemma IdentityPermutes()
    ensures Permutation(IDENTITY)
  {
  }

  lemma IdentityWords(b: seq<word>)
    requires |b| == 4
    ensures Permutation(IDENTITY) && Enciphered(IDENTITY, b) == b
  {
    UnpackPacked(b);
  }

  /** The numbers from 1 to m exclusive-ored together. */
  function NumbersMixed(m: nat): nat {
    if m % 4 == 0 then m else if m % 4 == 1 then 1 else if m % 4 == 2 then m + 1 else 0
  }

  lemma NextMixed(m: nat)
    ensures Xor(NumbersMixed(m), m + 1) == NumbersMixed(m + 1)
  {
    hide Xor;
    var h := m / 2;
    if m % 4 == 0 {
      XorTwice(h, 0, h, 1);
      XorSelf(h);
      assert m == 2 * h && m + 1 == 2 * h + 1;
    } else if m % 4 == 1 {
      XorTwice(0, 1, h + 1, 0);
      XorZero(h + 1);
      assert m + 1 == 2 * (h + 1);
    } else if m % 4 == 2 {
      XorSelf(m + 1);
    } else {
      XorZero(m + 1);
    }
  }

  lemma {:induction false} IdentitySteps(n: nat, s: State, k: nat)
    requires n > 0 && Shaped(s, n) && k <= 0xffff_fffe
    ensures Permutation(IDENTITY) && NumbersMixed(k) < 0x1_0000_0000
    ensures Steps(IDENTITY, n, s, k) == State([s.a[0], XorWord(s.a[1], NumbersMixed(k))], s.r)
    decreases k
  {
    hide XorWord, Enciphered, Step, Permutation;
    IdentityPermutes();
    if k == 0 {
      XorWordZero(s.a[1]);
      assert s.a == [s.a[0], s.a[1]];
    } else {
      IdentitySteps(n, s, k - 1);
      IdentityStep(n, [s.a[0], XorWord(s.a[1], NumbersMixed(k - 1))], s.r, k - 1);
      NextMixed(k - 1);
      ModSmall(k, 0x1_0000_0000);
      XorWordTogether(s.a[1], NumbersMixed(k - 1), k);
    }
  }

  lemma IdentityStep(n: nat, a: seq<word>, r: seq<word>, k: nat)
    requires n > 0 && |a| == 2 && |r| == 2 * n
    ensures Permutation(IDENTITY)
    ensures Step(IDENTITY, n, State(a, r), k) == State([a[0], XorWord(a[1], Counter(k))], r)
  {
    hide XorWord, Enciphered, Permutation, Counter;
    var i := k % n;
    var b := a + r[2 * i..2 * i + 2];
    IdentityWords(b);
    assert b[2..] == r[2 * i..2 * i + 2] && r == r[..2 * i] + b[2..] + r[2 * i + 2..];
  }

  lemma XorWordZero(x: word)
    ensures XorWord(x, 0) == x
  {
    XorZero(x);
  }

  lemma XorWordTogether(x: word, y: word, z: word)
    ensures XorWord(XorWord(x, y), z) == XorWord(x, XorWord(y, z)) && XorWord(y, z) == Xor(y, z)
  {
    hide Xor;
    XorAssoc(x, y, z);
  }

  /** Wrapped with the cipher that does nothing, the register holds the numbers 1 to 6n, and the key is as it was. */
  lemma NumbersAreUsed(n: nat, p: seq<word>)
    requires n > 0 && 6 * n <= 0xffff_fffe && |p| == 2 * n
    ensures Permutation(IDENTITY) && 6 * n + 1 < 0x1_0000_0000
    ensures WrappedWords(IDENTITY, n, p) == [IV[0], XorWord(IV[1], if n % 2 == 0 then 6 * n else 6 * n + 1)] + p
  {
    hide XorWord, Steps;
    IdentitySteps(n, State(IV, p), 6 * n);
    if n % 2 == 0 { DivModUnique(6 * n, 4, 3 * (n / 2), 0); } else { DivModUnique(6 * n, 4, 3 * (n / 2) + 1, 2); }
  }

  // ---------------------------------------------------------------- the loops, on any number of words

  /** A word of the typed array; a read beyond its end gives undefined, which is stored as zero. */
  function WordAt(r: seq<word>, i: nat): word { if i < |r| then r[i] else 0 }

  /** Two stores at a place; the second is lost if it lies beyond the end. */
  function Stored(r: seq<word>, i: nat, x: word, y: word): (t: seq<word>)
    requires i < |r|
    ensures |t| == |r|
  {
    var u := r[i := x];
    if i + 1 < |r| then u[i + 1 := y] else u
  }

  /** The number of the turn at word w of round j, counting from 0, as m / 2 half-blocks go into a round. */
  function TurnNumber(m: nat, j: nat, w: nat): nat {
    MulNonNeg(m, j);
    (m * j + w) / 2
  }

  /** One turn of wrapping, on the words from w on. */
  ghost function WrapTurn(c: BlockCipher, s: State, j: nat, w: nat): (t: State)
    requires Permutation(c) && |s.a| == 2 && w < |s.r|
    ensures |t.a| == 2 && |t.r| == |s.r|
  {
    var e := Enciphered(c, s.a + [s.r[w], WordAt(s.r, w + 1)]);
    State([e[0], XorWord(e[1], Counter(TurnNumber(|s.r|, j, w)))], Stored(s.r, w, e[2], e[3]))
  }

  /** The first i turns of round j. */
  ghost function WrapRound(c: BlockCipher, s: State, j: nat, i: nat): (t: State)
    requires Permutation(c) && |s.a| == 2 && 2 * i <= |s.r| + 1
    ensures |t.a| == 2 && |t.r| == |s.r|
    decreases i
  {
    if i == 0 then s else WrapTurn(c, WrapRound(c, s, j, i - 1), j, 2 * (i - 1))
  }

  /** The first j rounds; a word without a partner has a turn too. */
  ghost function WrapRounds(c: BlockCipher, s: State, j: nat): (t: State)
    requires Permutation(c) && |s.a| == 2
    ensures |t.a| == 2 && |t.r| == |s.r|
    decreases j
  {
    if j == 0 then s else WrapRound(c, WrapRounds(c, s, j - 1), j - 1, (|s.r| + 1) / 2)
  }

  /** One turn of unwrapping, on the two words from w on. */
  ghost function UnwrapTurn(c: BlockCipher, s: State, j: nat, w: nat): (t: State)
    requires Permutation(c) && |s.a| == 2 && w + 2 <= |s.r|
    ensures |t.a| == 2 && |t.r| == |s.r|
  {
    var marked := [s.a[0], XorWord(s.a[1], Counter(TurnNumber(|s.r|, j, w)))];
    var e := Deciphered(c, marked + [s.r[w], s.r[w + 1]]);
    State(e[..2], Stored(s.r, w, e[2], e[3]))
  }

  /** The first k turns of round j, which start at the last two words. */
  ghost function UnwrapRound(c: BlockCipher, s: State, j: nat, k: nat): (t: State)
    requires Permutation(c) && |s.a| == 2 && 2 * k <= |s.r|
    ensures |t.a| == 2 && |t.r| == |s.r|
    decreases k
  {
    if k == 0 then s else UnwrapTurn(c, UnwrapRound(c, s, j, k - 1), j, |s.r| - 2 * k)
  }

  /** The first k rounds, from round 5 down. */
  ghost function UnwrapRounds(c: BlockCipher, s: State, k: nat): (t: State)
    requires Permutation(c) && |s.a| == 2 && k <= 6
    ensures |t.a| == 2 && |t.r| == |s.r|
    decreases k
  {
    if k == 0 then s else UnwrapRound(c, UnwrapRounds(c, s, k - 1), 6 - k, |s.r| / 2)
  }

  /** The wrapped words of any number of words. */
  ghost function LoopedWords(c: BlockCipher, w: seq<word>): (r: seq<word>)
    requires Permutation(c)
    ensures |r| == 2 + |w|
  {
    var t := WrapRounds(c, State(IV, w), 6);
    t.a + t.r
  }

  lemma EightMore(k: nat)
    requires k % 4 == 0
    ensures (k + 8) % 4 == 0 && 4 * (2 + k / 4) == k + 8
  {
  }

  /** The wrapped form of data that is any number of words. */
  ghost function WrappedData(c: BlockCipher, data: seq<byte>): (r: seq<byte>)
    requires Permutation(c) && |data| % 4 == 0
    ensures |r| == |data| + 8 && |r| % 4 == 0
  {
    EightMore(|data|);
    Packed(LoopedWords(c, Unpacked(data)))
  }

  /** What unwrapping makes of any number of words; fewer than two cannot match the initial value. */
  ghost function UnwrappedData(c: BlockCipher, data: seq<byte>): (r: Result<seq<byte>>)
    requires Permutation(c) && |data| % 4 == 0
    ensures if r.Ok? then |r.value| + 8 == |data| else r.error == IntegrityFailed
  {
    if |data| < 8 then Err(IntegrityFailed)
    else
      var w := Unpacked(data);
      var t := UnwrapRounds(c, State(w[..2], w[2..]), 6);
      if t.a == IV then Ok(Packed(t.r)) else Err(IntegrityFailed)
  }

  // ---------------------------------------------------------------- even numbers of words: the standard's steps

  /** The number of the first step of round j. */
  function Start(n: nat, j: nat): nat {
    MulNonNeg(n, j);
    n * j
  }

  lemma StartNext(n: nat, j: nat)
    ensures Start(n, 0) == 0 && Start(n, j + 1) == Start(n, j) + n && Start(n, 6) == 6 * n
  {
  }

  lemma IndexOfStep(n: nat, j: nat, i: nat)
    requires i < n
    ensures (Start(n, j) + i) % n == i && TurnNumber(2 * n, j, 2 * i) == Start(n, j) + i
  {
    DivModUnique(n * j + i, n, j, i);
    MulRegroup(2, n, 1, j);
    DivModUnique(2 * (n * j) + 2 * i, 2, n * j + i, 0);
  }

  lemma StoredIs(r: seq<word>, i: nat, e: seq<word>)
    requires i + 2 <= |r| && |e| == 4
    ensures Stored(r, i, e[2], e[3]) == r[..i] + e[2..] + r[i + 2..]
    ensures [r[i], r[i + 1]] == r[i..i + 2]
  {
  }

  lemma TurnIsStep(c: BlockCipher, n: nat, s: State, j: nat, i: nat)
    requires Permutation(c) && Shaped(s, n) && i < n
    ensures WrapTurn(c, s, j, 2 * i) == Step(c, n, s, Start(n, j) + i)
  {
    hide Permutation, Enciphered, Deciphered, Stored, XorWord, Counter, TurnNumber, Start;
    IndexOfStep(n, j, i);
    StoredIs(s.r, 2 * i, Enciphered(c, s.a + s.r[2 * i..2 * i + 2]));
  }

  lemma TurnIsUnstep(c: BlockCipher, n: nat, s: State, j: nat, i: nat)
    requires Permutation(c) && Shaped(s, n) && i < n
    ensures UnwrapTurn(c, s, j, 2 * i) == Unstep(c, n, s, Start(n, j) + i)
  {
    hide Permutation, Enciphered, Deciphered, Stored, XorWord, Counter, TurnNumber, Start;
    IndexOfStep(n, j, i);
    var marked := [s.a[0], XorWord(s.a[1], Counter(Start(n, j) + i))];
    StoredIs(s.r, 2 * i, Deciphered(c, marked + s.r[2 * i..2 * i + 2]));
  }

  lemma {:induction false} RoundIsSteps(c: BlockCipher, n: nat, first: State, j: nat, i: nat)
    requires Permutation(c) && n > 0 && Shaped(first, n) && i <= n
    ensures WrapRound(c, Steps(c, n, first, Start(n, j)), j, i) == Steps(c, n, first, Start(n, j) + i)
    decreases i
  {
    hide Permutation, WrapTurn, Step, Start;
    if i > 0 {
      RoundIsSteps(c, n, first, j, i - 1);
      TurnIsStep(c, n, Steps(c, n, first, Start(n, j) + i - 1), j, i - 1);
    }
  }

  lemma {:induction false} RoundsAreSteps(c: BlockCipher, n: nat, first: State, j: nat)
    requires Permutation(c) && n > 0 && Shaped(first, n)
    ensures WrapRounds(c, first, j) == Steps(c, n, first, Start(n, j))
    decreases j
  {
    hide Permutation, WrapRound, Start, Step;
    StartNext(n, 0);
    if j > 0 {
      RoundsAreSteps(c, n, first, j - 1);
      RoundIsSteps(c, n, first, j - 1, n);
      StartNext(n, j - 1);
      assert (|first.r| + 1) / 2 == n;
    }
  }

  lemma {:induction false} RoundIsUnsteps(c: BlockCipher, n: nat, s: State, j: nat, k: nat)
    requires Permutation(c) && n > 0 && Shaped(s, n) && k <= n
    ensures Unsteps(c, n, s, Start(n, j) + n) == Unsteps(c, n, UnwrapRound(c, s, j, k), Start(n, j) + (n - k))
    decreases k
  {
    hide Permutation, UnwrapTurn, Unstep, Start;
    if k > 0 {
      RoundIsUnsteps(c, n, s, j, k - 1);
      TurnIsUnstep(c, n, UnwrapRound(c, s, j, k - 1), j, n - k);
    }
  }

  lemma {:induction false} RoundsAreUnsteps(c: BlockCipher, n: nat, s: State, k: nat)
    requires Permutation(c) && n > 0 && Shaped(s, n) && k <= 6
    ensures Unsteps(c, n, s, Start(n, 6)) == Unsteps(c, n, UnwrapRounds(c, s, k), Start(n, 6 - k))
    decreases k
  {
    hide Permutation, UnwrapRound, Start, Unstep;
    if k > 0 {
      RoundsAreUnsteps(c, n, s, k - 1);
      RoundIsUnsteps(c, n, UnwrapRounds(c, s, k - 1), 6 - k, n);
      StartNext(n, 6 - k);
      assert |s.r| / 2 == n;
    }
  }

  /** On an even number of words the loops are the steps of the standard. */
  lemma LoopsAreSteps(c: BlockCipher, n: nat, s: State)
    requires Permutation(c) && Shaped(s, n)
    ensures WrapRounds(c, s, 6) == AllSteps(c, n, s) && UnwrapRounds(c, s, 6) == AllUnsteps(c, n, s)
  {
    hide Permutation, WrapRounds, UnwrapRounds, Start, Step, Unstep;
    if n > 0 {
      RoundsAreSteps(c, n, s, 6);
      RoundsAreUnsteps(c, n, s, 6);
      StartNext(n, 0);
    } else {
      NoWords(c, s, 6);
    }
  }

  lemma {:induction false} NoWords(c: BlockCipher, s: State, j: nat)
    requires Permutation(c) && |s.a| == 2 && |s.r| == 0 && j <= 6
    ensures WrapRounds(c, s, j) == s == UnwrapRounds(c, s, j)
    decreases j
  {
    hide Permutation;
    if j > 0 {
      NoWords(c, s, j - 1);
      assert WrapRound(c, s, j - 1, 0) == s == UnwrapRound(c, s, 6 - j, 0);
    }
  }

  lemma WrappedDataIs(c: BlockCipher, data: seq<byte>)
    requires Permutation(c) && |data| % 8 == 0
    ensures (HalfBlocks(|data|); WrappedData(c, data) == Wrapped(c, data))
  {
    hide Permutation, AllSteps, WrapRounds, UnwrapRounds, Packed, Unpacked;
    HalfBlocks(|data|);
    LoopsAreSteps(c, |data| / 8, State(IV, Unpacked(data)));
  }

  lemma UnwrappedDataIs(c: BlockCipher, data: seq<byte>)
    requires Permutation(c) && |data| % 8 == 0 && |data| >= 8
    ensures (HalfBlocks(|data|); UnwrappedData(c, data) == Unwrapped(c, data))
  {
    hide Permutation, AllUnsteps, WrapRounds, UnwrapRounds, Packed, Unpacked;
    HalfBlocks(|data|);
    LoopsAreSteps(c, |data| / 8 - 1, State(Unpacked(data)[..2], Unpacked(data)[2..]));
  }

  // ---------------------------------------------------------------- odd numbers of words

  /** Exchange the last two of four words. */
  function Exchanged(b: seq<byte>): seq<byte> {
    if |b| == 16 then b[..8] + b[12..] + b[8..12] else b
  }

  /** A block permutation that is its own inverse. */
  const EXCHANGE := BlockCipher(Exchanged, Exchanged)

  lemma ExchangePermutes()
    ensures Permutation(EXCHANGE)
  {
    hide Exchanged;
    forall b: seq<byte> | |b| == 16
      ensures |Exchanged(b)| == 16 && Exchanged(Exchanged(b)) == b
    {
      ExchangedTwice(b);
    }
  }

  lemma ExchangedTwice(b: seq<byte>)
    requires |b| == 16
    ensures |Exchanged(b)| == 16 && Exchanged(Exchanged(b)) == b
  {
    var x, y, z := b[..8], b[8..12], b[12..];
    var e := Exchanged(b);
    assert e[..8] == x && e[8..12] == z && e[12..] == y;
    assert b == x + y + z;
  }

  lemma PackedFour(x: word, y: word, z: word, w: word)
    ensures Packed([x, y, z, w]) == Digits(x, 4) + Digits(y, 4) + Digits(z, 4) + Digits(w, 4)
  {
    hide Packed, Digits;
    PackedEmpty();
    PackedSnoc([], x);
    PackedSnoc([x], y);
    PackedSnoc([x, y], z);
    PackedSnoc([x, y, z], w);
    assert [] + [x] == [x] && [x] + [y] == [x, y] && [x, y] + [z] == [x, y, z] && [x, y, z] + [w] == [x, y, z, w];
    assert [] + Digits(x, 4) == Digits(x, 4);
  }

  lemma ExchangeWords(x: word, y: word, z: word, w: word)
    ensures Permutation(EXCHANGE) && Enciphered(EXCHANGE, [x, y, z, w]) == [x, y, w, z]
  {
    hide Packed, Unpacked, Digits, Permutation;
    ExchangePermutes();
    PackedFour(x, y, z, w);
    PackedFour(x, y, w, z);
    var b := Packed([x, y, z, w]);
    assert b[..8] == Digits(x, 4) + Digits(y, 4) && b[8..12] == Digits(z, 4) && b[12..] == Digits(w, 4);
    assert Exchanged(b) == Packed([x, y, w, z]);
    UnpackPacked([x, y, w, z]);
  }

  /** Equal but for the last word. */
  predicate Alike(s: State, t: State) {
    |s.a| == 2 && s.a == t.a && |s.r| == |t.r| > 0 && forall k :: 0 <= k < |s.r| - 1 ==> s.r[k] == t.r[k]
  }

  lemma TurnsAlike(c: BlockCipher, s: State, t: State, j: nat, w: nat)
    requires Permutation(c) && Alike(s, t) && w + 2 < |s.r|
    ensures Alike(WrapTurn(c, s, j, w), WrapTurn(c, t, j, w))
  {
    hide Permutation, Enciphered, Deciphered, XorWord, Counter, TurnNumber;
  }

  /** The word without a partner is exchanged with the missing one, which is zero, and lost. */
  lemma LastTurnForgets(s: State, t: State, j: nat)
    requires Permutation(EXCHANGE) && Alike(s, t)
    ensures WrapTurn(EXCHANGE, s, j, |s.r| - 1) == WrapTurn(EXCHANGE, t, j, |s.r| - 1)
  {
    hide Permutation, Enciphered, Deciphered, XorWord, Counter, TurnNumber;
    var k := |s.r| - 1;
    ExchangeWords(s.a[0], s.a[1], s.r[k], 0);
    ExchangeWords(s.a[0], s.a[1], t.r[k], 0);
    assert s.a + [s.r[k], 0] == [s.a[0], s.a[1], s.r[k], 0] && s.a + [t.r[k], 0] == [s.a[0], s.a[1], t.r[k], 0];
    assert s.r[k := 0] == t.r[k := 0];
  }

  lemma {:induction false} RoundAlike(c: BlockCipher, s: State, t: State, j: nat, i: nat)
    requires Permutation(c) && Alike(s, t) && 2 * i < |s.r|
    ensures Alike(WrapRound(c, s, j, i), WrapRound(c, t, j, i))
    decreases i
  {
    hide Permutation, WrapTurn;
    if i > 0 {
      RoundAlike(c, s, t, j, i - 1);
      TurnsAlike(c, WrapRound(c, s, j, i - 1), WrapRound(c, t, j, i - 1), j, 2 * (i - 1));
    }
  }

  lemma RoundForgets(s: State, t: State, j: nat)
    requires Permutation(EXCHANGE) && Alike(s, t) && |s.r| % 2 == 1
    ensures WrapRound(EXCHANGE, s, j, (|s.r| + 1) / 2) == WrapRound(EXCHANGE, t, j, (|s.r| + 1) / 2)
  {
    hide Permutation, WrapTurn, Alike;
    var i := |s.r| / 2;
    assert (|s.r| + 1) / 2 == i + 1 && 2 * i == |s.r| - 1;
    assert |s.r| == |t.r| && |s.a| == |t.a| == 2 by { AlikeShape(s, t); }
    RoundAlike(EXCHANGE, s, t, j, i);
    LastTurnForgets(WrapRound(EXCHANGE, s, j, i), WrapRound(EXCHANGE, t, j, i), j);
  }

  lemma AlikeShape(s: State, t: State)
    requires Alike(s, t)
    ensures |s.r| == |t.r| > 0 && |s.a| == |t.a| == 2
  {
  }

  lemma {:induction false} RoundsForget(s: State, t: State, j: nat)
    requires Permutation(EXCHANGE) && Alike(s, t) && |s.r| % 2 == 1 && j > 0
    ensures WrapRounds(EXCHANGE, s, j) == WrapRounds(EXCHANGE, t, j)
    decreases j
  {
    hide Permutation, WrapRound, Alike;
    AlikeShape(s, t);
    if j > 1 {
      RoundsForget(s, t, j - 1);
    } else {
      assert WrapRounds(EXCHANGE, s, 0) == s && WrapRounds(EXCHANGE, t, 0) == t;
      RoundForgets(s, t, 0);
    }
  }

  /** With an odd number of words there are a cipher and two keys that it wraps alike. */
  lemma OddWordsCollide(k: nat) returns (p: seq<byte>, q: seq<byte>)
    requires k % 4 == 0 && k % 8 != 0
    ensures Permutation(EXCHANGE) && |p| == |q| == k && p != q
    ensures WrappedData(EXCHANGE, p) == WrappedData(EXCHANGE, q)
  {
    hide Permutation, WrapRounds, Packed, Unpacked;
    ExchangePermutes();
    var m := k / 4;
    assert m % 2 == 1 && k == 4 * m;
    var w: seq<word> := seq(m, _ => 0);
    var v: seq<word> := w[m - 1 := 1];
    p, q := Packed(w), Packed(v);
    UnpackPacked(w);
    UnpackPacked(v);
    assert w[m - 1] != v[m - 1];
    RoundsForget(State(IV, w), State(IV, v), 6);
  }

  /** Unwrapping what wrapping makes of p gives p. */
  ghost predicate ComesBack(c: BlockCipher, p: seq<byte>) {
    Permutation(c) && |p| % 4 == 0 ==> UnwrappedData(c, WrappedData(c, p)) == Ok(p)
  }

  lemma PairsComeBack(c: BlockCipher, p: seq<byte>)
    requires |p| % 8 == 0
    ensures ComesBack(c, p)
  {
    hide Permutation, Wrapped, Unwrapped, WrappedData, UnwrappedData;
    HalfBlocks(|p|);
    if Permutation(c) {
      WrappedDataIs(c, p);
      UnwrapWrapped(c, p);
      UnwrappedDataIs(c, Wrapped(c, p));
    }
  }

  /** Every key of k octets comes back from every cipher exactly if its words pair up. */
  lemma RoundTripIff(k: nat)
    requires k % 4 == 0
    ensures k % 8 == 0 <==> forall c, p :: |p| == k ==> ComesBack(c, p)
  {
    hide Permutation, ComesBack;
    if k % 8 == 0 {
      forall c, p: seq<byte> | |p| == k
        ensures ComesBack(c, p)
      {
        PairsComeBack(c, p);
      }
    } else {
      var p, q := OddWordsCollide(k);
      NotBoth(p, q);
    }
  }

  lemma NotBoth(p: seq<byte>, q: seq<byte>)
    requires Permutation(EXCHANGE) && |p| == |q| && |p| % 4 == 0 && p != q
    requires WrappedData(EXCHANGE, p) == WrappedData(EXCHANGE, q)
    ensures !ComesBack(EXCHANGE, p) || !ComesBack(EXCHANGE, q)
  {
    hide Permutation, WrappedData, UnwrappedData;
  }

  // ---------------------------------------------------------------- the methods

  /** The body of the wrapping loops. */
  method WrapStep(c: BlockCipher, a: seq<word>, r: array<word>, j: nat, i: nat) returns (a': seq<word>)
    requires Permutation(c) && |a| == 2 && 2 * i < r.Length
    modifies r
    ensures |a'| == 2
    ensures State(a', r[..]) == WrapTurn(c, State(a, old(r[..])), j, 2 * i)
  {
    hide Permutation, XorWord, Packed, Unpacked, Stored;
    ghost var before := r[..];
    var m := r.Length;
    MulNonNeg(m, j);
    var t: word := ((m * j + 2 * i) / 2 + 1) % 0x1_0000_0000;
    var b := a + [r[2 * i], if 2 * i + 1 < m then r[2 * i + 1] else 0];
    var packed := Pack(b);
    CipherLength(c, packed);
    var e := Unpack(c.encrypt(packed));
    a' := [e[0], XorWord(e[1], t)];
    r[2 * i] := e[2];
    if 2 * i + 1 < m { r[2 * i + 1] := e[3]; }
    StoredHere(before, 2 * i, e[2], e[3], r[..]);
    TurnIs(c, State(a, before), j, 2 * i, b, e, t);
  }

  lemma StoredHere(r: seq<word>, i: nat, x: word, y: word, after: seq<word>)
    requires i < |r| == |after| && after[i] == x && (i + 1 < |r| ==> after[i + 1] == y)
    requires forall k :: 0 <= k < |r| && k != i && k != i + 1 ==> after[k] == r[k]
    ensures after == Stored(r, i, x, y)
  {
  }

  lemma TurnIs(c: BlockCipher, s: State, j: nat, w: nat, b: seq<word>, e: seq<word>, t: word)
    requires Permutation(c) && |s.a| == 2 && w < |s.r| && b == s.a + [s.r[w], WordAt(s.r, w + 1)]
    requires |c.encrypt(Packed(b))| == 16 && e == Unpacked(c.encrypt(Packed(b)))
    requires t == Counter(TurnNumber(|s.r|, j, w))
    ensures |e| == 4 && WrapTurn(c, s, j, w) == State([e[0], XorWord(e[1], t)], Stored(s.r, w, e[2], e[3]))
  {
    hide Packed, Unpacked, XorWord, Stored, Counter, TurnNumber;
  }

  /** The nested loops, over all words. */
  method WrapLoops(c: BlockCipher, start: seq<word>, r: array<word>) returns (a: seq<word>)
    requires Permutation(c) && |start| == 2
    modifies r
    ensures |a| == 2 && State(a, r[..]) == WrapRounds(c, State(start, old(r[..])), 6)
  {
    hide Permutation, WrapTurn;
    a := start;
    var m := r.Length;
    ghost var first := State(start, r[..]);
    var j := 0;
    while j <= 5
      invariant 0 <= j <= 6 && |a| == 2
      invariant State(a, r[..]) == WrapRounds(c, first, j)
    {
      var i := 0;
      while 2 * i < m
        invariant 0 <= i && 2 * i <= m + 1 && |a| == 2
        invariant State(a, r[..]) == WrapRound(c, WrapRounds(c, first, j), j, i)
      {
        a := WrapStep(c, a, r, j, i);
        i := i + 1;
      }
      j := j + 1;
    }
  }

  /** Key data of any length; one that is no multiple of four fails. */
  method Wrap(c: BlockCipher, data: seq<byte>) returns (out: Result<seq<byte>>)
    requires Permutation(c)
    ensures out == if |data| % 4 != 0 then Err(OutOfBounds) else Ok(WrappedData(c, data))
    ensures |data| % 8 == 0 ==> out == Ok(Wrapped(c, data))
  {
    hide Permutation, WrapRounds, Packed, Unpacked, Wrapped;
    if |data| % 8 == 0 {
      HalfBlocks(|data|);
      WrappedDataIs(c, data);
    }
    if |data| % 4 != 0 { return Err(OutOfBounds); }
    var p := Unpack(data);
    var r := new word[|p|](i requires 0 <= i < |p| => p[i]);
    assert r[..] == p;
    var a := WrapLoops(c, IV, r);
    var packed := Pack(a + r[..]);
    return Ok(packed);
  }

  /** The body of the unwrapping loops, at word i. */
  method UnwrapStep(c: BlockCipher, a: seq<word>, r: array<word>, j: nat, i: nat) returns (a': seq<word>)
    requires Permutation(c) && |a| == 2 && i + 2 <= r.Length
    modifies r
    ensures |a'| == 2
    ensures State(a', r[..]) == UnwrapTurn(c, State(a, old(r[..])), j, i)
  {
    hide Permutation, XorWord, Packed, Unpacked, Stored;
    ghost var before := r[..];
    var m := r.Length;
    MulNonNeg(m, j);
    var t: word := ((m * j + i) / 2 + 1) % 0x1_0000_0000;
    var b := [a[0], XorWord(a[1], t)] + [r[i], r[i + 1]];
    var packed := Pack(b);
    CipherLength(c, packed);
    var e := Unpack(c.decrypt(packed));
    a' := e[..2];
    r[i] := e[2];
    r[i + 1] := e[3];
    StoredHere(before, i, e[2], e[3], r[..]);
    UnturnIs(c, State(a, before), j, i, b, e, t);
  }

  lemma UnturnIs(c: BlockCipher, s: State, j: nat, w: nat, b: seq<word>, e: seq<word>, t: word)
    requires Permutation(c) && |s.a| == 2 && w + 2 <= |s.r| && t == Counter(TurnNumber(|s.r|, j, w))
    requires b == [s.a[0], XorWord(s.a[1], t)] + [s.r[w], s.r[w + 1]]
    requires |c.decrypt(Packed(b))| == 16 && e == Unpacked(c.decrypt(Packed(b)))
    ensures |e| == 4 && UnwrapTurn(c, s, j, w) == State(e[..2], Stored(s.r, w, e[2], e[3]))
  {
    hide Packed, Unpacked, XorWord, Stored, Counter, TurnNumber;
  }

  /** The nested loops, over all words. */
  method UnwrapLoops(c: BlockCipher, start: seq<word>, r: array<word>) returns (a: seq<word>)
    requires Permutation(c) && |start| == 2
    modifies r
    ensures |a| == 2 && State(a, r[..]) == UnwrapRounds(c, State(start, old(r[..])), 6)
  {
    hide Permutation, UnwrapTurn;
    a := start;
    var m := r.Length;
    ghost var first := State(start, r[..]);
    var j := 5;
    while j >= 0
      invariant -1 <= j <= 5 && |a| == 2
      invariant State(a, r[..]) == UnwrapRounds(c, first, 5 - j)
    {
      var i := m - 2;  // twice the source's index, which is fractional for an odd number of words
      ghost var k := 0;
      while i >= 0
        invariant -2 <= i == m - 2 - 2 * k && k >= 0 && |a| == 2
        invariant State(a, r[..]) == UnwrapRound(c, UnwrapRounds(c, first, 5 - j), j, k)
      {
        a := UnwrapStep(c, a, r, j, i);
        i := i - 2;
        k := k + 1;
      }
      j := j - 1;
    }
  }

  /** Wrapped data of any length. */
  method Unwrap(c: BlockCipher, data: seq<byte>) returns (out: Result<seq<byte>>)
    requires Permutation(c)
    ensures out == if |data| % 4 != 0 then Err(OutOfBounds) else UnwrappedData(c, data)
    ensures |data| % 8 == 0 && |data| >= 8 ==> out == Unwrapped(c, data)
  {
    hide Permutation, Packed, Unpacked, UnwrapRounds, Unwrapped;
    if |data| % 8 == 0 {
      HalfBlocks(|data|);
      if |data| >= 8 { UnwrappedDataIs(c, data); }
    }
    if |data| % 4 != 0 { return Err(OutOfBounds); }
    EightMore(|data|);
    var w := Unpack(data);
    if |w| < 2 { return Err(IntegrityFailed); }
    var p := w[2..];
    var r := new word[|p|](i requires 0 <= i < |p| => p[i]);
    assert r[..] == p;
    var a := UnwrapLoops(c, w[..2], r);
    if a[0] == IV[0] && a[1] == IV[1] {
      assert a == IV;
      var packed := Pack(r[..]);
      return Ok(packed);
    }
    return Err(IntegrityFailed);
  }
}
