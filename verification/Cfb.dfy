/** Cipher feedback mode: one-shot, streaming, and computed by cipher block chaining. */
module Cfb {
  import opened NumberTheory
  import opened Bytes
  import opened Bits
  import opened Streams
  import opened Results
  import opened Util

  type Cipher = seq<byte> -> seq<byte>

  /** e maps blocks of n octets to blocks of n octets; nothing else is asked of it. */
  ghost predicate BlockFunction(e: Cipher, n: nat) {
    n > 0 && forall b: seq<byte> :: |b| == n ==> |e(b)| == n
  }

  // ---------------------------------------------------------------- the modes

  /** CFB encryption of p with feedback f. */
  ghost function Encrypted(e: Cipher, n: nat, f: seq<byte>, p: seq<byte>): (c: seq<byte>)
    requires BlockFunction(e, n) && |f| == n
    ensures |c| == |p|
    decreases |p|
  {
    if |p| < n then XorBytes(p, e(f))
    else
      var c := XorBytes(p[..n], e(f));
      c + Encrypted(e, n, c, p[n..])
  }

  /** CFB decryption of c with feedback f. */
  ghost function Decrypted(e: Cipher, n: nat, f: seq<byte>, c: seq<byte>): (p: seq<byte>)
    requires BlockFunction(e, n) && |f| == n
    ensures |p| == |c|
    decreases |c|
  {
    if |c| < n then XorBytes(c, e(f))
    else XorBytes(c[..n], e(f)) + Decrypted(e, n, c[..n], c[n..])
  }

  /** The last whole block of ciphertext, or what was there before. */
  function Feedback(n: nat, f: seq<byte>, c: seq<byte>): seq<byte> {
    if |c| >= n then c[|c| - n..] else f
  }

  /** Decryption inverts encryption, final partial block included. */
  lemma {:induction false} RoundTrip(e: Cipher, n: nat, f: seq<byte>, p: seq<byte>)
    requires BlockFunction(e, n) && |f| == n
    ensures Decrypted(e, n, f, Encrypted(e, n, f, p)) == p
    decreases |p|
  {
    hide XorBytes, Xor;
    if |p| < n {
      XorBytesCancel(p, e(f));
    } else {
      var c := XorBytes(p[..n], e(f));
      RoundTrip(e, n, c, p[n..]);
      XorBytesCancel(p[..n], e(f));
      assert p == p[..n] + p[n..];
    }
  }

  lemma {:induction false} EncryptedAppend(e: Cipher, n: nat, f: seq<byte>, a: seq<byte>, b: seq<byte>)
    requires BlockFunction(e, n) && |f| == n && |a| % n == 0
    ensures var c := Encrypted(e, n, f, a);
      |Feedback(n, f, c)| == n && Encrypted(e, n, f, a + b) == c + Encrypted(e, n, Feedback(n, f, c), b)
    decreases |a|
  {
    hide Xor, XorBytes, Feedback;
    if |a| == 0 {
      assert a == [] && a + b == b;
      EmptyData(e, n, f);
    } else {
      MultipleAtLeast(|a|, n);
      var c := XorBytes(a[..n], e(f));
      EncryptedAppend(e, n, c, a[n..], b);
      assert (a + b)[..n] == a[..n] && (a + b)[n..] == a[n..] + b;
      FeedbackStep(n, f, c, Encrypted(e, n, c, a[n..]));
    }
  }

  lemma {:induction false} DecryptedAppend(e: Cipher, n: nat, f: seq<byte>, a: seq<byte>, b: seq<byte>)
    requires BlockFunction(e, n) && |f| == n && |a| % n == 0
    ensures |Feedback(n, f, a)| == n
    ensures Decrypted(e, n, f, a + b) == Decrypted(e, n, f, a) + Decrypted(e, n, Feedback(n, f, a), b)
    decreases |a|
  {
    hide Xor, XorBytes, Feedback;
    if |a| == 0 {
      assert a == [] && a + b == b;
      EmptyData(e, n, f);
    } else {
      MultipleAtLeast(|a|, n);
      DecryptedAppend(e, n, a[..n], a[n..], b);
      assert (a + b)[..n] == a[..n] && (a + b)[n..] == a[n..] + b;
      FeedbackStep(n, f, a[..n], a[n..]);
      assert a == a[..n] + a[n..];
    }
  }

  lemma FeedbackStep(n: nat, f: seq<byte>, c: seq<byte>, rest: seq<byte>)
    requires n > 0 && |c| == n && |rest| % n == 0
    ensures Feedback(n, f, c + rest) == Feedback(n, c, rest)
  {
    if |rest| > 0 { MultipleAtLeast(|rest|, n); }
  }

  /** One more block, or a final piece shorter than one. */
  lemma EncryptedPiece(e: Cipher, n: nat, f: seq<byte>, a: seq<byte>, b: seq<byte>)
    requires BlockFunction(e, n) && |f| == n && |a| % n == 0 && |b| <= n
    ensures var c := Encrypted(e, n, f, a);
      var d := XorBytes(b, e(Feedback(n, f, c)));
      && |Feedback(n, f, c)| == n
      && Encrypted(e, n, f, a + b) == c + d
      && (|b| == n ==> |a + b| % n == 0 && Feedback(n, f, c + d) == d)
  {
    EncryptedAppend(e, n, f, a, b);
    if |b| == n {
      var d := XorBytes(b, e(Feedback(n, f, Encrypted(e, n, f, a))));
      assert b[..n] == b && b[n..] == [];
      assert d + Encrypted(e, n, d, []) == d;
      CongIntro(|a| + n, |a|, n, 1);
    }
  }

  lemma DecryptedPiece(e: Cipher, n: nat, f: seq<byte>, a: seq<byte>, b: seq<byte>)
    requires BlockFunction(e, n) && |f| == n && |a| % n == 0 && |b| <= n
    ensures |Feedback(n, f, a)| == n
    ensures Decrypted(e, n, f, a + b) == Decrypted(e, n, f, a) + XorBytes(b, e(Feedback(n, f, a)))
    ensures |b| == n ==> |a + b| % n == 0 && Feedback(n, f, a + b) == b
  {
    DecryptedAppend(e, n, f, a, b);
    if |b| == n {
      assert b[..n] == b && b[n..] == [];
      var d := XorBytes(b, e(Feedback(n, f, a)));
      assert d + Decrypted(e, n, b, []) == d;
      CongIntro(|a| + n, |a|, n, 1);
    }
  }

  // ---------------------------------------------------------------- streaming

  /** How many octets a call consumes: whole blocks of what there is, or everything at the end. */
  function Whole(available: nat, n: nat, last: bool): (k: nat)
    requires n > 0
    ensures k <= available
  {
    if last then available else available - available % n
  }

  lemma WholeUnique(available: nat, n: nat, k: nat)
    requires n > 0 && k <= available && k % n == 0 && available - k < n
    ensures k == Whole(available, n, false)
  {
    CongAdd(available, available, k, 0, n);
    ModSmall(0, n);
    ModSmall(available - k, n);
  }

  lemma WholeIsMultiple(available: nat, n: nat)
    requires n > 0
    ensures Whole(available, n, false) % n == 0 && available - Whole(available, n, false) < n
  {
    CongIntro(Whole(available, n, false), 0, n, available / n);
    assert available == n * (available / n) + available % n;
    ModSmall(0, n);
  }

  /** The chunk of a call; the final call has none. */
  function Octets(chunk: Option<seq<byte>>): seq<byte> { if chunk.Some? then chunk.value else [] }

  /**
   Exclusive-or a block of data with a key block; octets missing from the data count as zero, stores outside the
   output are lost.
   */
  method FillBlock(block: array<byte>, data: seq<byte>, key: seq<byte>, out: array<byte>, j: nat)
    requires block != out && |key| == block.Length && out.Length == j + |data|
    modifies block, out
    ensures var m := Least(|data|, block.Length);
      && out[..j + m] == old(out[..j]) + XorBytes(data[..m], key)
      && (m == block.Length ==> block[..] == XorBytes(data[..m], key))
  {
    hide Xor;
    ghost var m := Least(|data|, block.Length);
    ghost var x := XorBytes(data[..m], key);
    var i := 0;
    while i < block.Length
      invariant 0 <= i <= block.Length
      invariant out[..j] == old(out[..j])
      invariant forall k :: 0 <= k < i && k < m ==> out[j + k] == x[k] && block[k] == x[k]
    {
      var v := XorByte(At(data, i), key[i]);
      block[i] := v;
      if j + i < out.Length { out[j + i] := v; }
      i := i + 1;
    }
    assert out[j..j + m] == x;
    assert out[..j + m] == out[..j] + out[j..j + m];
  }

  /** Exclusive-or of data with a key block, into the output; stores outside the output are lost. */
  method XorInto(data: seq<byte>, key: seq<byte>, out: array<byte>, j: nat)
    requires out.Length == j + |data|
    modifies out
    ensures var m := Least(|data|, |key|);
      out[..j + m] == old(out[..j]) + XorBytes(data[..m], key)
  {
    hide Xor;
    ghost var m := Least(|data|, |key|);
    ghost var x := XorBytes(data[..m], key);
    var i := 0;
    while i < |key|
      invariant 0 <= i <= |key|
      invariant out[..j] == old(out[..j])
      invariant forall k :: 0 <= k < i && k < m ==> out[j + k] == x[k]
    {
      if j + i < out.Length { out[j + i] := XorByte(At(data, i), key[i]); }
      i := i + 1;
    }
    assert out[j..j + m] == x;
    assert out[..j + m] == out[..j] + out[j..j + m];
  }

  lemma BlockLength(e: Cipher, n: nat, b: seq<byte>)
    requires BlockFunction(e, n) && |b| == n
    ensures |e(b)| == n
  {
  }

  lemma EmptyData(e: Cipher, n: nat, f: seq<byte>)
    requires BlockFunction(e, n) && |f| == n
    ensures Encrypted(e, n, f, []) == [] && Decrypted(e, n, f, []) == [] && Feedback(n, f, []) == f
  {
  }

  lemma Slices(all: seq<byte>, done: nat, m: nat)
    requires done + m <= |all|
    ensures all[..done] + all[done..][..m] == all[..done + m] && all[done..][m..] == all[done + m..]
  {
  }

  /** Whether the loop over the blocks goes on. */
  predicate GoesOn(n: nat, last: bool, rest: seq<byte>) { if last then |rest| > 0 else |rest| >= n }

  /** What is left when a block has been taken off. */
  function BlockOff(n: nat, rest: seq<byte>): seq<byte> { if n <= |rest| then rest[n..] else [] }

  /** The registers of the encryption loop after done octets. */
  ghost predicate Encrypting(e: Cipher, n: nat, f: seq<byte>, all: seq<byte>, last: bool,
                             rest: seq<byte>, block: seq<byte>, j: nat, done: nat, c: seq<byte>)
    requires BlockFunction(e, n) && |f| == n
  {
    && done <= |all| && done <= j && rest == all[done..] && |block| == n && c == Encrypted(e, n, f, all[..done])
    && (rest != [] || !last ==> j == done && done % n == 0 && block == Feedback(n, f, c))
  }

  /** The registers of the decryption loop after done octets; the last block may be short. */
  ghost predicate Decrypting(e: Cipher, n: nat, f: seq<byte>, all: seq<byte>, last: bool,
                             rest: seq<byte>, block: seq<byte>, j: nat, done: nat, p: seq<byte>)
    requires BlockFunction(e, n) && |f| == n
  {
    && done <= |all| && done <= j && rest == all[done..] && p == Decrypted(e, n, f, all[..done])
    && (rest != [] || !last ==> j == done && done % n == 0 && |block| == n && block == Feedback(n, f, all[..done]))
  }

  lemma LoopStart(e: Cipher, n: nat, f: seq<byte>, all: seq<byte>, last: bool)
    requires BlockFunction(e, n) && |f| == n
    ensures Encrypting(e, n, f, all, last, all, f, 0, 0, []) && Decrypting(e, n, f, all, last, all, f, 0, 0, [])
  {
    hide Encrypted, Decrypted, BlockFunction, Feedback;
    EmptyData(e, n, f);
    NonZero(e, n);
    ModSmall(0, n);
    assert all[..0] == [] && all[0..] == all;
  }

  lemma NonZero(e: Cipher, n: nat)
    requires BlockFunction(e, n)
    ensures n > 0
  {
  }

  lemma EncryptReady(e: Cipher, n: nat, f: seq<byte>, all: seq<byte>, last: bool,
                     rest: seq<byte>, block: seq<byte>, j: nat, done: nat, c: seq<byte>)
    requires BlockFunction(e, n) && |f| == n && GoesOn(n, last, rest)
    requires Encrypting(e, n, f, all, last, rest, block, j, done, c)
    ensures |block| == n && |e(block)| == n && j == done == |c| && j + |rest| == |all| && n > 0 && |rest| > 0
  {
    hide Encrypted, BlockFunction, Feedback;
    NonZero(e, n);
    BlockLength(e, n, block);
  }

  /** One turn of the encryption loop; next is the block register after it. */
  lemma EncryptTurn(e: Cipher, n: nat, f: seq<byte>, all: seq<byte>, last: bool,
                    rest: seq<byte>, block: seq<byte>, j: nat, done: nat, c: seq<byte>, next: seq<byte>)
    requires BlockFunction(e, n) && |f| == n && GoesOn(n, last, rest)
    requires Encrypting(e, n, f, all, last, rest, block, j, done, c) && |e(block)| == n == |next|
    requires Least(|rest|, n) == n ==> next == XorBytes(rest[..n], e(block))
    ensures var m := Least(|rest|, n);
      && done + m <= |all|
      && Encrypting(e, n, f, all, last, BlockOff(n, rest), next, j + n, done + m, c + XorBytes(rest[..m], e(block)))
  {
    hide Encrypted, BlockFunction, XorBytes, Feedback;
    NonZero(e, n);
    var m := Least(|rest|, n);
    EncryptedPiece(e, n, f, all[..done], rest[..m]);
    Slices(all, done, m);
  }

  /** One turn of the decryption loop. */
  lemma DecryptTurn(e: Cipher, n: nat, f: seq<byte>, all: seq<byte>, last: bool,
                    rest: seq<byte>, block: seq<byte>, j: nat, done: nat, p: seq<byte>)
    requires BlockFunction(e, n) && |f| == n && GoesOn(n, last, rest)
    requires Decrypting(e, n, f, all, last, rest, block, j, done, p)
    ensures |block| == n && |e(block)| == n && j == done == |p| && j + |rest| == |all|
    ensures var m := Least(|rest|, n);
      && m > 0 && done + m <= |all|
      && Decrypting(e, n, f, all, last, BlockOff(n, rest), rest[..m], j + n, done + m,
                    p + XorBytes(rest[..m], e(block)))
  {
    hide Decrypted, BlockFunction, XorBytes, Feedback;
    NonZero(e, n);
    BlockLength(e, n, block);
    var m := Least(|rest|, n);
    DecryptedPiece(e, n, f, all[..done], rest[..m]);
    Slices(all, done, m);
  }

  /** The loops end where the call's share of the data ends. */
  lemma LoopEnd(e: Cipher, n: nat, f: seq<byte>, all: seq<byte>, last: bool,
                rest: seq<byte>, block: seq<byte>, j: nat, done: nat, t: seq<byte>, enc: bool)
    requires BlockFunction(e, n) && |f| == n && !GoesOn(n, last, rest)
    requires if enc then Encrypting(e, n, f, all, last, rest, block, j, done, t)
             else Decrypting(e, n, f, all, last, rest, block, j, done, t)
    ensures var k := Whole(|all|, n, last);
      && n > 0 && done == k && rest == all[k..] && Least(j, |all|) == k == |t|
      && t == (if enc then Encrypted(e, n, f, all[..k]) else Decrypted(e, n, f, all[..k]))
      && (enc ==> |block| == n)
      && (!last ==> |rest| < n && |block| == n && block == Feedback(n, f, if enc then t else all[..k]))
  {
    hide Encrypted, Decrypted, BlockFunction, Feedback, Whole;
    NonZero(e, n);
    if !last { WholeUnique(|all|, n, done); }
    FinalLength(|all|, n, last, done);
  }

  class Encryptor {
    const e: Cipher
    const n: nat
    const blockc: array<byte>
    var pt: seq<byte>

    ghost predicate Valid()
      reads this, blockc
    {
      BlockFunction(e, n) && blockc.Length == n && |pt| < n
    }

    constructor (e: Cipher, n: nat, iv: seq<byte>)
      requires BlockFunction(e, n) && |iv| == n
      ensures Valid() && fresh(blockc) && this.e == e && this.n == n && blockc[..] == iv && pt == []
    {
      this.e, this.n := e, n;
      blockc := new byte[|iv|](i requires 0 <= i < |iv| => iv[i]);
      pt := [];
      new;
      assert blockc[..] == iv;
    }

    /** Encrypt what is complete after a chunk, or everything when there is no further chunk. */
    method Process(chunk: Option<seq<byte>>) returns (out: seq<byte>)
      requires Valid()
      modifies this, blockc
      ensures Valid()
      ensures var all := old(pt) + Octets(chunk);
        var k := Whole(|all|, n, chunk.None?);
        && out == Encrypted(e, n, old(blockc[..]), all[..k])
        && pt == all[k..]
        && (chunk.Some? ==> blockc[..] == Feedback(n, old(blockc[..]), out))
    {
      hide Encrypted, BlockFunction, XorBytes, XorByte, Xor, Whole, Feedback, Encrypting, GoesOn, BlockOff;
      ghost var f := blockc[..];
      pt := pt + Octets(chunk);
      ghost var all := pt;
      var last := chunk.None?;
      var ciphertext := new byte[|pt|](_ => 0);
      var j := 0;
      ghost var done := 0;
      ghost var c: seq<byte> := [];
      LoopStart(e, n, f, all, last);
      while GoesOn(n, last, pt)
        invariant 0 <= j && done <= |all| && |c| == done && blockc.Length == n
        invariant Encrypting(e, n, f, all, last, pt, blockc[..], j, done, c) && ciphertext[..done] == c
        decreases |all| - done
      {
        ghost var block := blockc[..];
        EncryptReady(e, n, f, all, last, pt, block, j, done, c);
        var encblock := e(blockc[..]);
        FillBlock(blockc, pt, encblock, ciphertext, j);
        ghost var m := Least(|pt|, n);
        assert pt[..m] == if m == n then pt[..n] else pt;
        EncryptTurn(e, n, f, all, last, pt, block, j, done, c, blockc[..]);
        c := c + XorBytes(pt[..m], encblock);
        j := j + n;
        pt := BlockOff(n, pt);
        done := done + m;
      }
      LoopEnd(e, n, f, all, last, pt, blockc[..], j, done, c, true);
      out := ciphertext[..Least(j, ciphertext.Length)];
    }
  }

  lemma FinalLength(available: nat, n: nat, last: bool, done: nat)
    requires n > 0 && done <= available
    requires if last then done == available else done == Whole(available, n, false)
    ensures done == Whole(available, n, last)
  {
  }

  class Decryptor {
    const e: Cipher
    const n: nat
    var blockp: seq<byte>
    var ct: seq<byte>

    ghost predicate Valid()
      reads this
    {
      BlockFunction(e, n) && |blockp| == n && |ct| < n
    }

    constructor (e: Cipher, n: nat, iv: seq<byte>)
      requires BlockFunction(e, n) && |iv| == n
      ensures Valid() && this.e == e && this.n == n && blockp == iv && ct == []
    {
      this.e, this.n, blockp, ct := e, n, iv, [];
    }

    /** Decrypt what is complete after a chunk, or everything when there is no further chunk. */
    method Process(chunk: Option<seq<byte>>) returns (out: seq<byte>)
      requires Valid()
      modifies this
      ensures chunk.Some? ==> Valid()
      ensures var all := old(ct) + Octets(chunk);
        var k := Whole(|all|, n, chunk.None?);
        && out == Decrypted(e, n, old(blockp), all[..k])
        && ct == all[k..]
        && (chunk.Some? ==> blockp == Feedback(n, old(blockp), all[..k]))
    {
      hide Decrypted, BlockFunction, XorBytes, XorByte, Xor, Whole, Feedback, Decrypting, GoesOn, BlockOff;
      ghost var f := blockp;
      ct := ct + Octets(chunk);
      ghost var all := ct;
      var last := chunk.None?;
      var plaintext := new byte[|ct|](_ => 0);
      var j := 0;
      ghost var done := 0;
      ghost var p: seq<byte> := [];
      LoopStart(e, n, f, all, last);
      while GoesOn(n, last, ct)
        invariant 0 <= j && done <= |all| && |p| == done
        invariant Decrypting(e, n, f, all, last, ct, blockp, j, done, p) && plaintext[..done] == p
        decreases |all| - done
      {
        DecryptTurn(e, n, f, all, last, ct, blockp, j, done, p);
        var decblock := e(blockp);
        ghost var m := Least(|ct|, n);
        XorInto(ct, decblock, plaintext, j);
        p := p + XorBytes(ct[..m], decblock);
        blockp := ct[..Least(|ct|, n)];
        j := j + n;
        ct := BlockOff(n, ct);
        done := done + m;
      }
      LoopEnd(e, n, f, all, last, ct, blockp, j, done, p, false);
      out := plaintext[..Least(j, plaintext.Length)];
    }
  }

  /** However the plaintext is cut, the output is its one-shot encryption. */
  method EncryptStream(e: Cipher, n: nat, iv: seq<byte>, chunks: seq<seq<byte>>) returns (out: seq<byte>)
    requires BlockFunction(e, n) && |iv| == n
    ensures out == Encrypted(e, n, iv, Flatten(chunks))
  {
    hide Encrypted, BlockFunction, Flatten, Whole;
    var state := new Encryptor(e, n, iv);
    out := [];
    ghost var settled: seq<byte> := [];
    EmptyData(e, n, iv);
    FlattenEmpty(chunks);
    ModSmall(0, n);
    var i := 0;
    while i < |chunks|
      invariant 0 <= i <= |chunks| && fresh(state) && fresh(state.blockc)
      invariant state.Valid() && state.e == e && state.n == n
      invariant Flatten(chunks[..i]) == settled + state.pt && |settled| % n == 0
      invariant out == Encrypted(e, n, iv, settled)
      invariant state.blockc[..] == Feedback(n, iv, out)
    {
      FlattenPrefix(chunks, i);
      ghost var f, all := state.blockc[..], state.pt + chunks[i];
      ghost var k := Whole(|all|, n, false);
      WholeIsMultiple(|all|, n);
      EncryptedAppend(e, n, iv, settled, all[..k]);
      FeedbackAppend(n, iv, out, Encrypted(e, n, f, all[..k]));
      var piece := state.Process(Some(chunks[i]));
      out := out + piece;
      assert all == all[..k] + all[k..];
      SumOfMultiples(|settled|, k, n);
      settled := settled + all[..k];
      i := i + 1;
    }
    assert chunks[..i] == chunks;
    EncryptedAppend(e, n, iv, settled, state.pt);
    ghost var pt := state.pt;
    WholeLast(|pt|, n);
    assert (pt + [])[..|pt|] == pt;
    var piece := state.Process(None);
    out := out + piece;
  }

  /** However the ciphertext is cut, the output is its one-shot decryption. */
  method DecryptStream(e: Cipher, n: nat, iv: seq<byte>, chunks: seq<seq<byte>>) returns (out: seq<byte>)
    requires BlockFunction(e, n) && |iv| == n
    ensures out == Decrypted(e, n, iv, Flatten(chunks))
  {
    hide Decrypted, BlockFunction, Flatten, Whole;
    var state := new Decryptor(e, n, iv);
    out := [];
    ghost var settled: seq<byte> := [];
    EmptyData(e, n, iv);
    FlattenEmpty(chunks);
    ModSmall(0, n);
    var i := 0;
    while i < |chunks|
      invariant 0 <= i <= |chunks| && fresh(state) && state.Valid() && state.e == e && state.n == n
      invariant Flatten(chunks[..i]) == settled + state.ct && |settled| % n == 0
      invariant out == Decrypted(e, n, iv, settled)
      invariant state.blockp == Feedback(n, iv, settled)
    {
      FlattenPrefix(chunks, i);
      ghost var all := state.ct + chunks[i];
      ghost var k := Whole(|all|, n, false);
      WholeIsMultiple(|all|, n);
      DecryptedAppend(e, n, iv, settled, all[..k]);
      FeedbackAppend(n, iv, settled, all[..k]);
      var piece := state.Process(Some(chunks[i]));
      out := out + piece;
      assert all == all[..k] + all[k..];
      SumOfMultiples(|settled|, k, n);
      settled := settled + all[..k];
      i := i + 1;
    }
    assert chunks[..i] == chunks;
    DecryptedAppend(e, n, iv, settled, state.ct);
    ghost var ct := state.ct;
    WholeLast(|ct|, n);
    assert (ct + [])[..|ct|] == ct;
    var piece := state.Process(None);
    out := out + piece;
  }

  lemma WholeLast(available: nat, n: nat)
    requires n > 0
    ensures Whole(available, n, true) == available
  {
  }

  lemma SumOfMultiples(a: nat, b: nat, n: nat)
    requires n > 0 && a % n == 0 && b % n == 0
    ensures (a + b) % n == 0
  {
    ModSmall(0, n);
    CongAdd(a, 0, b, 0, n);
  }

  lemma FeedbackAppend(n: nat, f: seq<byte>, a: seq<byte>, b: seq<byte>)
    requires n > 0 && |a| % n == 0 && |b| % n == 0
    ensures Feedback(n, f, a + b) == Feedback(n, Feedback(n, f, a), b)
  {
    if |a| > 0 { MultipleAtLeast(|a|, n); }
    if |b| > 0 { MultipleAtLeast(|b|, n); } else { assert a + b == a; }
  }

  // ---------------------------------------------------------------- by cipher block chaining

  /** CBC encryption of whole blocks. */
  ghost function Chained(e: Cipher, n: nat, f: seq<byte>, p: seq<byte>): (c: seq<byte>)
    requires BlockFunction(e, n) && |f| == n && |p| % n == 0
    ensures |c| == |p|
    decreases |p|
  {
    if |p| == 0 then []
    else
      MultipleAtLeast(|p|, n);
      var c := e(XorBytes(p[..n], f));
      c + Chained(e, n, c, p[n..])
  }

  lemma XorZeros(n: nat, f: seq<byte>)
    requires |f| == n
    ensures XorBytes(Zeros(n), f) == f
  {
    forall i | 0 <= i < n
      ensures XorBytes(Zeros(n), f)[i] == f[i]
    {
      XorZero(f[i]);
    }
  }

  /** The key stream of CFB: CBC outputs, one block ahead of the text. */
  lemma {:induction false} KeyStream(e: Cipher, n: nat, k: seq<byte>, p: seq<byte>, pad: seq<byte>, f: seq<byte>)
    requires BlockFunction(e, n) && |f| == n && k == e(f) && |p + pad| % n == 0
    ensures XorBytes((k + Chained(e, n, k, p + pad))[..|p|], p) == Encrypted(e, n, f, p)
    decreases |p|
  {
    var stream := k + Chained(e, n, k, p + pad);
    if |p| < n {
      assert stream[..|p|] == k[..|p|];
      XorBytesComm(k[..|p|], p);
      assert XorBytes(p, k[..|p|]) == XorBytes(p, k);
    } else {
      var q := p + pad;
      MultipleAtLeast(|q|, n);
      assert q[..n] == p[..n] && q[n..] == p[n..] + pad;
      var c := XorBytes(p[..n], k);
      KeyStream(e, n, e(c), p[n..], pad, c);
      var rest := e(c) + Chained(e, n, e(c), p[n..] + pad);
      assert stream == k + rest;
      assert stream[..|p|] == k + rest[..|p| - n];
      XorConcatBytes(k, rest[..|p| - n], p[..n], p[n..]);
      assert p[..n] + p[n..] == p;
      XorBytesComm(k, p[..n]);
    }
  }

  lemma XorConcatBytes(a: seq<byte>, b: seq<byte>, c: seq<byte>, d: seq<byte>)
    requires |a| == |c| && |b| == |d|
    ensures XorBytes(a + b, c + d) == XorBytes(a, c) + XorBytes(b, d)
  {
    hide Xor;
  }

  /** CBC over a zero block and the plaintext, cut to the plaintext's length, and exclusive-or with the plaintext. */
  ghost function ByChaining(e: Cipher, n: nat, iv: seq<byte>, p: seq<byte>, pad: seq<byte>): seq<byte>
    requires BlockFunction(e, n) && |iv| == n && |Zeros(n) + p + pad| % n == 0
  {
    XorBytes(Chained(e, n, iv, Zeros(n) + p + pad)[..|p|], p)
  }

  /** That is CFB encryption, for every plaintext length and every padding the chaining mode appends. */
  lemma ChainingIsFeedback(e: Cipher, n: nat, iv: seq<byte>, p: seq<byte>, pad: seq<byte>)
    requires BlockFunction(e, n) && |iv| == n && |Zeros(n) + p + pad| % n == 0
    ensures ByChaining(e, n, iv, p, pad) == Encrypted(e, n, iv, p)
  {
    var q := Zeros(n) + p + pad;
    MultipleAtLeast(|q|, n);
    assert q[..n] == Zeros(n) && q[n..] == p + pad;
    XorZeros(n, iv);
    KeyStream(e, n, e(iv), p, pad, iv);
  }

  /** CFB encryption with a host that offers CBC; chained stands for the host's answer. */
  method WebEncrypt(ghost e: Cipher, ghost n: nat, ghost iv: seq<byte>, pt: seq<byte>, ghost pad: seq<byte>,
                    chained: seq<byte>)
      returns (out: seq<byte>)
    requires BlockFunction(e, n) && |iv| == n && |Zeros(n) + pt + pad| % n == 0
    requires chained == Chained(e, n, iv, Zeros(n) + pt + pad)
    ensures out == Encrypted(e, n, iv, pt)
  {
    var ct := new byte[|pt|](i requires 0 <= i < |pt| => chained[i]);
    assert ct[..] == chained[..|pt|];
    XorMut(ct, pt);
    ChainingIsFeedback(e, n, iv, pt, pad);
    out := ct[..];
  }
}
