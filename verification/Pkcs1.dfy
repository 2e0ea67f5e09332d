/** PKCS#1 v1.5 paddings: for encryption, with its inverse, and for signatures. */
module Pkcs1 {
  import opened Bytes
  import opened Results
  import opened Util

  // ---------------------------------------------------------------- encryption padding

  /** e is the message m behind the padding string ps of at least eight non-zero octets. */
  ghost predicate IsEncoding(e: seq<byte>, ps: seq<byte>, m: seq<byte>) {
    |ps| >= 8 && 0 !in ps && e == [0, 2] + ps + [0] + m
  }

  /** The position of the first zero octet at or after i, or the length. */
  function FirstZero(e: seq<byte>, i: nat): (k: nat)
    requires i <= |e|
    ensures i <= k <= |e|
    ensures forall j :: i <= j < k ==> e[j] != 0
    ensures k < |e| ==> e[k] == 0
    decreases |e| - i
  {
    if i == |e| || e[i] == 0 then i else FirstZero(e, i + 1)
  }

  /** The message inside a correctly padded octet string. */
  function Unpadded(e: seq<byte>): Option<seq<byte>> {
    if |e| < 2 || e[0] != 0 || e[1] != 2 then None
    else
      var k := FirstZero(e, 2);
      if k < 10 || k == |e| then None else Some(e[k + 1..])
  }

  /** Unpadding accepts exactly the encodings, and an encoding determines its message. */
  lemma UnpaddedIff(e: seq<byte>, m: seq<byte>)
    ensures Unpadded(e) == Some(m) <==> exists ps :: IsEncoding(e, ps, m)
  {
    if Unpadded(e) == Some(m) {
      var k := FirstZero(e, 2);
      assert forall b :: b in e[2..k] ==> b != 0;
      assert e == [0, 2] + e[2..k] + [0] + e[k + 1..];
      assert IsEncoding(e, e[2..k], m);
    }
    if exists ps :: IsEncoding(e, ps, m) {
      var ps :| IsEncoding(e, ps, m);
      PaddingEndsAtFirstZero(e, ps, m);
    }
  }

  lemma PaddingEndsAtFirstZero(e: seq<byte>, ps: seq<byte>, m: seq<byte>)
    requires IsEncoding(e, ps, m)
    ensures Unpadded(e) == Some(m)
  {
    var k := FirstZero(e, 2);
    assert e[2..2 + |ps|] == ps;
    assert forall j :: 2 <= j < 2 + |ps| ==> e[j] == ps[j - 2];
    assert forall j :: 0 <= j < |ps| ==> ps[j] in ps;
    assert e[2 + |ps|] == 0;
    assert k == 2 + |ps|;
    assert e[k + 1..] == m;
  }

  /** Pad a message to the length of the modulus; ps stands for the random non-zero octets. */
  method EmeEncode(message: seq<byte>, keyLength: nat, ps: seq<byte>) returns (r: Result<seq<byte>>)
    requires |message| <= keyLength - 11 ==> |ps| == keyLength - |message| - 3 && 0 !in ps
    ensures r.Err? <==> |message| > keyLength - 11
    ensures r.Err? ==> r.error == MessageTooLong
    ensures r.Ok? ==> |r.value| == keyLength && IsEncoding(r.value, ps, message)
  {
    if |message| > keyLength - 11 { return Err(MessageTooLong); }
    var encoded := new byte[keyLength](_ => 0);
    encoded[1] := 2;
    assert encoded[..2] == [0, 2];
    SetAt(encoded, ps, 2);
    var end := keyLength - |message|;
    assert encoded[..end] == [0, 2] + ps + [0];
    SetAt(encoded, message, end);
    r := Ok(encoded[..]);
  }

  /** The outcome of unpadding; with a fallback payload a failure is silent. */
  function Decoded(encoded: seq<byte>, randomPayload: Option<seq<byte>>): Result<seq<byte>> {
    match Unpadded(encoded)
    case Some(m) => Ok(m)
    case None => if randomPayload.Some? then Ok(randomPayload.value) else Err(DecryptionError)
  }

  /** A block that encodes nothing gives the fallback payload, or an error if there is none. */
  lemma DecodedIs(encoded: seq<byte>, randomPayload: Option<seq<byte>>)
    ensures forall ps, m :: IsEncoding(encoded, ps, m) ==> Decoded(encoded, randomPayload) == Ok(m)
    ensures (forall ps, m :: !IsEncoding(encoded, ps, m)) ==>
      Decoded(encoded, randomPayload)
      == if randomPayload.None? then Err(DecryptionError) else Ok(randomPayload.value)
  {
    hide Unpadded;
    forall ps, m | IsEncoding(encoded, ps, m) ensures Unpadded(encoded) == Some(m) { UnpaddedIff(encoded, m); }
    if Unpadded(encoded).Some? { UnpaddedIff(encoded, Unpadded(encoded).value); }
  }

  /** One pass over the octets that accumulates the separator's position without branching. */
  method EmeDecode(encoded: seq<byte>, randomPayload: Option<seq<byte>>) returns (r: Result<seq<byte>>)
    ensures r == Decoded(encoded, randomPayload)
  {
    var offset := 2;
    var separatorNotFound := 1;
    ghost var k := if |encoded| < 2 then 2 else FirstZero(encoded, 2);
    var j := 2;
    while j < |encoded|
      invariant 2 <= j && (j <= |encoded| || j == 2)
      invariant offset == if j <= k then j else k
      invariant separatorNotFound == if j <= k then 1 else 0
    {
      if encoded[j] == 0 { separatorNotFound := 0; }
      offset := offset + separatorNotFound;
      j := j + 1;
    }
    var psLen := offset - 2;
    var payload := if offset + 1 <= |encoded| then encoded[offset + 1..] else [];
    var isValidPadding :=
      if |encoded| >= 2 && encoded[0] == 0 && encoded[1] == 2 && psLen >= 8 && separatorNotFound == 0
      then 1 else 0;
    if randomPayload.Some? {
      var selected := SelectUint8Array(isValidPadding, payload, randomPayload.value);
      return Ok(selected);
    }
    return if isValidPadding == 1 then Ok(payload) else Err(DecryptionError);
  }

  // ---------------------------------------------------------------- signature padding

  datatype HashAlgorithm = MD5 | SHA1 | RIPEMD | SHA256 | SHA384 | SHA512 | SHA224

  function HashByteLength(algo: HashAlgorithm): nat {
    match algo
    case MD5 => 16
    case SHA1 => 20
    case RIPEMD => 20
    case SHA256 => 32
    case SHA384 => 48
    case SHA512 => 64
    case SHA224 => 28
  }

  /** The ASN.1 object identifier of the hash, DER encoded. */
  function HashHeader(algo: HashAlgorithm): (h: seq<byte>)
    ensures 15 <= |h| <= 19
  {
    match algo
    case MD5 =>
      [0x30, 0x20, 0x30, 0x0c, 0x06, 0x08, 0x2a, 0x86, 0x48, 0x86,
       0xf7, 0x0d, 0x02, 0x05, 0x05, 0x00, 0x04, 0x10]
    case SHA1 => [0x30, 0x21, 0x30, 0x09, 0x06, 0x05, 0x2b, 0x0e, 0x03, 0x02, 0x1a, 0x05, 0x00, 0x04, 0x14]
    case RIPEMD => [0x30, 0x21, 0x30, 0x09, 0x06, 0x05, 0x2b, 0x24, 0x03, 0x02, 0x01, 0x05, 0x00, 0x04, 0x14]
    case SHA256 =>
      [0x30, 0x31, 0x30, 0x0d, 0x06, 0x09, 0x60, 0x86, 0x48, 0x01,
       0x65, 0x03, 0x04, 0x02, 0x01, 0x05, 0x00, 0x04, 0x20]
    case SHA384 =>
      [0x30, 0x41, 0x30, 0x0d, 0x06, 0x09, 0x60, 0x86, 0x48, 0x01,
       0x65, 0x03, 0x04, 0x02, 0x02, 0x05, 0x00, 0x04, 0x30]
    case SHA512 =>
      [0x30, 0x51, 0x30, 0x0d, 0x06, 0x09, 0x60, 0x86, 0x48, 0x01,
       0x65, 0x03, 0x04, 0x02, 0x03, 0x05, 0x00, 0x04, 0x40]
    case SHA224 =>
      [0x30, 0x2d, 0x30, 0x0d, 0x06, 0x09, 0x60, 0x86, 0x48, 0x01,
       0x65, 0x03, 0x04, 0x02, 0x04, 0x05, 0x00, 0x04, 0x1c]
  }

  function Fill(b: byte, k: nat): (s: seq<byte>)
    ensures |s| == k && forall i :: 0 <= i < k ==> s[i] == b
  {
    seq(k, _ => b)
  }

  /** The octet string that stands for a hash under a modulus of emLen octets. */
  function SignaturePadded(algo: HashAlgorithm, hashed: seq<byte>, emLen: nat): (r: Result<seq<byte>>)
    ensures r.Ok? ==> |r.value| == emLen > 0 && r.value[0] == 0
  {
    var tLen := |HashHeader(algo)| + |hashed|;
    if |hashed| != HashByteLength(algo) then Err(InvalidHashLength)
    else if emLen < tLen + 11 then Err(IntendedLengthTooShort)
    else Ok([0, 1] + Fill(0xff, emLen - tLen - 3) + [0] + HashHeader(algo) + hashed)
  }

  /** The header is a DER sequence of the identifier and the start of an octet string that the hash completes. */
  lemma HeaderIsDer(algo: HashAlgorithm)
    ensures var h, inner: int, outer: int := HashHeader(algo), HashHeader(algo)[3], HashHeader(algo)[1];
      && h[0] == 0x30 && outer + 2 == |h| + HashByteLength(algo)
      && h[2] == 0x30 && inner + 6 == |h| && h[4 + inner] == 4 && h[5 + inner] == HashByteLength(algo)
  {
  }

  /** A block takes every hash of the algorithm's length that leaves room for eight padding octets and three more. */
  lemma PaddedIff(algo: HashAlgorithm, hashed: seq<byte>, emLen: nat)
    ensures SignaturePadded(algo, hashed, emLen).Ok? <==>
      |hashed| == HashByteLength(algo) && |Fill(0xff, 8)| + |HashHeader(algo) + hashed| + 3 <= emLen
    ensures SignaturePadded(algo, hashed, emLen) == Err(InvalidHashLength) <==> |hashed| != HashByteLength(algo)
  {
    hide HashHeader, HashByteLength;
  }

  /** The position of the hash's header tells how long header and hash are. */
  lemma PaddedParts(algo: HashAlgorithm, hashed: seq<byte>, emLen: nat)
    requires SignaturePadded(algo, hashed, emLen).Ok?
    ensures var em, k := SignaturePadded(algo, hashed, emLen).value, emLen - |HashHeader(algo)| - |hashed|;
      && 10 < k < emLen && em[k - 1] == 0 && (forall i :: 2 <= i < k - 1 ==> em[i] == 0xff)
      && em[k..] == HashHeader(algo) + hashed
  {
    hide HashHeader, HashByteLength;
    var h := HashHeader(algo);
    var front := [0, 1] + Fill(0xff, emLen - |h| - |hashed| - 3) + [0];
    assert front + h + hashed == front + (h + hashed);
  }

  /** Two octets of a header tell the algorithm. */
  lemma HeaderMarks(a: HashAlgorithm)
    ensures HashHeader(a)[1] == (match a
      case MD5 => 0x20 case SHA1 => 0x21 case RIPEMD => 0x21 case SHA256 => 0x31 case SHA384 => 0x41
      case SHA512 => 0x51 case SHA224 => 0x2d)
    ensures a == SHA1 ==> HashHeader(a)[7] == 0x0e
    ensures a == RIPEMD ==> HashHeader(a)[7] == 0x24
  {
  }

  lemma HeadersDiffer(a: HashAlgorithm, b: HashAlgorithm, g: seq<byte>, h: seq<byte>)
    requires HashHeader(a) + g == HashHeader(b) + h
    ensures a == b && g == h
  {
    hide HashHeader;
    var t := HashHeader(a) + g;
    HeaderMarks(a);
    HeaderMarks(b);
    assert t[1] == HashHeader(a)[1] == HashHeader(b)[1] && t[7] == HashHeader(a)[7] == HashHeader(b)[7];
    assert t[|HashHeader(a)|..] == g && t[|HashHeader(b)|..] == h;
  }

  /** A padded block belongs to one algorithm and one hash. */
  lemma PaddingBinds(a: HashAlgorithm, g: seq<byte>, b: HashAlgorithm, h: seq<byte>, emLen: nat)
    requires SignaturePadded(a, g, emLen).Ok? && SignaturePadded(a, g, emLen) == SignaturePadded(b, h, emLen)
    ensures a == b && g == h
  {
    hide HashHeader, HashByteLength, SignaturePadded;
    PaddedParts(a, g, emLen);
    PaddedParts(b, h, emLen);
    assert |HashHeader(a)| + |g| == |HashHeader(b)| + |h|;
    HeadersDiffer(a, b, g, h);
  }

  method EmsaEncode(algo: HashAlgorithm, hashed: seq<byte>, emLen: nat) returns (r: Result<seq<byte>>)
    ensures r == SignaturePadded(algo, hashed, emLen)
  {
    if |hashed| != HashByteLength(algo) { return Err(InvalidHashLength); }
    var hashPrefix := HashHeader(algo);
    var tLen := |hashPrefix| + |hashed|;
    if emLen < tLen + 11 { return Err(IntendedLengthTooShort); }
    var em := AssembleSignature(hashPrefix, hashed, emLen);
    return Ok(em);
  }

  /** Fill the parts of a signature block into one buffer. */
  method AssembleSignature(hashPrefix: seq<byte>, hashed: seq<byte>, emLen: nat) returns (r: seq<byte>)
    requires emLen >= |hashPrefix| + |hashed| + 11
    ensures r == [0, 1] + Fill(0xff, emLen - |hashPrefix| - |hashed| - 3) + [0] + hashPrefix + hashed
  {
    var tLen := |hashPrefix| + |hashed|;
    var ps := Fill(0xff, emLen - tLen - 3);
    var em := new byte[emLen](_ => 0);
    em[1] := 0x01;
    SetAt(em, ps, 2);
    assert em[..emLen - tLen] == [0, 1] + ps + [0];
    SetAt(em, hashPrefix, emLen - tLen);
    assert em[..emLen - |hashed|] == [0, 1] + ps + [0] + hashPrefix;
    SetAt(em, hashed, emLen - |hashed|);
    r := em[..];
  }
}
