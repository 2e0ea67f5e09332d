/** Packet headers and bodies: the length codec, and reading one packet from a chunked stream. */
module Packets {
  import opened NumberTheory
  import opened Bytes
  import opened Readers
  import opened Streams
  import opened Results
  import opened Util

  /** Literal, compressed, symmetrically encrypted, integrity-protected and AEAD-encrypted data. */
  predicate SupportsStreaming(tag: nat) { tag == 11 || tag == 8 || tag == 9 || tag == 18 || tag == 20 }

  // ---------------------------------------------------------------- the length codec

  /** The length octets of section 4.2.2 of RFC 4880, for definite lengths. */
  function LengthOctets(n: nat): (b: seq<byte>)
    ensures |b| == if n < 192 then 1 else if n < 8384 then 2 else 5
  {
    if n < 192 then [n]
    else if n < 8384 then [(n - 192) / 256 + 192, (n - 192) % 256]
    else [255] + Digits(n, 4)
  }

  method WriteSimpleLength(length: nat) returns (b: seq<byte>)
    ensures b == LengthOctets(length)
  {
    if length < 192 { return [length]; }
    if 191 < length < 8384 { return [(length - 192) / 256 + 192, (length - 192) % 256]; }
    var number := WriteNumber(length, 4);
    b := [255] + number;
  }

  /** What the reader of a length returns; a missing part stands for undefined or NaN. */
  datatype SimpleLength = SimpleLength(len: Option<nat>, offset: Option<nat>)

  method ReadSimpleLength(bytes: seq<byte>) returns (r: SimpleLength)
    ensures r == Decoded(bytes)
  {
    if |bytes| == 0 { return SimpleLength(Some(0), None); }
    var first: nat := bytes[0];
    if first < 192 {
      r := SimpleLength(Some(first), Some(1));
    } else if first < 255 {
      if |bytes| < 2 { return SimpleLength(None, Some(2)); }
      var second: nat := bytes[1];
      r := SimpleLength(Some((first - 192) * 256 + second + 192), Some(2));
    } else {
      var len := ReadNumber(bytes[1..if |bytes| < 5 then |bytes| else 5]);
      r := SimpleLength(Some(len), Some(5));
    }
  }

  /** The length at the start of a string, and the size of its octets. */
  function Decoded(s: seq<byte>): SimpleLength {
    if |s| == 0 then SimpleLength(Some(0), None)
    else
      var first: nat := s[0];
      if first < 192 then SimpleLength(Some(first), Some(1))
      else if first == 255 then SimpleLength(Some(Value(s[1..if |s| < 5 then |s| else 5])), Some(5))
      else if |s| == 1 then SimpleLength(None, Some(2))
      else
        var second: nat := s[1];
        SimpleLength(Some((first - 192) * 256 + second + 192), Some(2))
  }

  /** Reading a written length gives its size, and the length itself exactly below 2^32. */
  lemma LengthRoundTrip(n: nat, rest: seq<byte>)
    ensures var r := Decoded(LengthOctets(n) + rest);
      && r.offset == Some(|LengthOctets(n)|)
      && (r.len == Some(n) <==> n < 0x1_0000_0000)
  {
    hide Value, Digits;
    if n >= 8384 {
      var s := LengthOctets(n) + rest;
      assert s[1..5] == Digits(n, 4);
      ValueOfDigits(n, 4);
      Pow256Values();
    }
  }

  // ---------------------------------------------------------------- what a packet is

  /** A body, and what follows it. */
  datatype Piece<T> = Piece(body: seq<byte>, rest: seq<T>)

  datatype Packet = Packet(tag: nat, body: seq<byte>)

  /** A length in a header: the octets it takes, and whether more lengths follow its part of the body. */
  datatype LengthField = LengthField(length: int, size: nat, partial: bool)

  /** Four octets as the shift and or operators combine them, absent ones counting as zero. */
  function SignedWord(s: seq<byte>, i: nat): int {
    ToInt32(Value([At(s, i), At(s, i + 1), At(s, i + 2), At(s, i + 3)]))
  }

  function PartialSize(power: nat): (n: nat)
    ensures n >= 1
  {
    PowPositive(2, power);
    Pow(2, power)
  }

  /** A new-format length. Where the octets run out, reads give undefined: zero, or no number at all. */
  function NewLength(s: seq<byte>): (f: LengthField)
    ensures f.size <= |s| && (f.partial ==> f.size == 1 && f.length >= 1)
  {
    if |s| == 0 then LengthField(0, 0, false)
    else
      var first: nat := s[0];
      if first < 192 then LengthField(first, 1, false)
      else if first < 224 then
        if |s| == 1 then LengthField(0, 1, false)
        else
          var second: nat := s[1];
          LengthField((first - 192) * 256 + second + 192, 2, false)
      else if first < 255 then LengthField(PartialSize(first - 224), 1, true)
      else LengthField(SignedWord(s, 1), Least(5, |s|), false)
  }

  /** An old-format length of one, two or four octets. */
  function OldLength(lengthType: nat, s: seq<byte>): (f: LengthField)
    requires lengthType < 3
    ensures f.size <= |s|
  {
    if lengthType == 0 then LengthField(At(s, 0), Least(1, |s|), false)
    else if lengthType == 1 then
      var high: nat, low: nat := At(s, 0), At(s, 1);
      LengthField(high * 256 + low, Least(2, |s|), false)
    else LengthField(SignedWord(s, 0), Least(4, |s|), false)
  }

  /** That many octets; nothing for a length of zero or below. */
  function Take(length: int, s: seq<byte>): Result<Piece<byte>> {
    if length <= 0 then Ok(Piece([], s))
    else if |s| < length then Err(UnexpectedEnd)
    else Ok(Piece(s[..length], s[length..]))
  }

  function After<T>(b: seq<byte>, r: Result<Piece<T>>): Result<Piece<T>> {
    match r case Ok(p) => Ok(Piece(b + p.body, p.rest)) case Err(e) => Err(e)
  }

  function NewBody(tag: nat, s: seq<byte>): (r: Result<Piece<byte>>)
    ensures r.Ok? ==> |r.value.rest| <= |s|
    decreases |s|
  {
    var f := NewLength(s);
    if f.partial && !SupportsStreaming(tag) then Err(PartialLengthsNotSupported)
    else
      match Take(f.length, s[f.size..])
      case Err(e) => Err(e)
      case Ok(p) => if f.partial then After(p.body, NewBody(tag, p.rest)) else Ok(p)
  }

  function OldBody(lengthType: nat, s: seq<byte>): (r: Result<Piece<byte>>)
    requires lengthType < 4
    ensures r.Ok? ==> |r.value.rest| <= |s|
  {
    if lengthType == 3 then Ok(Piece(s, []))
    else
      var f := OldLength(lengthType, s);
      Take(f.length, s[f.size..])
  }

  function BodyOf(first: byte, s: seq<byte>): (r: Result<Piece<byte>>)
    ensures r.Ok? ==> |r.value.rest| <= |s|
  {
    if first / 64 % 2 == 1 then NewBody(first % 64, s) else OldBody(first % 4, s)
  }

  function TagOf(first: byte): nat { if first / 64 % 2 == 1 then first % 64 else first % 64 / 4 }

  /** The first packet of a string. */
  function Parse(s: seq<byte>): (r: Result<(Packet, seq<byte>)>)
    ensures r.Ok? ==> |r.value.1| < |s|
  {
    if |s| < 2 || s[0] < 128 then Err(MalformedPacket)
    else
      match BodyOf(s[0], s[1..])
      case Err(e) => Err(e)
      case Ok(p) => Ok((Packet(TagOf(s[0]), p.body), p.rest))
  }

  /** All packets of a string; there has to be one. */
  function ParseAll(s: seq<byte>): Result<seq<Packet>>
    decreases |s|
  {
    match Parse(s)
    case Err(e) => Err(e)
    case Ok((p, rest)) =>
      if rest == [] then Ok([p])
      else
        Following([p], ParseAll(rest))
  }

  function Following(ps: seq<Packet>, r: Result<seq<Packet>>): Result<seq<Packet>> {
    match r case Ok(qs) => Ok(ps + qs) case Err(e) => Err(e)
  }

  lemma FollowingTwice(a: seq<Packet>, b: seq<Packet>, r: Result<seq<Packet>>)
    ensures Following(a, Following(b, r)) == Following(a + b, r) && Following([], r) == r
  {
    match r
    case Ok(ps) => assert a + (b + ps) == (a + b) + ps && [] + ps == ps;
    case Err(_) =>
  }

  // ---------------------------------------------------------------- the header branches agree with the codec

  lemma SignedWordOf(n: nat, s: seq<byte>, i: nat)
    requires |s| >= i + 4 && s[i..i + 4] == Digits(n, 4)
    ensures SignedWord(s, i) == ToInt32(n)
  {
    hide Value, Digits;
    assert [At(s, i), At(s, i + 1), At(s, i + 2), At(s, i + 3)] == s[i..i + 4];
    ValueOfDigits(n, 4);
    Pow256Values();
    CongMod(n, 0x1_0000_0000);
  }

  /**
   The branches of the packet reader take a written length for what it is exactly below 2^31; then its sign bit
   is read.
   */
  lemma HeaderLength(n: nat, rest: seq<byte>)
    ensures var f := NewLength(LengthOctets(n) + rest);
      && !f.partial && f.size == |LengthOctets(n)|
      && (f.length == n <==> n < 0x8000_0000)
      && (f.length <= 0 <==>
            n == 0 || n % 0x1_0000_0000 >= 0x8000_0000 || (n >= 0x1_0000_0000 && n % 0x1_0000_0000 == 0))
  {
    hide Value, Digits;
    var s := LengthOctets(n) + rest;
    if n >= 8384 {
      assert s[1..5] == Digits(n, 4);
      SignedWordOf(n, s, 1);
    }
  }

  /** No definite length that the reader takes for n is shorter than the one written. */
  lemma LengthIsShortest(s: seq<byte>, n: nat)
    requires |s| >= 5 && !NewLength(s).partial && NewLength(s).length == n
    ensures NewLength(s).size >= |LengthOctets(n)|
  {
    hide SignedWord, PartialSize;
  }

  // ---------------------------------------------------------------- old-format packets

  /** The octets of an old-format length: one, two or four. */
  function OldSize(lengthType: nat): nat
    requires lengthType < 3
  {
    if lengthType == 0 then 1 else if lengthType == 1 then 2 else 4
  }

  /** A packet in the format of section 4.2.1 of RFC 4880. */
  function OldOctets(tag: nat, lengthType: nat, body: seq<byte>): seq<byte>
    requires tag < 16 && lengthType < 4
  {
    [128 + 4 * tag + lengthType] + (if lengthType == 3 then [] else Digits(|body|, OldSize(lengthType))) + body
  }

  lemma OldHeader(tag: nat, lengthType: nat)
    requires tag < 16 && lengthType < 4
    ensures var first := 128 + 4 * tag + lengthType;
      first / 64 % 2 == 0 && first % 4 == lengthType && TagOf(first) == tag
  {
    DivModUnique(128 + 4 * tag + lengthType, 64, 2, 4 * tag + lengthType);
    DivModUnique(4 * tag + lengthType, 4, tag, lengthType);
  }

  /** The length octets are read as the number they spell, but for the sign of four of them. */
  lemma OldLengthRead(lengthType: nat, n: nat, rest: seq<byte>)
    requires lengthType < 3 && n < Pow(256, OldSize(lengthType))
    ensures OldLength(lengthType, Digits(n, OldSize(lengthType)) + rest)
         == LengthField(if lengthType == 2 then ToInt32(n) else n, OldSize(lengthType), false)
  {
    hide Value, ToInt32;
    Pow256Values();
    var s := Digits(n, OldSize(lengthType)) + rest;
    if lengthType == 0 {
      assert Digits(n, 1) == Digits(n / 256, 0) + [n % 256];
      ModSmall(n, 256);
    } else if lengthType == 1 {
      assert Digits(n, 2) == Digits(n / 256, 1) + [n % 256];
      assert Digits(n / 256, 1) == Digits(n / 256 / 256, 0) + [n / 256 % 256];
      ModSmall(n / 256, 256);
    } else {
      assert s[0..4] == Digits(n, 4);
      SignedWordOf(n, s, 0);
    }
  }

  /** Where an old-format packet is read back: below 2^31 under four length octets, always under fewer. */
  lemma OldFormatRead(tag: nat, lengthType: nat, body: seq<byte>, rest: seq<byte>)
    requires tag < 16 && lengthType < 3 && |body| < Pow(256, OldSize(lengthType))
    ensures Parse(OldOctets(tag, lengthType, body) + rest) == Ok((Packet(tag, body), rest)) <==> |body| < 0x8000_0000
  {
    hide OldLength, TagOf, Digits, Take, ToInt32;
    var n, size := |body|, OldSize(lengthType);
    var s := OldOctets(tag, lengthType, body) + rest;
    OldHeader(tag, lengthType);
    Pow256Values();
    var t := s[1..];
    assert t == Digits(n, size) + (body + rest) && t[size..] == body + rest;
    OldLengthRead(lengthType, n, body + rest);
    var length := if lengthType == 2 then ToInt32(n) else n;
    assert BodyOf(s[0], t) == Take(length, body + rest);
    TakeBodyIff(length, body, rest);
    SignOfWord(n);
  }

  lemma TakeBodyIff(length: int, body: seq<byte>, rest: seq<byte>)
    ensures Take(length, body + rest) == Ok(Piece(body, rest)) <==> length == |body| || (length <= 0 && |body| == 0)
  {
    if length == |body| { assert (body + rest)[..length] == body && (body + rest)[length..] == rest; }
    if |body| == 0 { assert body + rest == rest; }
  }

  lemma SignOfWord(n: nat)
    requires n < 0x1_0000_0000
    ensures ToInt32(n) == if n < 0x8000_0000 then n else n - 0x1_0000_0000
  {
    ModSmall(n, 0x1_0000_0000);
  }

  /** Without a length the body goes on to the end. */
  lemma IndeterminateRead(tag: nat, body: seq<byte>)
    requires tag < 16
    ensures Parse(OldOctets(tag, 3, body))
         == if |body| == 0 then Err(MalformedPacket) else Ok((Packet(tag, body), []))
  {
    hide TagOf;
    OldHeader(tag, 3);
    assert OldOctets(tag, 3, body)[1..] == body;
  }

  // ---------------------------------------------------------------- which packets may come in parts

  lemma {:induction false} SupportedParts(tag: nat, s: seq<byte>)
    requires SupportsStreaming(tag)
    ensures NewBody(tag, s) != Err(PartialLengthsNotSupported)
    decreases |s|
  {
    hide NewLength, Take;
    var f := NewLength(s);
    TakeShrinks(f.length, s[f.size..]);
    var p := Take(f.length, s[f.size..]);
    if f.partial && p.Ok? { SupportedParts(tag, p.value.rest); }
  }

  /** Only literal, compressed and the three kinds of encrypted data may begin with a partial length. */
  lemma PartsRefusedIff(tag: nat, power: nat, rest: seq<byte>)
    requires tag < 64 && power < 31
    ensures Parse([192 + tag, 224 + power] + rest) == Err(PartialLengthsNotSupported) <==> tag !in {8, 9, 11, 18, 20}
  {
    hide PartialSize;
    var s: seq<byte> := [192 + tag, 224 + power] + rest;
    DivModUnique(192 + tag, 64, 3, tag);
    assert s[1..][0] == 224 + power;
    if SupportsStreaming(tag) { SupportedParts(tag, s[1..]); }
  }

  // ---------------------------------------------------------------- streams with empty chunks

  /** A missing octet counts as zero where the shift operators combine it. */
  function Filled(m: seq<Mark>): (s: seq<byte>)
    ensures |s| == |m|
  {
    seq(|m|, i requires 0 <= i < |m| => if m[i].Some? then m[i].value else 0)
  }

  /** A new-format length; a missing first octet reads as 255, a missing second one makes no number. */
  function NewLengthSeen(m: seq<Mark>): (f: LengthField)
    ensures f.size <= |m| && (f.partial ==> f.size == 1 && f.length >= 1)
  {
    if |m| > 0 && m[0].None? then LengthField(SignedWord(Filled(m), 1), Least(5, |m|), false)
    else if |m| > 1 && m[1].None? && 192 <= m[0].value < 224 then LengthField(0, 2, false)
    else NewLength(Filled(m))
  }

  function OldLengthSeen(lengthType: nat, m: seq<Mark>): (f: LengthField)
    requires lengthType < 3
    ensures f.size <= |m|
  {
    OldLength(lengthType, Filled(m))
  }

  function TakeSeen(length: int, m: seq<Mark>): (r: Result<Piece<Mark>>)
    ensures r.Ok? ==> |r.value.rest| <= |m| && (length > 0 ==> |m| > 0 && |r.value.rest| < |m|)
  {
    if length <= 0 then Ok(Piece([], m))
    else if |Octets(m)| < length then Err(UnexpectedEnd)
    else Ok(Piece(Octets(m[..Reach(m, length)]), m[Reach(m, length)..]))
  }

  function NewBodySeen(tag: nat, m: seq<Mark>): (r: Result<Piece<Mark>>)
    ensures r.Ok? ==> |r.value.rest| <= |m|
    decreases |m|
  {
    var f := NewLengthSeen(m);
    if f.partial && !SupportsStreaming(tag) then Err(PartialLengthsNotSupported)
    else
      match TakeSeen(f.length, m[f.size..])
      case Err(e) => Err(e)
      case Ok(p) => if f.partial then After(p.body, NewBodySeen(tag, p.rest)) else Ok(p)
  }

  function OldBodySeen(lengthType: nat, m: seq<Mark>): (r: Result<Piece<Mark>>)
    requires lengthType < 4
    ensures r.Ok? ==> |r.value.rest| <= |m|
  {
    if lengthType == 3 then Ok(Piece(Octets(m), []))
    else
      var f := OldLengthSeen(lengthType, m);
      TakeSeen(f.length, m[f.size..])
  }

  function BodySeen(first: byte, m: seq<Mark>): (r: Result<Piece<Mark>>)
    ensures r.Ok? ==> |r.value.rest| <= |m|
  {
    if first / 64 % 2 == 1 then NewBodySeen(first % 64, m) else OldBodySeen(first % 4, m)
  }

  /** What is left when the reader has peeked behind a packet. */
  function Settled(tag: nat, m: seq<Mark>): (r: seq<Mark>)
    ensures |r| <= |m|
  {
    if SupportsStreaming(tag) then Marked(Octets(m)) else Peeked(m, 2)
  }

  /** The first packet of a stream; its first two octets are peeked at, which joins the chunks they come from. */
  function ParseSeen(m: seq<Mark>): (r: Result<(Packet, seq<Mark>)>)
    ensures r.Ok? ==> |r.value.1| < |m|
  {
    var p := Peeked(m, 2);
    if |Octets(m)| < 2 || Octets(m)[0] < 128 then Err(MalformedPacket)
    else
      PeekedTwo(m);
      var first := Octets(m)[0];
      match BodySeen(first, p[1..])
      case Err(e) => Err(e)
      case Ok(part) => Ok((Packet(TagOf(first), part.body), Settled(TagOf(first), part.rest)))
  }

  function ParseAllSeen(m: seq<Mark>): Result<seq<Packet>>
    decreases |m|
  {
    match ParseSeen(m)
    case Err(e) => Err(e)
    case Ok((p, rest)) => if Octets(rest) == [] then Ok([p]) else Following([p], ParseAllSeen(rest))
  }

  // ---------------------------------------------------------------- without empty chunks it is the format

  function Lifted(r: Result<Piece<byte>>): Result<Piece<Mark>> {
    match r case Ok(p) => Ok(Piece(p.body, Marked(p.rest))) case Err(e) => Err(e)
  }

  lemma FilledMarked(s: seq<byte>)
    ensures Filled(Marked(s)) == s
  {
  }

  lemma LengthsOfMarked(s: seq<byte>, lengthType: nat)
    requires lengthType < 3
    ensures NewLengthSeen(Marked(s)) == NewLength(s) && OldLengthSeen(lengthType, Marked(s)) == OldLength(lengthType, s)
  {
    hide NewLength, OldLength, SignedWord;
    FilledMarked(s);
  }

  lemma TakeOfMarked(length: int, s: seq<byte>)
    ensures TakeSeen(length, Marked(s)) == Lifted(Take(length, s))
  {
    hide Octets, Reach;
    OctetsOfMarked(s);
    if 0 < length <= |s| { ReachMarked(s, length); }
  }

  lemma {:induction false} NewBodyOfMarked(tag: nat, s: seq<byte>)
    ensures NewBodySeen(tag, Marked(s)) == Lifted(NewBody(tag, s))
    decreases |s|
  {
    hide NewLength, NewLengthSeen, Take, TakeSeen, Marked;
    var f := NewLength(s);
    LengthsOfMarked(s, 0);
    MarkedBehind(s, f.size);
    TakeOfMarked(f.length, s[f.size..]);
    TakeShrinks(f.length, s[f.size..]);
    if f.partial && SupportsStreaming(tag) {
      var p := Take(f.length, s[f.size..]);
      if p.Ok? { NewBodyOfMarked(tag, p.value.rest); }
    }
  }

  lemma TakeShrinks(length: int, s: seq<byte>)
    ensures Take(length, s).Ok? ==> |Take(length, s).value.rest| <= |s| && (length > 0 ==> |s| > 0)
    ensures Take(length, s).Err? ==> Take(length, s).error == UnexpectedEnd
  {
  }

  lemma BodyOfMarked(first: byte, s: seq<byte>)
    ensures BodySeen(first, Marked(s)) == Lifted(BodyOf(first, s))
  {
    hide NewBody, NewBodySeen, OldLength, OldLengthSeen, Take, TakeSeen, Marked;
    if first / 64 % 2 == 1 {
      NewBodyOfMarked(first % 64, s);
    } else if first % 4 == 3 {
      OctetsOfMarked(s);
      OctetsOfMarked([]);
      assert Marked([]) == [];
    } else {
      var f := OldLength(first % 4, s);
      LengthsOfMarked(s, first % 4);
      MarkedBehind(s, f.size);
      TakeOfMarked(f.length, s[f.size..]);
    }
  }

  lemma ParseOfMarked(s: seq<byte>)
    ensures ParseSeen(Marked(s))
         == match Parse(s) case Ok((p, rest)) => Ok((p, Marked(rest))) case Err(e) => Err(e)
  {
    hide BodyOf, BodySeen, Marked, Octets, Peeked, TagOf;
    OctetsOfMarked(s);
    PeekedMarked(s, 2);
    if |s| >= 2 {
      MarkedBehind(s, 1);
      BodyOfMarked(s[0], s[1..]);
      var r := BodyOf(s[0], s[1..]);
      if r.Ok? {
        OctetsOfMarked(r.value.rest);
        PeekedMarked(r.value.rest, 2);
      }
    }
  }

  lemma {:induction false} ParseAllOfMarked(s: seq<byte>)
    ensures ParseAllSeen(Marked(s)) == ParseAll(s)
    decreases |s|
  {
    hide Parse, ParseSeen, Marked, Octets;
    ParseOfMarked(s);
    if Parse(s).Ok? {
      var rest := Parse(s).value.1;
      OctetsOfMarked(rest);
      if rest != [] { ParseAllOfMarked(rest); }
    }
  }

  // ---------------------------------------------------------------- where an empty chunk matters

  /** The string with an empty chunk behind its first k octets. */
  function Gapped(s: seq<byte>, k: nat): seq<Mark>
    requires k <= |s|
  {
    Marked(s[..k]) + [None] + Marked(s[k..])
  }

  lemma GappedChunks(s: seq<byte>, k: nat)
    requires 0 < k < |s|
    ensures Marks([s[..k], [], s[k..]]) == Gapped(s, k)
  {
    var a, b, c := s[..k], [], s[k..];
    var all: seq<seq<byte>> := [a, b, c];
    assert all[1..] == [b, c] && all[1..][1..] == [c] && all[1..][1..][1..] == [];
    assert Marks([c]) == Marked(c) + Marks([]) == Marked(c);
  }

  /** What is parsed depends on the octets and on what peeking at two of them leaves. */
  lemma ParseOfPeeked(m: seq<Mark>, n: seq<Mark>)
    requires Octets(m) == Octets(n) && (|Octets(m)| >= 2 ==> Peeked(m, 2) == Peeked(n, 2))
    ensures ParseSeen(m) == ParseSeen(n)
  {
    hide BodySeen, Settled, Peeked, Octets;
  }

  lemma EarlyGap(s: seq<byte>, k: nat)
    requires k <= |s| && k < 2
    ensures ParseAllSeen(Gapped(s, k)) == ParseAll(s)
  {
    hide ParseSeen, ParseAll, Gapped, Octets, Peeked, Marked;
    var m := Gapped(s, k);
    OctetsOfGapped(s, k);
    OctetsOfMarked(s);
    if |s| >= 2 {
      PeekedMarked(s, 2);
      GapPeekedAway(s, k);
    }
    ParseOfPeeked(m, Marked(s));
    ParseAllOfMarked(s);
  }

  lemma OctetsOfGapped(s: seq<byte>, k: nat)
    requires k <= |s|
    ensures Octets(Gapped(s, k)) == s
  {
    hide Octets;
    OctetsAppend(Marked(s[..k]) + [None], Marked(s[k..]));
    OctetsAppend(Marked(s[..k]), [None]);
    OctetsOfMarked(s[..k]);
    OctetsOfMarked(s[k..]);
    OctetsOfChunk([]);
    assert s == s[..k] + [] + s[k..];
  }

  lemma GapPeekedAway(s: seq<byte>, k: nat)
    requires k < 2 <= |s|
    ensures Peeked(Gapped(s, k), 2) == Marked(s)
  {
    hide Octets, Reach;
    var m := Gapped(s, k);
    var a := Marked(s[..k]) + [None];
    var v := s[k..2];
    assert m == a + (Marked(v) + Marked(s[2..]));
    OctetsAppend(Marked(s[..k]), [None]);
    OctetsOfMarked(s[..k]);
    OctetsOfChunk([]);
    ReachIs(m, a, v, Marked(s[2..]));
    assert m[..3] == a + Marked(v) && m[3..] == Marked(s[2..]);
    OctetsAppend(a, Marked(v));
    OctetsOfMarked(v);
    assert s[..k] + [] + v == s[..2];
    assert Marked(s[..2]) + Marked(s[2..]) == Marked(s);
  }

  /** j empty signature packets, and one of a single octet under a five-octet length. */
  function Witness(j: nat): (s: seq<byte>)
    ensures |s| == 2 * j + 7
  {
    if j == 0 then [194, 255, 0, 0, 0, 1, 0] else [194, 0] + Witness(j - 1)
  }

  /** A signature packet under a definite length. */
  lemma ParseByLength(s: seq<byte>, n: nat, size: nat)
    requires |s| >= 2 && s[0] == 194 && 1 + size + n <= |s| && NewLength(s[1..]) == LengthField(n, size, false)
    ensures Parse(s) == Ok((Packet(2, s[1 + size..1 + size + n]), s[1 + size + n..]))
  {
    hide NewLength, Take;
    var t := s[1..][size..];
    TakeWhole(s, n, size);
    assert NewBody(2, s[1..]) == Take(n, t);
  }

  lemma TakeWhole(s: seq<byte>, n: nat, size: nat)
    requires 1 + size + n <= |s|
    ensures Take(n, s[1..][size..]) == Ok(Piece(s[1 + size..1 + size + n], s[1 + size + n..]))
  {
    var t := s[1..][size..];
    assert t == s[1 + size..];
    assert t[..n] == s[1 + size..1 + size + n] && t[n..] == s[1 + size + n..];
  }

  /** A signature packet whose length reads as zero. */
  lemma ParseEmptySeen(m: seq<Mark>, size: nat)
    requires |m| >= 2 && m[0] == Some(194) && m[1].Some? && NewLengthSeen(m[1..]) == LengthField(0, size, false)
    requires Peeked(m[1..][size..], 2) == m[1..][size..]
    ensures ParseSeen(m) == Ok((Packet(2, []), m[1..][size..]))
  {
    hide NewLengthSeen, Octets, Peeked;
    PeekedFull(m);
    assert NewBodySeen(2, m[1..]) == Ok(Piece([], m[1..][size..]));
  }

  lemma EmptyPacketFirst(m: seq<Mark>)
    requires |m| >= 2 && m[0].Some? && m[1].Some?
    ensures ParseSeen(Marked([194, 0]) + m) == Ok((Packet(2, []), m))
  {
    hide Octets, NewLength, Peeked, ParseSeen;
    var all := Marked([194, 0]) + m;
    PeekedFull(m);
    assert all[1..][1..] == m && all[1] == Some(0);
    EmptyLength(Filled(all[1..]));
    ParseEmptySeen(all, 1);
  }

  lemma {:induction false} GapIsRead(j: nat, i: nat)
    requires 2 <= i <= 3
    ensures ParseAllSeen(Gapped(Witness(j), 2 * j + i)).Err?
  {
    hide ParseSeen, Witness, Gapped, Octets, Marked;
    if j == 0 {
      LateGap(i);
    } else {
      var m := Gapped(Witness(j - 1), 2 * (j - 1) + i);
      WitnessStep(j, i);
      PeekedFull(m);
      EmptyPacketFirst(m);
      GapIsRead(j - 1, i);
    }
  }

  lemma WitnessStep(j: nat, i: nat)
    requires j > 0 && 2 <= i <= 3
    ensures var m := Gapped(Witness(j - 1), 2 * (j - 1) + i);
      && |m| >= 2 && m[0].Some? && m[1].Some?
      && Gapped(Witness(j), 2 * j + i) == Marked([194, 0]) + m
  {
    var k := 2 * j + i;
    assert Witness(j)[..k] == [194, 0] + Witness(j - 1)[..k - 2];
    assert Witness(j)[k..] == Witness(j - 1)[k - 2..];
    MarkedAppend([194, 0], Witness(j - 1)[..k - 2]);
  }

  lemma FiveOctetLength(s: seq<byte>, last: byte)
    requires |s| >= 5 && s[..5] == [255, 0, 0, 0, last]
    ensures NewLength(s) == LengthField(last, 5, false)
  {
    hide Value;
    assert s[0] == s[..5][0] && s[1] == s[..5][1] && s[2] == s[..5][2] && s[3] == s[..5][3] && s[4] == s[..5][4];
    assert [At(s, 1), At(s, 2), At(s, 3), At(s, 4)] == [0, 0, 0, last];
    LowValue(last);
  }

  lemma LowValue(last: byte)
    ensures Value([0, 0, 0, last]) == last
  {
    ValueLeadingZero([0, 0, 0, last]);
    ValueLeadingZero([0, 0, last]);
    ValueLeadingZero([0, last]);
    assert [0, 0, 0, last][1..] == [0, 0, last] && [0, 0, last][1..] == [0, last] && [0, last][1..] == [last];
    assert Value([last]) == last;
  }

  /** A missing octet of the length makes it zero, and what follows is no packet. */
  lemma LateGap(i: nat)
    requires 2 <= i <= 3
    ensures ParseAllSeen(Gapped(Witness(0), i)).Err?
  {
    hide Octets, NewLength, Peeked, Marked, ParseSeen, Gapped;
    var m := Gapped(Witness(0), i);
    LateGapMarks(i);
    FiveOctetLength(Filled(m[1..]), 0);
    PeekedMarked([1, 0], 2);
    OctetsOfMarked([1, 0]);
    ParseEmptySeen(m, 5);
    NoPacket();
  }

  lemma NoPacket()
    ensures ParseAllSeen(Marked([1, 0])).Err?
  {
    ParseAllOfMarked([1, 0]);
  }

  lemma LateGapMarks(i: nat)
    requires 2 <= i <= 3
    ensures var m := Gapped(Witness(0), i);
      && |m| == 8 && m[0] == Some(194) && m[1] == Some(255) && m[1..][5..] == Marked([1, 0])
      && Filled(m[1..])[..5] == [255, 0, 0, 0, 0]
  {
    hide Filled, Marked;
    var m, s := Gapped(Witness(0), i), Witness(0);
    GappedFront(s, i);
    GappedBack(s, i);
    assert m[1..][5..] == m[6..] && s[5..] == [1, 0];
    var f := Filled(m[1..]);
    assert f == (s[..i] + [0] + s[i..])[1..];
    assert f[..5] == [f[0], f[1], f[2], f[3], f[4]];
  }

  lemma GappedFront(s: seq<byte>, k: nat)
    requires 2 <= k <= |s|
    ensures var m := Gapped(s, k);
      |m| == |s| + 1 && m[0] == Some(s[0]) && m[1] == Some(s[1]) && Filled(m[1..]) == (s[..k] + [0] + s[k..])[1..]
  {
  }

  lemma GappedBack(s: seq<byte>, k: nat)
    requires k <= 3 && |s| == 7
    ensures Gapped(s, k)[6..] == Marked(s[5..])
  {
  }

  lemma {:induction false} WitnessIsRead(j: nat)
    ensures ParseAll(Witness(j)).Ok?
  {
    hide NewLength, Parse;
    var s := Witness(j);
    if j == 0 {
      assert s[1..][..5] == [255, 0, 0, 0, 1];
      FiveOctetLength(s[1..], 1);
      ParseByLength(s, 1, 5);
      assert s[7..] == [];
    } else {
      WitnessIsRead(j - 1);
      EmptyLength(s[1..]);
      ParseByLength(s, 0, 1);
      assert s[2..] == Witness(j - 1);
    }
  }

  lemma EmptyLength(s: seq<byte>)
    requires |s| > 0 && s[0] == 0
    ensures NewLength(s) == LengthField(0, 1, false)
  {
    hide SignedWord, PartialSize;
  }

  /** An empty chunk behind k octets changes the reading of some packets exactly if k is at least two. */
  lemma GapMattersIff(k: nat)
    ensures (forall s: seq<byte> :: k <= |s| ==> ParseAllSeen(Gapped(s, k)) == ParseAll(s)) <==> k < 2
  {
    hide ParseAll, ParseAllSeen, Gapped;
    if k < 2 {
      forall s: seq<byte> | k <= |s|
        ensures ParseAllSeen(Gapped(s, k)) == ParseAll(s)
      {
        EarlyGap(s, k);
      }
    } else {
      var j, i := (k - 2) / 2, 2 + k % 2;
      assert k == 2 * j + i;
      GapIsRead(j, i);
      WitnessIsRead(j);
    }
  }

  // ---------------------------------------------------------------- reading from a stream

  /** What is left when the first k octets have been asked for. */
  function Behind(m: seq<Mark>, k: nat): seq<Mark> { m[Least(k, |m|)..] }

  lemma BehindNext(m: seq<Mark>, k: nat)
    ensures At(Filled(Behind(m, k)), 0) == At(Filled(m), k)
    ensures Behind(Behind(m, k), 1) == Behind(m, k + 1) && Behind(m, 0) == m
  {
  }

  /** One octet as the bitwise operators see it. */
  method ReadOctet(reader: Reader) returns (b: byte)
    modifies reader
    ensures b == At(Filled(old(reader.Seen())), 0) && reader.Seen() == Behind(old(reader.Seen()), 1)
  {
    hide Reader.Rest, Reader.Solid, Reader.Seen;
    var o := reader.ReadByte();
    b := if o.Some? then o.value else 0;
  }

  method ReadSignedWord(reader: Reader) returns (n: int)
    modifies reader
    ensures n == SignedWord(Filled(old(reader.Seen())), 0) && reader.Seen() == Behind(old(reader.Seen()), 4)
  {
    hide Reader.Rest, Reader.Solid, Reader.Seen, Value, Behind, At, ToInt32, Filled;
    ghost var m := reader.Seen();
    BehindNext(m, 0);
    var a := ReadOctet(reader);
    BehindNext(m, 1);
    var b := ReadOctet(reader);
    BehindNext(m, 2);
    var c := ReadOctet(reader);
    BehindNext(m, 3);
    var d := ReadOctet(reader);
    var value := ReadNumber([a, b, c, d]);
    n := ToInt32(value);
  }

  method ReadNewLength(reader: Reader) returns (length: int, partial: bool)
    modifies reader
    ensures var f := NewLengthSeen(old(reader.Seen()));
      length == f.length && partial == f.partial && reader.Seen() == old(reader.Seen())[f.size..]
  {
    hide Reader.Rest, Reader.Solid, Reader.Seen, SignedWord, Octets;
    ghost var m := reader.Seen();
    var lengthByte := reader.ReadByte();
    partial := false;
    if lengthByte.Some? && lengthByte.value < 192 {
      length := lengthByte.value;
    } else if lengthByte.Some? && 192 <= lengthByte.value < 224 {
      var second := reader.ReadByte();
      var high: nat := lengthByte.value;
      // Adding undefined gives NaN, which is not above zero.
      length := if second.None? then 0 else (high - 192) * 256 + second.value + 192;
    } else if lengthByte.Some? && 223 < lengthByte.value < 255 {
      var power: nat := lengthByte.value - 224;
      length := PartialSize(power);
      partial := true;
    } else {
      WordAfter(m);
      length := ReadSignedWord(reader);
    }
  }

  lemma WordAfter(m: seq<Mark>)
    ensures m != [] ==> SignedWord(Filled(m), 1) == SignedWord(Filled(m[1..]), 0)
    ensures m == [] ==> SignedWord(Filled(m), 0) == 0
  {
    hide Value;
    var s, t := Filled(m), Filled(Tail(m));
    if m != [] {
      assert s[1..] == t;
      assert [At(s, 1), At(s, 2), At(s, 3), At(s, 4)] == [At(t, 0), At(t, 1), At(t, 2), At(t, 3)];
    }
    ZeroValue();
  }

  method ReadOldLength(reader: Reader, lengthType: nat) returns (length: int)
    requires lengthType < 3
    modifies reader
    ensures var f := OldLengthSeen(lengthType, old(reader.Seen()));
      length == f.length && reader.Seen() == old(reader.Seen())[f.size..]
  {
    hide Reader.Rest, Reader.Solid, Reader.Seen, SignedWord, Behind, At, Filled;
    ghost var m := reader.Seen();
    if lengthType == 0 {
      length := ReadOctet(reader);
    } else if lengthType == 1 {
      BehindNext(m, 0);
      var high: nat := ReadOctet(reader);
      BehindNext(m, 1);
      var low: nat := ReadOctet(reader);
      length := high * 256 + low;
    } else {
      length := ReadSignedWord(reader);
    }
    BehindIs(m);
  }

  lemma BehindIs(m: seq<Mark>)
    ensures Behind(m, 1) == m[Least(1, |m|)..] && Behind(m, 2) == m[Least(2, |m|)..]
    ensures Behind(m, 4) == m[Least(4, |m|)..]
  {
  }

  /** Read a body of the given length, or to the end of the stream if there is none. */
  method ReadBody(reader: Reader, packetLength: Option<int>) returns (r: Result<seq<byte>>)
    requires packetLength.Some? ==> packetLength.value > 0
    modifies reader
    ensures packetLength.None? ==> r == Ok(Octets(old(reader.Seen()))) && reader.Seen() == []
    ensures packetLength.Some? ==> Taken(packetLength.value, old(reader.Seen()), r, reader.Seen())
  {
    hide Reader.Rest, Reader.Solid, Reader.Seen, Taken, IsRead, Takes, First, Tail, Octets, ChunkMarks, Marked;
    ghost var m := reader.Seen();
    var body: seq<byte> := [];
    var bytesRead := 0;
    NothingRead(m);
    while true
      invariant IsRead(m, body, reader.Seen()) && bytesRead == |body|
      invariant packetLength.Some? ==> bytesRead < packetLength.value
      decreases |reader.chunks|
    {
      var next := reader.Read();
      if next.None? {
        ReadAllThere(m, body, if packetLength.Some? then packetLength.value else |body| + 1);
        if packetLength.None? { return Ok(body); }
        TooShort(packetLength.value, m, reader.Seen());
        return Err(UnexpectedEnd);
      }
      var value := next.value;
      ghost var after := reader.Seen();
      var n := if packetLength.None? then |value| else Least(|value|, packetLength.value - bytesRead);
      if packetLength.Some? && bytesRead + |value| >= packetLength.value {
        ReadEnough(m, body, value, after, packetLength.value);
        TookEnough(packetLength.value, m, body + value[..n], Marked(value[n..]) + after);
      } else {
        OctetsOfChunk(value);
        ReadOn(m, body, value, ChunkMarks(value), after);
        assert value[..n] == value;
      }
      body := body + value[..n];
      bytesRead := bytesRead + |value|;
      if packetLength.Some? && bytesRead >= packetLength.value {
        reader.Unshift(value[packetLength.value - bytesRead + |value|..]);
        return Ok(body);
      }
    }
  }

  /** r is what reading a body of that length from m gives, with rest left over unless it fails. */
  predicate Taken(length: int, m: seq<Mark>, r: Result<seq<byte>>, rest: seq<Mark>) {
    match TakeSeen(length, m)
    case Err(e) => r == Err(e)
    case Ok(p) => r == Ok(p.body) && rest == p.rest
  }

  lemma TooShort(length: int, m: seq<Mark>, rest: seq<Mark>)
    requires |Octets(m)| < length
    ensures Taken(length, m, Err(UnexpectedEnd), rest)
  {
  }

  lemma TookEnough(length: int, m: seq<Mark>, body: seq<byte>, rest: seq<Mark>)
    requires length > 0 && |body| == length && Takes(m, length, body, rest)
    ensures Taken(length, m, Ok(body), rest)
  {
    hide Octets, Reach;
    var k := Reach(m, length);
    assert m == m[..k] + m[k..];
    OctetsAppend(m[..k], m[k..]);
  }

  lemma AfterTwice<T>(a: seq<byte>, b: seq<byte>, r: Result<Piece<T>>)
    ensures After(a, After(b, r)) == After(a + b, r) && After([], r) == r
  {
    match r
    case Ok(p) => assert a + (b + p.body) == (a + b) + p.body && [] + p.body == p.body;
    case Err(_) =>
  }

  lemma RestSeen(reader: Reader)
    ensures reader.Rest() == Octets(reader.Seen())
  {
    OctetsOfMarks(reader.chunks);
  }

  /** On a stream without empty chunks, reading is parsing. */
  lemma SolidParse(reader: Reader)
    requires reader.Solid()
    ensures match Parse(reader.Rest())
      case Err(e) => ParseSeen(reader.Seen()) == Err(e)
      case Ok((p, rest)) => ParseSeen(reader.Seen()) == Ok((p, Marked(rest))) && Octets(Marked(rest)) == rest
  {
    hide Parse, ParseSeen, Marked, Octets, Flatten, Marks;
    MarksOfSolid(reader.chunks);
    ParseOfMarked(reader.Rest());
    if Parse(reader.Rest()).Ok? { OctetsOfMarked(Parse(reader.Rest()).value.1); }
  }

  /** Read one packet; done tells that nothing follows it. Only empty chunks leave a trace in the result. */
  method ReadPackets(reader: Reader) returns (r: Result<Packet>, done: bool)
    modifies reader
    ensures match ParseSeen(old(reader.Seen()))
      case Err(e) => r == Err(e)
      case Ok((p, rest)) => r == Ok(p) && reader.Seen() == rest && done == (Octets(rest) == [])
    ensures old(reader.Solid()) ==>
      match Parse(old(reader.Rest()))
      case Err(e) => r == Err(e)
      case Ok((p, rest)) => r == Ok(p) && reader.Rest() == rest && done == (rest == [])
  {
    hide Reader.Rest, Reader.Solid, Reader.Seen, NewLengthSeen, OldLengthSeen, TakeSeen, Peeked, Octets, Marked;
    hide Parse, BodySeen, Takes, Taken;
    done := true;
    ghost var m := reader.Seen();
    RestSeen(reader);
    if reader.Solid() { SolidParse(reader); }
    var peeked := reader.PeekBytes(Some(2));
    if |peeked| < 2 || peeked[0] < 128 { return Err(MalformedPacket), done; }
    PeekedTwo(m);
    var header := reader.ReadByte();
    var headerByte := header.value;
    var format := headerByte / 64 % 2;
    var tag: nat := if format == 1 then headerByte % 64 else headerByte % 64 / 4;
    var body: seq<byte> := [];
    var wasPartialLength := true;
    ghost var goal := BodySeen(headerByte, reader.Seen());
    AfterTwice([], [], goal);
    while wasPartialLength
      invariant goal == if wasPartialLength then After(body, BodySeen(headerByte, reader.Seen()))
                        else Ok(Piece(body, reader.Seen()))
      decreases if wasPartialLength then |reader.Seen()| + 1 else 0
    {
      ghost var before := reader.Seen();
      Turn(headerByte, before);
      var packetLength: Option<int> := None;
      wasPartialLength := false;
      if format == 0 {
        if headerByte % 4 < 3 {
          var length := ReadOldLength(reader, headerByte % 4);
          packetLength := Some(length);
        }
      } else {
        var length, partial := ReadNewLength(reader);
        packetLength, wasPartialLength := Some(length), partial;
        if partial && !SupportsStreaming(tag) { return Err(PartialLengthsNotSupported), done; }
      }
      ghost var after := reader.Seen();
      if packetLength.Some? { TakeNothing(packetLength.value, after); }
      if packetLength.None? || packetLength.value > 0 {
        var piece := ReadBody(reader, packetLength);
        if packetLength.Some? { TakenIs(packetLength.value, after, piece, reader.Seen()); }
        if piece.Err? { return Err(piece.error), done; }
        AfterTwice(body, piece.value, BodySeen(headerByte, reader.Seen()));
        body := body + piece.value;
      } else {
        assert body + [] == body;
      }
    }
    var nextPacket := reader.PeekBytes(if SupportsStreaming(tag) then None else Some(2));
    RestSeen(reader);
    r, done := Ok(Packet(tag, body)), |nextPacket| == 0;
  }

  lemma TakenIs(length: int, m: seq<Mark>, r: Result<seq<byte>>, rest: seq<Mark>)
    requires Taken(length, m, r, rest)
    ensures TakeSeen(length, m) == match r case Ok(b) => Ok(Piece(b, rest)) case Err(e) => Err(e)
  {
    hide TakeSeen;
  }

  /** One turn of the loop over the lengths of a body. */
  lemma Turn(first: byte, m: seq<Mark>)
    ensures first / 64 % 2 == 1 ==>
      var f := NewLengthSeen(m);
      BodySeen(first, m) ==
      if f.partial && !SupportsStreaming(first % 64) then Err(PartialLengthsNotSupported)
      else
        var p := TakeSeen(f.length, m[f.size..]);
        if p.Err? then Err(p.error)
        else if f.partial then After(p.value.body, BodySeen(first, p.value.rest))
        else p
    ensures first / 64 % 2 == 0 && first % 4 < 3 ==>
      var f := OldLengthSeen(first % 4, m);
      BodySeen(first, m) == TakeSeen(f.length, m[f.size..])
    ensures first / 64 % 2 == 0 && first % 4 == 3 ==> BodySeen(first, m) == Ok(Piece(Octets(m), []))
  {
    hide NewLengthSeen, OldLengthSeen, TakeSeen, Octets;
  }

  lemma TakeNothing(length: int, m: seq<Mark>)
    ensures length <= 0 ==> TakeSeen(length, m) == Ok(Piece([], m))
    ensures TakeSeen(length, m).Ok? ==> |TakeSeen(length, m).value.rest| <= |m|
  {
    hide Octets, Reach;
  }

  /** Marker and trust packets are passed over. */
  predicate Ignored(p: Packet) { p.tag == 10 || p.tag == 12 }

  function Kept(ps: seq<Packet>): seq<Packet> {
    if |ps| == 0 then [] else Kept(ps[..|ps| - 1]) + (if Ignored(ps[|ps| - 1]) then [] else [ps[|ps| - 1]])
  }

  lemma KeptSnoc(ps: seq<Packet>, p: Packet)
    ensures Kept([]) == []
    ensures Kept(ps + [p]) == if Ignored(p) then Kept(ps) else Kept(ps) + [p]
  {
    assert (ps + [p])[..|ps|] == ps;
  }

  lemma OneMore(ps: seq<Packet>, x: Packet, p: Packet)
    ensures multiset(ps + [x])[p] == multiset(ps)[p] + (if x == p then 1 else 0)
  {
    assert multiset(ps + [x]) == multiset(ps) + multiset{x};
  }

  /** Nothing is lost or added but markers and trust packets, whose tags are 10 and 12. */
  lemma {:induction false} KeptExactly(ps: seq<Packet>, p: Packet)
    ensures multiset(Kept(ps))[p] == if p.tag == 10 || p.tag == 12 then 0 else multiset(ps)[p]
  {
    hide Kept;
    if |ps| > 0 {
      var front, x := ps[..|ps| - 1], ps[|ps| - 1];
      KeptExactly(front, p);
      assert ps == front + [x];
      KeptSnoc(front, x);
      OneMore(front, x, p);
      OneMore(Kept(front), x, p);
    } else {
      KeptSnoc([], p);
      assert ps == [];
    }
  }

  function KeptOf(r: Result<seq<Packet>>): Result<seq<Packet>> {
    match r case Ok(ps) => Ok(Kept(ps)) case Err(e) => Err(e)
  }

  /** Read packets to the end of the stream. */
  method ReadAll(reader: Reader) returns (r: Result<seq<Packet>>)
    modifies reader
    ensures r == KeptOf(ParseAllSeen(old(reader.Seen())))
    ensures old(reader.Solid()) ==> r == KeptOf(ParseAll(old(reader.Rest())))
  {
    hide Reader.Rest, Reader.Solid, Reader.Seen, Parse, ParseSeen, ParseAll, Kept, Octets;
    if reader.Solid() { SolidParseAll(reader); }
    var packets: seq<Packet> := [];
    ghost var all: seq<Packet> := [];
    ghost var goal := ParseAllSeen(reader.Seen());
    FollowingTwice([], [], goal);
    KeptSnoc([], Packet(0, []));
    var done := false;
    while !done
      invariant packets == Kept(all)
      invariant goal == if done then Ok(all) else Following(all, ParseAllSeen(reader.Seen()))
      decreases if done then 0 else |reader.Seen()| + 1
    {
      var p;
      p, done := ReadPackets(reader);
      if p.Err? { return Err(p.error); }
      FollowingTwice(all, [p.value], ParseAllSeen(reader.Seen()));
      KeptSnoc(all, p.value);
      all := all + [p.value];
      if !Ignored(p.value) { packets := packets + [p.value]; }
    }
    r := Ok(packets);
  }

  lemma SolidParseAll(reader: Reader)
    requires reader.Solid()
    ensures ParseAllSeen(reader.Seen()) == ParseAll(reader.Rest())
  {
    hide ParseAll, ParseAllSeen, Marked, Flatten, Marks;
    MarksOfSolid(reader.chunks);
    ParseAllOfMarked(reader.Rest());
  }
}
