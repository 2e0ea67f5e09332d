/** Writing packet lists, with definite lengths or as streams of partial lengths, and reading them back. */
module PacketLists {
  import opened NumberTheory
  import opened Bytes
  import opened Readers
  import opened Results
  import opened Streams
  import opened Util
  import opened Packets
  import Shifts

  // ---------------------------------------------------------------- what is written

  /** The serialized content of a packet: there at once, or arriving in chunks. */
  datatype Content = Whole(bytes: seq<byte>) | Chunked(chunks: seq<seq<byte>>)

  datatype Item = Item(tag: nat, content: Content)

  function Body(c: Content): seq<byte> {
    match c case Whole(b) => b case Chunked(chunks) => Flatten(chunks)
  }

  /** The packet tag with the two top bits of a new-format header. */
  function TagOctet(tag: nat): byte
    requires tag < 64
  {
    192 + tag
  }

  /** The power of the partial length that a buffer of n octets gives rise to. */
  function Power(n: nat): (k: nat)
    requires n > 0
    ensures k <= 30 && 0 < Pow(2, k) <= n
    ensures n >= 512 ==> k >= 9
  {
    var k := BitLen(n) - 1;
    Enough(n);
    PowMonotone(2, if k < 30 then k else 30, k);
    PowPositive(2, if k < 30 then k else 30);
    if k < 30 then k else 30
  }

  lemma Enough(n: nat)
    requires n > 0
    ensures Pow(2, BitLen(n) - 1) <= n
    ensures n >= 512 ==> BitLen(n) >= 10
  {
    assert Pow(2, 0) == 1;
    if n >= 512 && BitLen(n) < 10 {
      PowMonotone(2, BitLen(n), 9);
      Pow2Values();
    }
  }

  /** A part takes the largest power of two there is data for, up to 2^30. */
  lemma PartIsLargest(n: nat)
    requires n >= 512
    ensures 9 <= Power(n) <= 30 && Pow(2, Power(n)) <= n && (Power(n) < 30 ==> n < Pow(2, Power(n) + 1))
  {
    hide Pow, BitLen;
    Enough(n);
    if BitLen(n) - 1 > 30 { PowMonotone(2, 30, BitLen(n) - 1); }
  }

  /** What the stream transformer has done with the chunks so far: the parts sent, and what it still holds. */
  datatype Progress = Progress(parts: seq<seq<byte>>, held: seq<byte>)

  function Advance(p: Progress, value: seq<byte>): Progress {
    var all := p.held + value;
    if |all| < 512 then Progress(p.parts, all)
    else
      var n := Pow(2, Power(|all|));
      Progress(p.parts + [all[..n]], all[n..])
  }

  function Split(chunks: seq<seq<byte>>): Progress {
    if |chunks| == 0 then Progress([], []) else Advance(Split(chunks[..|chunks| - 1]), chunks[|chunks| - 1])
  }

  /** A body part has 2^k octets, k at least 9 and at most 30. */
  ghost predicate PartSized(part: seq<byte>) {
    exists k: nat :: 9 <= k <= 30 && |part| == Pow(2, k)
  }

  function PartOctets(part: seq<byte>): seq<byte>
    requires PartSized(part)
  {
    PartPower(part);
    [224 + Power(|part|)] + part
  }

  lemma PartPower(part: seq<byte>)
    requires PartSized(part)
    ensures |part| > 0 && 9 <= Power(|part|) <= 30 && Pow(2, Power(|part|)) == |part|
  {
    hide Power, Pow;
    var k: nat :| 9 <= k <= 30 && |part| == Pow(2, k);
    PowerOf(|part|, k);
  }

  lemma PowerOf(n: nat, k: nat)
    requires k <= 30 && n == Pow(2, k)
    ensures n > 0 && Power(n) == k
  {
    hide BitLen;
    PowPositive(2, k);
    assert Pow(2, k + 1) == 2 * Pow(2, k);
    BitLenUnique(n, k + 1);
  }

  function PartsOctets(parts: seq<seq<byte>>): seq<byte>
    requires forall p :: p in parts ==> PartSized(p)
  {
    if |parts| == 0 then []
    else PartsOctets(parts[..|parts| - 1]) + PartOctets(parts[|parts| - 1])
  }

  /** The writer loses and adds nothing, and its parts have the sizes section 4.2.2.4 of RFC 4880 allows. */
  lemma {:induction false} SplitConserves(chunks: seq<seq<byte>>)
    ensures Flatten(Split(chunks).parts) + Split(chunks).held == Flatten(chunks)
    ensures forall p :: p in Split(chunks).parts ==> PartSized(p)
  {
    if |chunks| > 0 {
      var before, value := Split(chunks[..|chunks| - 1]), chunks[|chunks| - 1];
      SplitConserves(chunks[..|chunks| - 1]);
      AdvanceConserves(before, value);
    }
  }

  lemma AdvanceConserves(p: Progress, value: seq<byte>)
    requires forall part :: part in p.parts ==> PartSized(part)
    ensures Flatten(Advance(p, value).parts) + Advance(p, value).held == (Flatten(p.parts) + p.held) + value
    ensures forall part :: part in Advance(p, value).parts ==> PartSized(part)
  {
    hide Pow, Power, Flatten;
    var all := p.held + value;
    if |all| < 512 {
      assert Flatten(p.parts) + all == (Flatten(p.parts) + p.held) + value;
    } else {
      var k := Power(|all|);
      var part := all[..Pow(2, k)];
      assert |part| == Pow(2, k);
      FlattenAppend(p.parts, [part]);
      FlattenOne(part);
      var rest := all[Pow(2, k)..];
      assert all == part + rest;
      assert (Flatten(p.parts) + part) + rest == (Flatten(p.parts) + p.held) + value;
    }
  }

  /** Each chunk sends at most one part, and what is held then is shorter than it, but for more than 2^31 octets. */
  lemma HeldIsShort(p: Progress, value: seq<byte>)
    ensures var all, q := p.held + value, Advance(p, value);
      if |all| < 512 then q == Progress(p.parts, all)
      else
        && |q.parts| == |p.parts| + 1 && q.parts[..|p.parts|] == p.parts
        && q.parts[|p.parts|] + q.held == all
        && (|all| < 0x8000_0000 ==> |q.held| < |q.parts[|p.parts|]|)
  {
    hide Pow, Power;
    var all := p.held + value;
    if |all| >= 512 {
      var k := Power(|all|);
      PartIsLargest(|all|);
      NextPowers(k);
    }
  }

  lemma NextPowers(k: nat)
    ensures Pow(2, k + 1) == 2 * Pow(2, k)
    ensures k == 30 ==> 2 * Pow(2, k) == 0x8000_0000
  {
    Pow2Values();
    if k == 30 {
      assert Pow(2, 32) == 2 * Pow(2, 31) && Pow(2, 31) == 2 * Pow(2, 30);
    }
  }

  ghost function StreamOctets(tag: nat, chunks: seq<seq<byte>>): seq<byte>
    requires tag < 64
  {
    SplitConserves(chunks);
    var p := Split(chunks);
    [TagOctet(tag)] + PartsOctets(p.parts) + LengthOctets(|p.held|) + p.held
  }

  function DefiniteOctets(tag: nat, body: seq<byte>): seq<byte>
    requires tag < 64
  {
    [TagOctet(tag)] + LengthOctets(|body|) + body
  }

  /** A packet goes out in parts when its content is a stream and its tag allows it. */
  predicate InParts(item: Item) { item.content.Chunked? && SupportsStreaming(item.tag) }

  ghost function ItemOctets(item: Item): seq<byte>
    requires item.tag < 64
  {
    if InParts(item) then StreamOctets(item.tag, item.content.chunks)
    else DefiniteOctets(item.tag, Body(item.content))
  }

  ghost function ListOctets(items: seq<Item>): seq<byte>
    requires forall item :: item in items ==> item.tag < 64
  {
    if |items| == 0 then [] else ItemOctets(items[0]) + ListOctets(items[1..])
  }

  // ---------------------------------------------------------------- reading back

  /** What the last length in front of the packet's data has to encode. */
  function LastLength(item: Item): nat {
    if InParts(item) then |Split(item.content.chunks).held| else |Body(item.content)|
  }

  lemma TagRead(tag: nat)
    requires tag < 64
    ensures var first := TagOctet(tag);
      first >= 128 && first / 64 % 2 == 1 && first % 64 == tag && TagOf(first) == tag
  {
  }

  /** A body under a definite length is read back exactly below 2^31. */
  lemma DefiniteBody(tag: nat, body: seq<byte>, rest: seq<byte>)
    ensures var r := NewBody(tag, LengthOctets(|body|) + body + rest);
      && (r == Ok(Piece(body, rest)) <==> |body| < 0x8000_0000)
      && (r.Ok? && |r.value.body| == |body| ==> |body| < 0x8000_0000)
  {
    hide Value, Digits, NewLength, LengthOctets, ToInt32;
    var n := |body|;
    var s := LengthOctets(n) + body + rest;
    assert s == LengthOctets(n) + (body + rest);
    HeaderLength(n, body + rest);
    var f := NewLength(s);
    assert s[f.size..] == body + rest;
    if n < 0x8000_0000 {
      assert (body + rest)[..n] == body && (body + rest)[n..] == rest;
    }
  }

  /** A part is read, and reading goes on behind it. */
  lemma PartBody(tag: nat, part: seq<byte>, rest: seq<byte>)
    requires SupportsStreaming(tag) && PartSized(part)
    ensures NewBody(tag, PartOctets(part) + rest) == After(part, NewBody(tag, rest))
  {
    hide Pow, Power;
    PartPower(part);
    var s := PartOctets(part) + rest;
    assert s[1..] == part + rest;
    assert (part + rest)[..|part|] == part && (part + rest)[|part|..] == rest;
  }

  lemma {:induction false} PartsBody(tag: nat, parts: seq<seq<byte>>, rest: seq<byte>)
    requires SupportsStreaming(tag) && forall p :: p in parts ==> PartSized(p)
    ensures NewBody(tag, PartsOctets(parts) + rest) == After(Flatten(parts), NewBody(tag, rest))
  {
    hide PartSized, PartOctets, NewBody, After;
    if |parts| == 0 {
      assert [] + rest == rest;
      AfterTwice([], [], NewBody(tag, rest));
    } else {
      var init, last := parts[..|parts| - 1], parts[|parts| - 1];
      assert PartsOctets(parts) + rest == PartsOctets(init) + (PartOctets(last) + rest);
      PartsBody(tag, init, PartOctets(last) + rest);
      PartBody(tag, last, rest);
      AfterTwice(Flatten(init), last, NewBody(tag, rest));
    }
  }

  lemma AfterCancels(a: seq<byte>, b: seq<byte>, rest: seq<byte>, r: Result<Piece<byte>>)
    ensures After(a, r) == Ok(Piece(a + b, rest)) <==> r == Ok(Piece(b, rest))
    ensures After(a, r).Ok? && After(a, r).value.body == a + b ==> r.Ok? && |r.value.body| == |b|
  {
    match r
    case Ok(p) =>
      assert (a + p.body)[|a|..] == p.body && (a + b)[|a|..] == b;
    case Err(_) =>
  }

  lemma HeaderRead(tag: nat, s: seq<byte>)
    requires tag < 64 && |s| > 0
    ensures Parse([TagOctet(tag)] + s) ==
      var r := NewBody(tag, s);
      if r.Err? then Err(r.error) else Ok((Packet(tag, r.value.body), r.value.rest))
  {
    hide NewBody;
    TagRead(tag);
    assert ([TagOctet(tag)] + s)[1..] == s;
  }

  /** One packet, whatever follows it, is read back exactly if its last length is below 2^31. */
  lemma ItemRead(item: Item, rest: seq<byte>)
    requires item.tag < 64
    ensures var r, p := Parse(ItemOctets(item) + rest), Packet(item.tag, Body(item.content));
      && (r == Ok((p, rest)) <==> LastLength(item) < 0x8000_0000)
      && (r.Ok? && r.value.0 == p ==> LastLength(item) < 0x8000_0000)
  {
    hide NewBody, Parse, LengthOctets, PartSized, Split, TagOctet;
    var tag, body := item.tag, Body(item.content);
    if InParts(item) {
      SplitConserves(item.content.chunks);
      var p := Split(item.content.chunks);
      var tail := LengthOctets(|p.held|) + p.held + rest;
      assert ItemOctets(item) + rest == [TagOctet(tag)] + (PartsOctets(p.parts) + tail);
      HeaderRead(tag, PartsOctets(p.parts) + tail);
      PartsBody(tag, p.parts, tail);
      DefiniteBody(tag, p.held, rest);
      AfterCancels(Flatten(p.parts), p.held, rest, NewBody(tag, tail));
    } else {
      assert ItemOctets(item) + rest == [TagOctet(tag)] + (LengthOctets(|body|) + body + rest);
      HeaderRead(tag, LengthOctets(|body|) + body + rest);
      DefiniteBody(tag, body, rest);
    }
  }

  function Contents(items: seq<Item>): seq<Packet> {
    if |items| == 0 then [] else [Packet(items[0].tag, Body(items[0].content))] + Contents(items[1..])
  }

  lemma ItemOctetsNonEmpty(item: Item)
    requires item.tag < 64
    ensures |ItemOctets(item)| >= 2
  {
  }

  predicate AllShort(items: seq<Item>) { forall item :: item in items ==> LastLength(item) < 0x8000_0000 }

  /**
   A list is read back as it was written exactly if it is not empty and the last length of each packet is below
   2^31.
   */
  lemma {:induction false} WrittenListIsRead(items: seq<Item>)
    requires forall item :: item in items ==> item.tag < 64
    ensures ParseAll(ListOctets(items)) == Ok(Contents(items)) <==> |items| > 0 && AllShort(items)
  {
    hide Parse, ItemOctets, LastLength, Body;
    if |items| == 0 {
      EmptyListIsRejected();
    } else {
      var rest := items[1..];
      var p := Packet(items[0].tag, Body(items[0].content));
      ItemRead(items[0], ListOctets(rest));
      assert AllShort(items) <==> LastLength(items[0]) < 0x8000_0000 && AllShort(rest) by {
        assert items == [items[0]] + rest;
      }
      assert Contents(items) == [p] + Contents(rest);
      FollowingStarts(ListOctets(items));
      if |rest| == 0 {
        assert ListOctets(rest) == [] && Contents(rest) == [] && [p] + [] == [p];
      } else {
        ItemOctetsNonEmpty(rest[0]);
        WrittenListIsRead(rest);
        FollowingCancels(p, Contents(rest), ParseAll(ListOctets(rest)));
      }
    }
  }

  lemma FollowingCancels(p: Packet, ps: seq<Packet>, r: Result<seq<Packet>>)
    ensures Following([p], r) == Ok([p] + ps) <==> r == Ok(ps)
  {
    match r
    case Ok(qs) => assert ([p] + qs)[1..] == qs && ([p] + ps)[1..] == ps;
    case Err(_) =>
  }

  /** The first packet of a parsed list is the first one read. */
  lemma FollowingStarts(s: seq<byte>)
    ensures ParseAll(s).Ok? ==> |ParseAll(s).value| > 0 && Parse(s).Ok? && ParseAll(s).value[0] == Parse(s).value.0
  {
    hide Parse;
  }

  /** The empty list is written as nothing, which is not read back. */
  lemma EmptyListIsRejected()
    ensures ListOctets([]) == [] && ParseAll([]) == Err(MalformedPacket)
  {
  }

  // ---------------------------------------------------------------- packets that are cut off

  /** The parts that go out before the last length, and what that length covers. */
  function Parts(item: Item): seq<seq<byte>> { if InParts(item) then Split(item.content.chunks).parts else [] }

  function LastPart(item: Item): seq<byte> {
    if InParts(item) then Split(item.content.chunks).held else Body(item.content)
  }

  /** A stream of 512 octets and more gives a part. */
  lemma {:induction false} PartsIff(chunks: seq<seq<byte>>)
    ensures |Split(chunks).parts| > 0 <==> |Flatten(chunks)| >= 512
    decreases |chunks|
  {
    hide Pow, Power;
    SplitConserves(chunks);
    if |chunks| > 0 {
      var before, value := Split(chunks[..|chunks| - 1]), chunks[|chunks| - 1];
      PartsIff(chunks[..|chunks| - 1]);
      SplitConserves(chunks[..|chunks| - 1]);
      if |before.parts| == 0 {
        assert before.parts == [];
        FlattenEmpty(before.parts);
        assert before.parts[..0] == before.parts;
      }
    }
  }

  /** A packet begins with a partial length exactly if it is a stream of the kinds that may, of 512 octets or more. */
  lemma InPartsIff(item: Item)
    requires item.tag < 64
    ensures var s := ItemOctets(item);
      |s| >= 2 && (224 <= s[1] < 255 <==>
        item.content.Chunked? && item.tag in {8, 9, 11, 18, 20} && |Body(item.content)| >= 512)
  {
    hide Split, PartsOctets, LengthOctets, Pow, Power;
    Shape(item);
    var parts, n := Parts(item), LastLength(item);
    FirstLength(n);
    if InParts(item) { PartsIff(item.content.chunks); }
    if |parts| > 0 {
      PartsFrom(parts, 0, []);
      FirstPart(parts);
    } else {
      assert parts == [];
      NothingSplit([]);
    }
  }

  lemma FirstLength(n: nat)
    ensures |LengthOctets(n)| > 0 && !(224 <= LengthOctets(n)[0] < 255)
  {
  }

  lemma {:induction false} FirstPart(parts: seq<seq<byte>>)
    requires |parts| > 0 && forall p :: p in parts ==> PartSized(p)
    ensures |PartsOctets(parts)| > 0 && 224 <= PartsOctets(parts)[0] < 255
  {
    hide PartSized;
    var last := parts[|parts| - 1];
    PartPower(last);
    if |parts| > 1 {
      FirstPart(parts[..|parts| - 1]);
    } else {
      assert parts[..0] == [];
    }
  }

  lemma Regrouped<T>(t: seq<T>, x: seq<T>, y: seq<T>, z: seq<T>)
    ensures t + x + y + z == t + (x + (y + z))
    ensures x == [] ==> t + y + z == t + (x + (y + z))
    ensures t == [] ==> (x + y) + z == x + (y + z)
  {
  }

  lemma Shape(item: Item)
    requires item.tag < 64
    ensures forall p :: p in Parts(item) ==> PartSized(p)
    ensures |LastPart(item)| == LastLength(item) && (|Parts(item)| > 0 ==> SupportsStreaming(item.tag))
    ensures ItemOctets(item)
         == [TagOctet(item.tag)] + (PartsOctets(Parts(item)) + (LengthOctets(LastLength(item)) + LastPart(item)))
  {
    hide PartSized, LengthOctets, Split;
    if InParts(item) { SplitConserves(item.content.chunks); }
    var x, y, z, t := PartsOctets(Parts(item)), LengthOctets(LastLength(item)), LastPart(item), [TagOctet(item.tag)];
    Regrouped(t, x, y, z);
  }

  /** Whether a definite length of n that breaks off after j octets reads as zero. */
  predicate ReadsAsZero(n: nat, j: nat) {
    j == 0 || (j < |LengthOctets(n)| && (n < 8384 || n < Pow(256, 5 - j)))
  }

  /** A last length that is cut off, or whose body is. */
  lemma CutLast(tag: nat, body: seq<byte>, j: nat)
    requires |body| < 0x8000_0000 && j < |LengthOctets(|body|) + body|
    ensures NewBody(tag, (LengthOctets(|body|) + body)[..j])
         == if ReadsAsZero(|body|, j) then Ok(Piece([], [])) else Err(UnexpectedEnd)
  {
    hide Value, Digits, ToInt32, SignedWord, Pow;
    var n := |body|;
    var s := LengthOctets(n) + body;
    var t := s[..j];
    if j > 0 {
      assert t[0] == LengthOctets(n)[0];
      if n >= 8384 {
        if j < 5 {
          assert t == ([255] + Digits(n, 4))[..j];
          CutWord(n, j, t);
        } else {
          assert t[1..5] == Digits(n, 4);
          SignedWordOf(n, t, 1);
          SmallWord(n);
        }
      }
    }
  }

  lemma SmallWord(n: nat)
    requires n < 0x8000_0000
    ensures ToInt32(n) == n
  {
    ModSmall(n, 0x1_0000_0000);
  }

  /** The octets of a four-octet number that are there, with zeros for those that are not. */
  lemma CutWord(n: nat, j: nat, t: seq<byte>)
    requires n < 0x8000_0000 && 1 <= j < 5 && t == ([255] + Digits(n, 4))[..j]
    ensures SignedWord(t, 1) <= 0 <==> n < Pow(256, 5 - j)
  {
    hide Value, Digits, Pow, ToInt32;
    var k := 5 - j;
    var front, zeros := t[1..], ZeroOctets(k);
    assert front == Digits(n, 4)[..4 - k];
    assert [At(t, 1), At(t, 2), At(t, 3), At(t, 4)] == front + zeros;
    Pow256Values();
    DigitsRoundTrip(n, 4);
    Shifts.ValueSlices(Digits(n, 4), 4 - k);
    Shifts.ValueConcat(front, zeros);
    ZerosValue(k);
    var m := Pow(256, k);
    var q := n / m;
    assert n == m * q + n % m;
    assert Value(front + zeros) == q * m;
    if q == 0 {
      SmallWord(0);
    } else {
      MulAtLeast(m, q);
      SmallWord(q * m);
    }
  }

  function ZeroOctets(k: nat): (z: seq<byte>)
    ensures |z| == k && forall i :: 0 <= i < k ==> z[i] == 0
  {
    seq(k, _ => 0)
  }

  lemma {:induction false} ZerosValue(k: nat)
    ensures Value(ZeroOctets(k)) == 0
  {
    if k > 0 {
      ZerosValue(k - 1);
      assert ZeroOctets(k)[..k - 1] == ZeroOctets(k - 1);
    }
  }

  /** A part that is cut off is missed, unless nothing of it is there. */
  lemma CutPart(tag: nat, part: seq<byte>, j: nat)
    requires SupportsStreaming(tag) && PartSized(part) && j < |PartOctets(part)|
    ensures NewBody(tag, PartOctets(part)[..j]) == if j == 0 then Ok(Piece([], [])) else Err(UnexpectedEnd)
  {
    hide Pow, Power;
    PartPower(part);
    var t := PartOctets(part)[..j];
    if j > 0 { assert t[1..] == part[..j - 1]; }
  }

  /** How many parts are whole within the first m octets of a body. */
  function WholeParts(parts: seq<seq<byte>>, m: nat): (i: nat)
    requires forall p :: p in parts ==> PartSized(p)
    ensures i <= |parts| && |PartsOctets(parts[..i])| <= m
    ensures i < |parts| ==> m < |PartsOctets(parts[..i + 1])|
  {
    if |PartsOctets(parts)| <= m then
      assert parts[..|parts|] == parts;
      |parts|
    else
      var init := parts[..|parts| - 1];
      var i := WholeParts(init, m);
      assert init[..i] == parts[..i];
      assert if i < |init| then init[..i + 1] == parts[..i + 1] else parts[..i + 1] == parts;
      i
  }

  /** Where the first m octets of a packet end: behind how many whole parts, and how many octets further on. */
  ghost function CutAt(item: Item, m: nat): (nat, nat)
    requires item.tag < 64 && m >= 1
  {
    Shape(item);
    var parts := Parts(item);
    var i := WholeParts(parts, m - 1);
    (i, m - 1 - |PartsOctets(parts[..i])|)
  }

  /**
   Whether a packet that breaks off there is read all the same: right behind a part, or within a last length that
   then reads as zero.
   */
  ghost predicate CutIsRead(item: Item, m: nat)
    requires item.tag < 64 && m >= 1
  {
    var (i, j) := CutAt(item, m);
    m >= 2 && if i < |Parts(item)| then j == 0 else ReadsAsZero(LastLength(item), j)
  }

  /**
   A packet that breaks off is read, as what its whole parts hold, exactly at those places; elsewhere it is an
   error.
   */
  lemma CutOffIff(item: Item, m: nat)
    requires item.tag < 64 && LastLength(item) < 0x8000_0000 && 1 <= m < |ItemOctets(item)|
    ensures var r := Parse(ItemOctets(item)[..m]);
      if CutIsRead(item, m) then r == Ok((Packet(item.tag, Flatten(Parts(item)[..CutAt(item, m).0])), []))
      else r.Err?
  {
    hide PartSized, LengthOctets, NewBody, ReadsAsZero, Parse, TagOctet, PartsOctets, PartOctets;
    hide LastLength, Parts, LastPart, After;
    Shape(item);
    var tag, parts, last := item.tag, Parts(item), LengthOctets(LastLength(item)) + LastPart(item);
    var (i, j) := CutAt(item, m);
    var whole := parts[..i];
    var all := PartsOctets(parts) + last;
    var next := if i < |parts| then PartOctets(parts[i]) else last;
    var t := all[..m - 1];
    assert ItemOctets(item)[..m] == [TagOctet(tag)] + t;
    PartsFrom(parts, i, last);
    assert t == PartsOctets(whole) + next[..j];
    if i < |parts| { CutPart(tag, parts[i], j); } else { CutLast(tag, LastPart(item), j); }
    if i > 0 { PartsBody(tag, whole, next[..j]); } else { NoParts(tag, whole, next[..j]); }
    AfterNothing(Flatten(whole), NewBody(tag, next[..j]));
    if m == 1 {
      TooShortForAPacket([TagOctet(tag)] + t);
    } else {
      HeaderRead(tag, t);
    }
  }

  lemma PartsFrom(parts: seq<seq<byte>>, i: nat, last: seq<byte>)
    requires i <= |parts| && forall p :: p in parts ==> PartSized(p)
    ensures forall p :: p in parts[..i] ==> PartSized(p)
    ensures var start := PartsOctets(parts[..i]);
      && start <= PartsOctets(parts) + last
      && (i == |parts| ==> start == PartsOctets(parts))
      && (i < |parts| ==>
            && PartsOctets(parts[..i + 1]) == start + PartOctets(parts[i])
            && start + PartOctets(parts[i]) <= PartsOctets(parts) + last)
  {
    hide PartSized, PartOctets, PartsOctets;
    PartsPrefix(parts, i);
    if i == |parts| {
      assert parts[..i] == parts;
    } else {
      assert parts[..i + 1] == parts[..i] + [parts[i]];
      PartsSnoc(parts[..i], parts[i]);
      PartsPrefix(parts, i + 1);
      PrefixLonger(PartsOctets(parts[..i + 1]), PartsOctets(parts), last);
    }
    PrefixLonger(PartsOctets(parts[..i]), PartsOctets(parts), last);
  }

  lemma PrefixLonger(a: seq<byte>, b: seq<byte>, c: seq<byte>)
    requires a <= b
    ensures a <= b + c
  {
  }

  lemma {:induction false} PartsPrefix(parts: seq<seq<byte>>, i: nat)
    requires i <= |parts| && forall p :: p in parts ==> PartSized(p)
    ensures PartsOctets(parts[..i]) <= PartsOctets(parts)
    decreases |parts|
  {
    hide PartSized, PartOctets;
    if i == |parts| {
      assert parts[..i] == parts;
    } else {
      assert parts[..|parts| - 1][..i] == parts[..i];
      PartsPrefix(parts[..|parts| - 1], i);
    }
  }

  lemma NoParts(tag: nat, whole: seq<seq<byte>>, rest: seq<byte>)
    requires whole == []
    ensures NewBody(tag, PartsOctets(whole) + rest) == After(Flatten(whole), NewBody(tag, rest))
  {
    assert [] + rest == rest;
    AfterTwice([], [], NewBody(tag, rest));
  }

  lemma AfterNothing(a: seq<byte>, r: Result<Piece<byte>>)
    ensures r == Ok(Piece([], [])) ==> After(a, r) == Ok(Piece(a, []))
    ensures r.Err? ==> After(a, r) == Err(r.error)
  {
    assert a + [] == a;
  }

  lemma TooShortForAPacket(s: seq<byte>)
    requires |s| < 2
    ensures Parse(s) == Err(MalformedPacket)
  {
  }

  /** So a stream that ends behind a part, without the definite length that has to follow, is read as a packet. */
  lemma MissingLastLengthIsAccepted(tag: nat, parts: seq<seq<byte>>)
    requires tag < 64 && SupportsStreaming(tag) && |parts| > 0 && forall p :: p in parts ==> PartSized(p)
    ensures Parse([TagOctet(tag)] + PartsOctets(parts)) == Ok((Packet(tag, Flatten(parts)), []))
  {
    hide PartSized, TagOctet, Parse;
    var s := PartsOctets(parts);
    PartsBody(tag, parts, []);
    assert s + [] == s;
    assert Flatten(parts) + [] == Flatten(parts);
    HeaderRead(tag, s);
  }

  // ---------------------------------------------------------------- the writer

  method WriteHeader(tag: nat, length: nat) returns (b: seq<byte>)
    requires tag < 64
    ensures b == [TagOctet(tag)] + LengthOctets(length)
  {
    var l := WriteSimpleLength(length);
    b := [TagOctet(tag)] + l;
  }

  /** The transformer behind a streamed packet: it holds chunks back until a partial length can go out. */
  class PartialWriter {
    var buffer: seq<seq<byte>>
    var bufferLength: nat

    ghost predicate Valid()
      reads this
    {
      bufferLength == |Flatten(buffer)|
    }

    constructor ()
      ensures Valid() && Flatten(buffer) == []
    {
      buffer, bufferLength := [], 0;
    }

    method Process(value: seq<byte>, ghost parts: seq<seq<byte>>) returns (out: seq<byte>)
      requires Valid() && forall p :: p in parts ==> PartSized(p)
      modifies this
      ensures Valid()
      ensures var p := Advance(Progress(parts, old(Flatten(buffer))), value);
        && (forall part :: part in p.parts ==> PartSized(part))
        && Flatten(buffer) == p.held
        && PartsOctets(parts) + out == PartsOctets(p.parts)
    {
      hide Flatten, Power, PartSized, PartOctets;
      ghost var before := Progress(parts, Flatten(buffer));
      ghost var p := Advance(before, value);
      AdvanceConserves(before, value);
      FlattenAppend(buffer, [value]);
      FlattenOne(value);
      buffer := buffer + [value];
      bufferLength := bufferLength + |value|;
      assert Flatten(buffer) == before.held + value;
      out := [];
      assert PartsOctets(parts) + out == PartsOctets(parts);
      if bufferLength >= 512 {
        var powerOf2 := Power(bufferLength);
        var chunkSize := Pow(2, powerOf2);
        var bufferConcat: seq<byte> := [224 + powerOf2] + Flatten(buffer);
        var remaining: seq<byte> := bufferConcat[1 + chunkSize..];
        ghost var all := Flatten(buffer);
        assert remaining == all[chunkSize..];
        assert bufferConcat[..1 + chunkSize] == [224 + powerOf2] + all[..chunkSize];
        PartWritten(all[..chunkSize], powerOf2);
        PartsSnoc(parts, all[..chunkSize]);
        FlattenOne(remaining);
        buffer := [remaining];
        bufferLength := |remaining|;
        out := bufferConcat[..1 + chunkSize];
        assert buffer == [remaining];
      }
    }

    method Finish() returns (out: seq<byte>)
      requires Valid()
      ensures out == LengthOctets(|Flatten(buffer)|) + Flatten(buffer)
    {
      var l := WriteSimpleLength(bufferLength);
      out := l + Flatten(buffer);
    }
  }

  lemma PartWritten(part: seq<byte>, k: nat)
    requires 9 <= k <= 30 && |part| == Pow(2, k)
    ensures PartSized(part) && PartOctets(part) == [224 + k] + part
  {
    hide Power, Pow;
    PowerOf(|part|, k);
  }

  lemma PartsSnoc(parts: seq<seq<byte>>, part: seq<byte>)
    requires PartSized(part) && forall p :: p in parts ==> PartSized(p)
    ensures PartsOctets(parts + [part]) == PartsOctets(parts) + PartOctets(part)
  {
    assert (parts + [part])[..|parts|] == parts;
  }

  lemma NothingSplit(chunks: seq<seq<byte>>)
    ensures Split(chunks[..0]) == Progress([], []) && PartsOctets([]) == []
  {
  }

  lemma NextSplit(chunks: seq<seq<byte>>, i: nat)
    requires i < |chunks|
    ensures Split(chunks[..i + 1]) == Advance(Split(chunks[..i]), chunks[i])
  {
    hide Advance;
    assert chunks[..i + 1][..i] == chunks[..i];
  }

  method WriteStream(tag: nat, chunks: seq<seq<byte>>) returns (out: seq<byte>)
    requires tag < 64
    ensures out == StreamOctets(tag, chunks)
  {
    hide Flatten, Advance, PartSized, TagOctet, Split, PartsOctets, LengthOctets;
    var writer := new PartialWriter();
    out := [TagOctet(tag)];
    ghost var parts: seq<seq<byte>> := [];
    NothingSplit(chunks);
    assert out + [] == out;
    var i := 0;
    while i < |chunks|
      invariant 0 <= i <= |chunks| && fresh(writer) && writer.Valid()
      invariant forall p :: p in parts ==> PartSized(p)
      invariant Split(chunks[..i]) == Progress(parts, Flatten(writer.buffer))
      invariant out == [TagOctet(tag)] + PartsOctets(parts)
    {
      NextSplit(chunks, i);
      var piece := writer.Process(chunks[i], parts);
      Regrouped([], [TagOctet(tag)], PartsOctets(parts), piece);
      parts := Split(chunks[..i + 1]).parts;
      out := out + piece;
      i := i + 1;
    }
    assert chunks[..i] == chunks;
    var last := writer.Finish();
    Regrouped([], out, LengthOctets(|Flatten(writer.buffer)|), Flatten(writer.buffer));
    out := out + last;
  }

  /** The binary form of a packet list. */
  method Write(items: seq<Item>) returns (out: seq<byte>)
    requires forall item :: item in items ==> item.tag < 64
    ensures out == ListOctets(items)
  {
    hide StreamOctets, DefiniteOctets, Flatten, TagOctet, LengthOctets, ListOctets;
    out := [];
    assert items[0..] == items;
    var i := 0;
    while i < |items|
      invariant 0 <= i <= |items| && ListOctets(items) == out + ListOctets(items[i..])
    {
      var packetbytes: seq<byte>;
      if items[i].content.Chunked? && SupportsStreaming(items[i].tag) {
        packetbytes := WriteStream(items[i].tag, items[i].content.chunks);
      } else {
        packetbytes := WriteDefinite(items[i]);
      }
      ListStep(items, i, out);
      out := out + packetbytes;
      i := i + 1;
    }
    ListEnd(items, out);
  }

  lemma ListStep(items: seq<Item>, i: nat, out: seq<byte>)
    requires i < |items| && forall item :: item in items ==> item.tag < 64
    ensures out + ListOctets(items[i..]) == (out + ItemOctets(items[i])) + ListOctets(items[i + 1..])
  {
    hide ItemOctets;
    assert items[i..][0] == items[i] && items[i..][1..] == items[i + 1..];
  }

  lemma ListEnd(items: seq<Item>, out: seq<byte>)
    ensures out + ListOctets(items[|items|..]) == out
  {
  }

  /** A packet under one length; the length of a stream is known when all of it has passed. */
  method WriteDefinite(item: Item) returns (out: seq<byte>)
    requires item.tag < 64
    ensures out == DefiniteOctets(item.tag, Body(item.content))
  {
    hide TagOctet, LengthOctets, Flatten;
    var length := 0;
    var bytes: seq<byte> := [];
    match item.content {
      case Whole(b) =>
        length, bytes := |b|, b;
      case Chunked(chunks) =>
        FlattenEmpty(chunks);
        for i := 0 to |chunks|
          invariant bytes == Flatten(chunks[..i]) && length == |bytes|
        {
          FlattenPrefix(chunks, i);
          length := length + |chunks[i]|;
          bytes := bytes + chunks[i];
        }
        assert chunks[..|chunks|] == chunks;
    }
    var header := WriteHeader(item.tag, length);
    out := header + bytes;
  }

  /**
   Whatever way a written list is cut into non-empty chunks, reading it gives its packets, less markers and trust
   packets.
   */
  method WriteThenRead(items: seq<Item>, chunks: seq<seq<byte>>) returns (r: Result<seq<Packet>>)
    requires forall item :: item in items ==> item.tag < 64
    requires Flatten(chunks) == ListOctets(items) && forall c :: c in chunks ==> |c| > 0
    ensures r == KeptOf(ParseAll(ListOctets(items)))
    ensures |items| > 0 && AllShort(items) ==> r == Ok(Kept(Contents(items)))
  {
    hide AllShort, ParseAll, Flatten, ListOctets;
    WrittenListIsRead(items);
    var reader := new Reader(chunks);
    r := ReadAll(reader);
  }
}
