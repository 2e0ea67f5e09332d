/** Structuring a packet list into a key with users and subkeys, and printing it back. */
module Keys {
  import opened Bytes
  import opened Results

  /**
   A packet as the list parser hands it over. Of the parsed kinds only what the structure depends on is
   shown: signatureType and issuer matter for signatures, keyID for key packets; content is the rest.
   */
  datatype Packet =
    | Unparseable(tag: nat, raw: seq<byte>)
    | Parsed(tag: nat, signatureType: nat, issuer: seq<byte>, keyID: Option<seq<byte>>, content: seq<byte>)

  const SIGNATURE: nat := 2
  const SECRET_KEY: nat := 5
  const PUBLIC_KEY: nat := 6
  const SECRET_SUBKEY: nat := 7
  const USER_ID: nat := 13
  const PUBLIC_SUBKEY: nat := 14
  const USER_ATTRIBUTE: nat := 17

  /** The sets name secret keys by constants that do not exist, so only the public tags are in them. */
  const MAIN_KEY_PACKET_TAGS: set<nat> := {PUBLIC_KEY}
  const KEY_PACKET_TAGS: set<nat> := {PUBLIC_KEY, PUBLIC_SUBKEY}

  predicate IsCertification(signatureType: nat) { 16 <= signatureType <= 19 }

  // ---------------------------------------------------------------- structures as values

  datatype UserValue =
    | UserValue(packet: Packet, revocations: seq<Packet>, selfCerts: seq<Packet>, otherCerts: seq<Packet>)

  datatype SubkeyValue = SubkeyValue(packet: Packet, revocations: seq<Packet>, bindings: seq<Packet>)

  datatype Structure = Structure(
    keyPacket: Option<Packet>,
    revocations: seq<Packet>,
    directs: seq<Packet>,
    users: seq<UserValue>,
    subkeys: seq<SubkeyValue>)

  const EMPTY := Structure(None, [], [], [], [])

  /** The lists a signature can go to; users and subkeys take it last. */
  datatype Slot = KeyRevocation | Direct | UserRevocation | SelfCert | OtherCert | SubkeyRevocation | Binding

  /** The structure so far, whether a user is current, and the tags that end a phase of ignoring. */
  datatype Parser = Parser(s: Structure, userOpen: bool, ignoreUntil: Option<set<nat>>)

  const START := Parser(EMPTY, false, None)

  predicate Coherent(p: Parser) { p.userOpen ==> |p.s.users| > 0 }

  function Last<T>(s: seq<T>): T
    requires |s| > 0
  {
    s[|s| - 1]
  }

  function Front<T>(s: seq<T>): seq<T>
    requires |s| > 0
  {
    s[..|s| - 1]
  }

  predicate HasSlot(s: Structure, slot: Slot) {
    match slot
    case KeyRevocation | Direct => true
    case UserRevocation | SelfCert | OtherCert => |s.users| > 0
    case SubkeyRevocation | Binding => |s.subkeys| > 0
  }

  function Append(s: Structure, slot: Slot, ps: seq<Packet>): Structure
    requires HasSlot(s, slot)
  {
    match slot
    case KeyRevocation => s.(revocations := s.revocations + ps)
    case Direct => s.(directs := s.directs + ps)
    case UserRevocation => s.(users := Front(s.users) + [Last(s.users).(revocations := Last(s.users).revocations + ps)])
    case SelfCert => s.(users := Front(s.users) + [Last(s.users).(selfCerts := Last(s.users).selfCerts + ps)])
    case OtherCert => s.(users := Front(s.users) + [Last(s.users).(otherCerts := Last(s.users).otherCerts + ps)])
    case SubkeyRevocation =>
      s.(subkeys := Front(s.subkeys) + [Last(s.subkeys).(revocations := Last(s.subkeys).revocations + ps)])
    case Binding => s.(subkeys := Front(s.subkeys) + [Last(s.subkeys).(bindings := Last(s.subkeys).bindings + ps)])
  }

  /** Where a signature goes: nowhere, if what it applies to is missing or its type is of no concern. */
  function SlotFor(p: Parser, packet: Packet): (r: Result<Option<Slot>>)
    requires Coherent(p) && packet.Parsed?
    ensures r.Ok? && r.value.Some? ==> HasSlot(p.s, r.value.value)
  {
    var t := packet.signatureType;
    if IsCertification(t) then
      if !p.userOpen then Ok(None)
      else if p.s.keyPacket.None? || p.s.keyPacket.value.Unparseable? then Err(UndefinedKeyID)
      else if Some(packet.issuer) == p.s.keyPacket.value.keyID then Ok(Some(SelfCert))
      else Ok(Some(OtherCert))
    else if t == 48 then Ok(Some(if p.userOpen then UserRevocation else Direct))
    else if t == 31 then Ok(Some(Direct))
    else if t == 24 then Ok(if |p.s.subkeys| > 0 then Some(Binding) else None)
    else if t == 32 then Ok(Some(KeyRevocation))
    else if t == 40 then Ok(if |p.s.subkeys| > 0 then Some(SubkeyRevocation) else None)
    else Ok(None)
  }

  function Place(p: Parser, packet: Packet): (r: Result<Parser>)
    requires Coherent(p) && packet.Parsed?
    ensures r.Ok? ==> Coherent(r.value)
  {
    var s := p.s;
    if packet.tag == PUBLIC_KEY || packet.tag == SECRET_KEY then
      if s.keyPacket.Some? then Err(MultipleKeys)
      else if packet.keyID.None? then Err(MissingKeyID)
      else Ok(p.(s := s.(keyPacket := Some(packet))))
    else if packet.tag == USER_ID || packet.tag == USER_ATTRIBUTE then
      Ok(p.(s := s.(users := s.users + [UserValue(packet, [], [], [])]), userOpen := true))
    else if packet.tag == PUBLIC_SUBKEY || packet.tag == SECRET_SUBKEY then
      Ok(p.(s := s.(subkeys := s.subkeys + [SubkeyValue(packet, [], [])]), userOpen := false))
    else if packet.tag == SIGNATURE then
      match SlotFor(p, packet)
      case Err(e) => Err(e)
      case Ok(slot) => Ok(if slot.None? then p else p.(s := Append(s, slot.value, [packet])))
    else Ok(p)
  }

  function Step(p: Parser, packet: Packet, disallowed: set<nat>): (r: Result<Parser>)
    requires Coherent(p)
    ensures r.Ok? ==> Coherent(r.value)
  {
    if packet.Unparseable? then
      if packet.tag in KEY_PACKET_TAGS && p.ignoreUntil.None? then
        var until := if packet.tag in MAIN_KEY_PACKET_TAGS then MAIN_KEY_PACKET_TAGS else KEY_PACKET_TAGS;
        Ok(p.(ignoreUntil := Some(until)))
      else Ok(p)
    else if p.ignoreUntil.Some? && packet.tag !in p.ignoreUntil.value then Ok(p)
    else if packet.tag in disallowed then Err(UnexpectedPacket)
    else Place(p.(ignoreUntil := None), packet)
  }

  function Run(p: Parser, list: seq<Packet>, disallowed: set<nat>): (r: Result<Parser>)
    requires Coherent(p)
    ensures r.Ok? ==> Coherent(r.value)
    decreases |list|
  {
    if |list| == 0 then Ok(p)
    else
      match Step(p, list[0], disallowed)
      case Err(e) => Err(e)
      case Ok(q) => Run(q, list[1..], disallowed)
  }

  // ---------------------------------------------------------------- printing

  function PrintUser(u: UserValue): seq<Packet> { [u.packet] + u.revocations + u.selfCerts + u.otherCerts }

  function PrintSubkey(k: SubkeyValue): seq<Packet> { [k.packet] + k.revocations + k.bindings }

  function PrintUsers(us: seq<UserValue>): seq<Packet> {
    if |us| == 0 then [] else PrintUsers(Front(us)) + PrintUser(Last(us))
  }

  function PrintSubkeys(ks: seq<SubkeyValue>): seq<Packet> {
    if |ks| == 0 then [] else PrintSubkeys(Front(ks)) + PrintSubkey(Last(ks))
  }

  function Print(s: Structure): seq<Packet>
    requires s.keyPacket.Some?
  {
    [s.keyPacket.value] + s.revocations + s.directs + PrintUsers(s.users) + PrintSubkeys(s.subkeys)
  }

  /** The order of a printed key: the key packet, its revocations and direct signatures, users, subkeys. */
  lemma PrintOrder(s: Structure)
    requires s.keyPacket.Some?
    ensures var list, r, d := Print(s), |s.revocations|, |s.directs|;
      && list[0] == s.keyPacket.value && list[1..1 + r] == s.revocations && list[1 + r..1 + r + d] == s.directs
      && var u := 1 + r + d + |PrintUsers(s.users)|;
         list[1 + r + d..u] == PrintUsers(s.users) && list[u..] == PrintSubkeys(s.subkeys)
  {
    hide PrintUsers, PrintSubkeys;
  }

  /** The order of a printed user: its packet, revocations, own and other certifications. */
  lemma UserOrder(u: UserValue)
    ensures var list, r, c := PrintUser(u), |u.revocations|, |u.selfCerts|;
      && list[0] == u.packet && list[1..1 + r] == u.revocations
      && list[1 + r..1 + r + c] == u.selfCerts && list[1 + r + c..] == u.otherCerts
  {
  }

  /** The order of a printed subkey: its packet, revocations, bindings. */
  lemma SubkeyOrder(k: SubkeyValue)
    ensures var list, r := PrintSubkey(k), |k.revocations|;
      list[0] == k.packet && list[1..1 + r] == k.revocations && list[1 + r..] == k.bindings
  {
  }

  // ---------------------------------------------------------------- what parsing keeps

  /** A signature of one of the given types. */
  predicate Signed(p: Packet, types: set<nat>, disallowed: set<nat>) {
    p.Parsed? && p.tag == SIGNATURE && SIGNATURE !in disallowed && p.signatureType in types
  }

  const CERTIFICATIONS: set<nat> := {16, 17, 18, 19}

  /** Whether a packet stands in a list it would be put into again. */
  predicate Fits(p: Packet, slot: Slot, key: Option<Packet>, disallowed: set<nat>) {
    match slot
    case KeyRevocation => Signed(p, {32}, disallowed)
    case Direct => Signed(p, {31, 48}, disallowed)
    case UserRevocation => Signed(p, {48}, disallowed)
    case SelfCert =>
      Signed(p, CERTIFICATIONS, disallowed) && key.Some? && key.value.Parsed? && key.value.keyID == Some(p.issuer)
    case OtherCert =>
      Signed(p, CERTIFICATIONS, disallowed) && key.Some? && key.value.Parsed? && key.value.keyID != Some(p.issuer)
    case SubkeyRevocation => Signed(p, {40}, disallowed)
    case Binding => Signed(p, {24}, disallowed)
  }

  predicate AllFit(ps: seq<Packet>, slot: Slot, key: Option<Packet>, disallowed: set<nat>) {
    forall p :: p in ps ==> Fits(p, slot, key, disallowed)
  }

  predicate Tagged(p: Packet, tags: set<nat>, disallowed: set<nat>) {
    p.Parsed? && p.tag in tags && p.tag !in disallowed
  }

  predicate UserFits(u: UserValue, key: Option<Packet>, disallowed: set<nat>) {
    && Tagged(u.packet, {USER_ID, USER_ATTRIBUTE}, disallowed)
    && AllFit(u.revocations, UserRevocation, key, disallowed)
    && AllFit(u.selfCerts, SelfCert, key, disallowed)
    && AllFit(u.otherCerts, OtherCert, key, disallowed)
  }

  predicate SubkeyFits(k: SubkeyValue, key: Option<Packet>, disallowed: set<nat>) {
    && Tagged(k.packet, {PUBLIC_SUBKEY, SECRET_SUBKEY}, disallowed)
    && AllFit(k.revocations, SubkeyRevocation, key, disallowed)
    && AllFit(k.bindings, Binding, key, disallowed)
  }

  predicate Sorted(s: Structure, disallowed: set<nat>) {
    && (s.keyPacket.Some? ==>
          Tagged(s.keyPacket.value, {PUBLIC_KEY, SECRET_KEY}, disallowed) && s.keyPacket.value.keyID.Some?)
    && AllFit(s.revocations, KeyRevocation, s.keyPacket, disallowed)
    && AllFit(s.directs, Direct, s.keyPacket, disallowed)
    && (forall u :: u in s.users ==> UserFits(u, s.keyPacket, disallowed))
    && (forall k :: k in s.subkeys ==> SubkeyFits(k, s.keyPacket, disallowed))
  }

  lemma AppendKeepsSorted(s: Structure, slot: Slot, p: Packet, disallowed: set<nat>)
    requires Sorted(s, disallowed) && HasSlot(s, slot) && Fits(p, slot, s.keyPacket, disallowed)
    ensures Sorted(Append(s, slot, [p]), disallowed)
  {
    hide Fits, Tagged;
    if slot == UserRevocation || slot == SelfCert || slot == OtherCert {
      var u := Last(s.users);
      assert u in s.users;
      assert UserFits(Last(Append(s, slot, [p]).users), s.keyPacket, disallowed);
    } else if slot == SubkeyRevocation || slot == Binding {
      var k := Last(s.subkeys);
      assert k in s.subkeys;
      assert SubkeyFits(Last(Append(s, slot, [p]).subkeys), s.keyPacket, disallowed);
    }
  }

  /** Certifications enter only after the key packet, so setting it disturbs none. */
  lemma KeyKeepsSorted(s: Structure, packet: Packet, disallowed: set<nat>)
    requires Sorted(s, disallowed) && s.keyPacket.None?
    requires Tagged(packet, {PUBLIC_KEY, SECRET_KEY}, disallowed) && packet.keyID.Some?
    ensures Sorted(s.(keyPacket := Some(packet)), disallowed)
  {
  }

  lemma SlotForFits(p: Parser, packet: Packet, disallowed: set<nat>)
    requires Coherent(p) && packet.Parsed? && packet.tag == SIGNATURE && SIGNATURE !in disallowed
    ensures var r := SlotFor(p, packet);
      r.Ok? && r.value.Some? ==> Fits(packet, r.value.value, p.s.keyPacket, disallowed)
  {
  }

  lemma StepKeepsSorted(p: Parser, packet: Packet, disallowed: set<nat>)
    requires Coherent(p) && Sorted(p.s, disallowed)
    ensures var r := Step(p, packet, disallowed); r.Ok? ==> Sorted(r.value.s, disallowed)
  {
    hide Sorted, SlotFor, Append, Fits;
    if packet.Parsed? && packet.tag !in disallowed {
      var q := p.(ignoreUntil := None);
      if packet.tag == SIGNATURE {
        SlotForFits(q, packet, disallowed);
        var r := SlotFor(q, packet);
        if r.Ok? && r.value.Some? { AppendKeepsSorted(p.s, r.value.value, packet, disallowed); }
      } else {
        NewPartKeepsSorted(p.s, packet, disallowed);
      }
    }
  }

  lemma NewPartKeepsSorted(s: Structure, packet: Packet, disallowed: set<nat>)
    requires Sorted(s, disallowed) && packet.Parsed? && packet.tag !in disallowed
    ensures (packet.tag == PUBLIC_KEY || packet.tag == SECRET_KEY) && s.keyPacket.None? && packet.keyID.Some? ==>
      Sorted(s.(keyPacket := Some(packet)), disallowed)
    ensures packet.tag == USER_ID || packet.tag == USER_ATTRIBUTE ==>
      Sorted(s.(users := s.users + [UserValue(packet, [], [], [])]), disallowed)
    ensures packet.tag == PUBLIC_SUBKEY || packet.tag == SECRET_SUBKEY ==>
      Sorted(s.(subkeys := s.subkeys + [SubkeyValue(packet, [], [])]), disallowed)
  {
    hide Fits;
    if (packet.tag == PUBLIC_KEY || packet.tag == SECRET_KEY) && s.keyPacket.None? && packet.keyID.Some? {
      KeyKeepsSorted(s, packet, disallowed);
    }
  }

  lemma {:induction false} RunKeepsSorted(p: Parser, list: seq<Packet>, disallowed: set<nat>)
    requires Coherent(p) && Sorted(p.s, disallowed)
    ensures var r := Run(p, list, disallowed); r.Ok? ==> Sorted(r.value.s, disallowed)
    decreases |list|
  {
    hide Sorted, Step;
    if |list| > 0 {
      StepKeepsSorted(p, list[0], disallowed);
      var r := Step(p, list[0], disallowed);
      if r.Ok? { RunKeepsSorted(r.value, list[1..], disallowed); }
    }
  }

  // ---------------------------------------------------------------- printing and parsing again

  lemma {:induction false} RunAppend(p: Parser, a: seq<Packet>, b: seq<Packet>, disallowed: set<nat>)
    requires Coherent(p)
    ensures var r := Run(p, a, disallowed);
      r.Ok? ==> Run(p, a + b, disallowed) == Run(r.value, b, disallowed)
    decreases |a|
  {
    hide Step;
    if |a| == 0 {
      assert a + b == b;
    } else {
      assert (a + b)[0] == a[0] && (a + b)[1..] == a[1..] + b;
      var r := Step(p, a[0], disallowed);
      if r.Ok? { RunAppend(r.value, a[1..], b, disallowed); }
    }
  }

  lemma RunOne(p: Parser, packet: Packet, disallowed: set<nat>)
    requires Coherent(p)
    ensures Run(p, [packet], disallowed) == Step(p, packet, disallowed)
  {
    hide Step;
    var list := [packet];
    assert list[1..] == [];
    var r := Step(p, packet, disallowed);
    if r.Ok? { assert Run(r.value, list[1..], disallowed) == r; }
  }

  /** Where a fitting packet is read, its list is the one it is put into. */
  predicate Reads(p: Parser, slot: Slot) {
    && p.ignoreUntil.None? && HasSlot(p.s, slot)
    && (slot == Direct ==> !p.userOpen)
    && (slot == UserRevocation || slot == SelfCert || slot == OtherCert ==> p.userOpen)
  }

  lemma ReadOne(p: Parser, slot: Slot, packet: Packet, disallowed: set<nat>)
    requires Coherent(p) && Reads(p, slot) && Fits(packet, slot, p.s.keyPacket, disallowed)
    ensures Step(p, packet, disallowed) == Ok(p.(s := Append(p.s, slot, [packet])))
  {
    hide Append;
    assert p.(ignoreUntil := None) == p;
  }

  lemma AppendTwice(s: Structure, slot: Slot, a: seq<Packet>, b: seq<Packet>)
    requires HasSlot(s, slot)
    ensures HasSlot(Append(s, slot, a), slot)
    ensures Append(Append(s, slot, a), slot, b) == Append(s, slot, a + b)
    ensures Append(s, slot, a).keyPacket == s.keyPacket
    ensures |Append(s, slot, a).users| == |s.users|
  {
    Associative(s, a, b);
    if slot == UserRevocation || slot == SelfCert || slot == OtherCert {
      var t := Append(s, slot, a);
      assert Front(t.users) == Front(s.users);
    }
    if slot == SubkeyRevocation || slot == Binding {
      var t := Append(s, slot, a);
      assert Front(t.subkeys) == Front(s.subkeys);
    }
  }

  lemma Associative(s: Structure, a: seq<Packet>, b: seq<Packet>)
    ensures (s.revocations + a) + b == s.revocations + (a + b) && (s.directs + a) + b == s.directs + (a + b)
    ensures |s.users| > 0 ==>
      var u := Last(s.users);
      && (u.revocations + a) + b == u.revocations + (a + b)
      && (u.selfCerts + a) + b == u.selfCerts + (a + b)
      && (u.otherCerts + a) + b == u.otherCerts + (a + b)
    ensures |s.subkeys| > 0 ==>
      var k := Last(s.subkeys);
      (k.revocations + a) + b == k.revocations + (a + b) && (k.bindings + a) + b == k.bindings + (a + b)
  {
  }

  lemma AppendNothing(s: Structure, slot: Slot)
    requires HasSlot(s, slot)
    ensures Append(s, slot, []) == s
  {
    if |s.users| > 0 { assert Front(s.users) + [Last(s.users)] == s.users; }
    if |s.subkeys| > 0 { assert Front(s.subkeys) + [Last(s.subkeys)] == s.subkeys; }
    assert s.revocations + [] == s.revocations && s.directs + [] == s.directs;
    if |s.users| > 0 {
      var u := Last(s.users);
      assert u.revocations + [] == u.revocations && u.selfCerts + [] == u.selfCerts;
      assert u.otherCerts + [] == u.otherCerts;
    }
    if |s.subkeys| > 0 {
      var k := Last(s.subkeys);
      assert k.revocations + [] == k.revocations && k.bindings + [] == k.bindings;
    }
  }

  /** A whole list of fitting packets goes where it came from, in order. */
  lemma {:induction false} ReadSlot(p: Parser, slot: Slot, list: seq<Packet>, disallowed: set<nat>)
    requires Coherent(p) && Reads(p, slot) && AllFit(list, slot, p.s.keyPacket, disallowed)
    ensures Run(p, list, disallowed) == Ok(p.(s := Append(p.s, slot, list)))
    decreases |list|
  {
    hide Step, Append, Fits;
    if |list| == 0 {
      assert list == [];
      AppendNothing(p.s, slot);
    } else {
      ReadOne(p, slot, list[0], disallowed);
      AppendTwice(p.s, slot, [list[0]], list[1..]);
      assert [list[0]] + list[1..] == list;
      ReadSlot(p.(s := Append(p.s, slot, [list[0]])), slot, list[1..], disallowed);
    }
  }

  /** Two lists after each other, when the first is read without error. */
  lemma Then(p: Parser, a: seq<Packet>, q: Parser, b: seq<Packet>, disallowed: set<nat>)
    requires Coherent(p) && Coherent(q) && Run(p, a, disallowed) == Ok(q)
    ensures Run(p, a + b, disallowed) == Run(q, b, disallowed)
  {
    RunAppend(p, a, b, disallowed);
  }

  lemma ReadUser(p: Parser, u: UserValue, disallowed: set<nat>)
    requires Coherent(p) && p.ignoreUntil.None? && UserFits(u, p.s.keyPacket, disallowed)
    ensures Run(p, PrintUser(u), disallowed) == Ok(p.(s := p.s.(users := p.s.users + [u]), userOpen := true))
  {
    hide Run, Append, Fits;
    var us, key := p.s.users, p.s.keyPacket;
    var q0 := p.(s := p.s.(users := us + [UserValue(u.packet, [], [], [])]), userOpen := true);
    assert p.(ignoreUntil := None) == p;
    RunOne(p, u.packet, disallowed);
    assert Run(p, [u.packet], disallowed) == Ok(q0);
    var q1 := q0.(s := Append(q0.s, UserRevocation, u.revocations));
    AppendedUser(p.s, UserValue(u.packet, [], [], []), UserRevocation, u.revocations);
    ReadSlot(q0, UserRevocation, u.revocations, disallowed);
    Then(p, [u.packet], q0, u.revocations, disallowed);
    var q2 := q1.(s := Append(q1.s, SelfCert, u.selfCerts));
    AppendedUser(p.s, UserValue(u.packet, u.revocations, [], []), SelfCert, u.selfCerts);
    ReadSlot(q1, SelfCert, u.selfCerts, disallowed);
    Then(p, [u.packet] + u.revocations, q1, u.selfCerts, disallowed);
    AppendedUser(p.s, UserValue(u.packet, u.revocations, u.selfCerts, []), OtherCert, u.otherCerts);
    ReadSlot(q2, OtherCert, u.otherCerts, disallowed);
    Then(p, [u.packet] + u.revocations + u.selfCerts, q2, u.otherCerts, disallowed);
  }

  lemma AppendedUser(s: Structure, u: UserValue, slot: Slot, ps: seq<Packet>)
    requires slot == UserRevocation || slot == SelfCert || slot == OtherCert
    ensures var t := s.(users := s.users + [u]);
      Append(t, slot, ps) == s.(users := s.users + [
        if slot == UserRevocation then u.(revocations := u.revocations + ps)
        else if slot == SelfCert then u.(selfCerts := u.selfCerts + ps)
        else u.(otherCerts := u.otherCerts + ps)])
    ensures [] + ps == ps
  {
    assert Front(s.users + [u]) == s.users;
  }

  lemma AppendedSubkey(s: Structure, k: SubkeyValue, slot: Slot, ps: seq<Packet>)
    requires slot == SubkeyRevocation || slot == Binding
    ensures var t := s.(subkeys := s.subkeys + [k]);
      Append(t, slot, ps) == s.(subkeys := s.subkeys + [
        if slot == SubkeyRevocation then k.(revocations := k.revocations + ps) else k.(bindings := k.bindings + ps)])
    ensures [] + ps == ps
  {
    assert Front(s.subkeys + [k]) == s.subkeys;
  }

  lemma ReadSubkey(p: Parser, k: SubkeyValue, disallowed: set<nat>)
    requires Coherent(p) && p.ignoreUntil.None? && SubkeyFits(k, p.s.keyPacket, disallowed)
    ensures Run(p, PrintSubkey(k), disallowed) == Ok(p.(s := p.s.(subkeys := p.s.subkeys + [k]), userOpen := false))
  {
    hide Run, Append, Fits;
    var q0 := p.(s := p.s.(subkeys := p.s.subkeys + [SubkeyValue(k.packet, [], [])]), userOpen := false);
    assert p.(ignoreUntil := None) == p;
    RunOne(p, k.packet, disallowed);
    assert Run(p, [k.packet], disallowed) == Ok(q0);
    var q1 := q0.(s := Append(q0.s, SubkeyRevocation, k.revocations));
    AppendedSubkey(p.s, SubkeyValue(k.packet, [], []), SubkeyRevocation, k.revocations);
    ReadSlot(q0, SubkeyRevocation, k.revocations, disallowed);
    Then(p, [k.packet], q0, k.revocations, disallowed);
    AppendedSubkey(p.s, SubkeyValue(k.packet, k.revocations, []), Binding, k.bindings);
    ReadSlot(q1, Binding, k.bindings, disallowed);
    Then(p, [k.packet] + k.revocations, q1, k.bindings, disallowed);
  }

  lemma {:induction false} ReadUsers(p: Parser, us: seq<UserValue>, disallowed: set<nat>)
    requires Coherent(p) && p.ignoreUntil.None?
    requires forall u :: u in us ==> UserFits(u, p.s.keyPacket, disallowed)
    ensures Run(p, PrintUsers(us), disallowed) ==
      Ok(p.(s := p.s.(users := p.s.users + us), userOpen := p.userOpen || |us| > 0))
  {
    hide Run, UserFits, PrintUser;
    if |us| == 0 {
      RunNothing(p, disallowed);
      assert p.s.users + us == p.s.users;
    } else {
      ReadUsers(p, Front(us), disallowed);
      var q := p.(s := p.s.(users := p.s.users + Front(us)), userOpen := p.userOpen || |Front(us)| > 0);
      ReadUser(q, Last(us), disallowed);
      Then(p, PrintUsers(Front(us)), q, PrintUser(Last(us)), disallowed);
      assert (p.s.users + Front(us)) + [Last(us)] == p.s.users + us;
    }
  }

  lemma {:induction false} ReadSubkeys(p: Parser, ks: seq<SubkeyValue>, disallowed: set<nat>)
    requires Coherent(p) && p.ignoreUntil.None?
    requires forall k :: k in ks ==> SubkeyFits(k, p.s.keyPacket, disallowed)
    ensures Run(p, PrintSubkeys(ks), disallowed) ==
      Ok(p.(s := p.s.(subkeys := p.s.subkeys + ks), userOpen := p.userOpen && |ks| == 0))
  {
    hide Run, SubkeyFits, PrintSubkey;
    if |ks| == 0 {
      RunNothing(p, disallowed);
      assert p.s.subkeys + ks == p.s.subkeys;
    } else {
      ReadSubkeys(p, Front(ks), disallowed);
      var q := p.(s := p.s.(subkeys := p.s.subkeys + Front(ks)), userOpen := p.userOpen && |Front(ks)| == 0);
      ReadSubkey(q, Last(ks), disallowed);
      Then(p, PrintSubkeys(Front(ks)), q, PrintSubkey(Last(ks)), disallowed);
      assert (p.s.subkeys + Front(ks)) + [Last(ks)] == p.s.subkeys + ks;
    }
  }

  lemma RunNothing(p: Parser, disallowed: set<nat>)
    requires Coherent(p)
    ensures Run(p, [], disallowed) == Ok(p)
  {
  }

  /** A sorted structure is what its printed form parses to. */
  lemma PrintedIsRead(s: Structure, disallowed: set<nat>)
    requires s.keyPacket.Some? && Sorted(s, disallowed)
    ensures Run(START, Print(s), disallowed) == Ok(Parser(s, |s.users| > 0 && |s.subkeys| == 0, None))
  {
    hide Run, Fits, UserFits, SubkeyFits;
    var key := s.keyPacket.value;
    var p0 := Parser(Structure(Some(key), [], [], [], []), false, None);
    RunOne(START, key, disallowed);
    var p1 := Parser(Structure(Some(key), s.revocations, [], [], []), false, None);
    ReadSlot(p0, KeyRevocation, s.revocations, disallowed);
    assert [] + s.revocations == s.revocations && [] + s.directs == s.directs;
    Then(START, [key], p0, s.revocations, disallowed);
    var p2 := Parser(Structure(Some(key), s.revocations, s.directs, [], []), false, None);
    ReadSlot(p1, Direct, s.directs, disallowed);
    Then(START, [key] + s.revocations, p1, s.directs, disallowed);
    var p3 := Parser(Structure(Some(key), s.revocations, s.directs, s.users, []), |s.users| > 0, None);
    ReadUsers(p2, s.users, disallowed);
    assert [] + s.users == s.users && [] + s.subkeys == s.subkeys;
    Then(START, [key] + s.revocations + s.directs, p2, PrintUsers(s.users), disallowed);
    ReadSubkeys(p3, s.subkeys, disallowed);
    Then(START, [key] + s.revocations + s.directs + PrintUsers(s.users), p3, PrintSubkeys(s.subkeys), disallowed);
  }

  lemma EmptySorted(disallowed: set<nat>)
    ensures Sorted(EMPTY, disallowed)
  {
  }

  /** Whatever list a key was structured from, its printed form has the same structure, and so the same printed form. */
  lemma NormalForm(list: seq<Packet>, disallowed: set<nat>)
    requires var r := Run(START, list, disallowed); r.Ok? && r.value.s.keyPacket.Some?
    ensures var s := Run(START, list, disallowed).value.s;
      var again := Run(START, Print(s), disallowed);
      again.Ok? && again.value.s == s && Print(again.value.s) == Print(s)
  {
    hide Run, Sorted, Print;
    EmptySorted(disallowed);
    RunKeepsSorted(START, list, disallowed);
    PrintedIsRead(Run(START, list, disallowed).value.s, disallowed);
  }

  // ---------------------------------------------------------------- packets that cannot be parsed

  predicate IsKeyTag(tag: nat) {
    tag == PUBLIC_KEY || tag == SECRET_KEY || tag == PUBLIC_SUBKEY || tag == SECRET_SUBKEY
  }

  /** The place of the first parsed packet with one of the tags. */
  function FirstTagged(list: seq<Packet>, tags: set<nat>): (k: nat)
    ensures k <= |list|
    ensures forall i :: 0 <= i < k ==> list[i].Unparseable? || list[i].tag !in tags
    ensures k < |list| ==> list[k].Parsed? && list[k].tag in tags
  {
    if |list| == 0 || (list[0].Parsed? && list[0].tag in tags) then 0 else 1 + FirstTagged(list[1..], tags)
  }

  /** Ignoring ends exactly at the first parsed packet with one of the tags waited for. */
  lemma {:induction false} Resumes(p: Parser, list: seq<Packet>, disallowed: set<nat>)
    requires Coherent(p) && p.ignoreUntil.Some?
    ensures var k := FirstTagged(list, p.ignoreUntil.value);
      Run(p, list, disallowed)
      == if k == |list| then Ok(p) else Run(p.(ignoreUntil := None), list[k..], disallowed)
    decreases |list|
  {
    hide Place;
    if |list| > 0 {
      var tags := p.ignoreUntil.value;
      if list[0].Parsed? && list[0].tag in tags {
        assert list[0..] == list;
        assert Step(p, list[0], disallowed) == Step(p.(ignoreUntil := None), list[0], disallowed);
      } else {
        Resumes(p, list[1..], disallowed);
        assert list[1..][FirstTagged(list[1..], tags)..] == list[1 + FirstTagged(list[1..], tags)..];
      }
    }
  }

  /** The tags that end what an unparseable key packet begins; none if it begins nothing. */
  function EndingTags(tag: nat): Option<set<nat>> {
    if tag == PUBLIC_KEY then Some({PUBLIC_KEY})
    else if tag == PUBLIC_SUBKEY then Some({PUBLIC_KEY, PUBLIC_SUBKEY})
    else None
  }

  /**
   What follows an unparseable (sub)key packet counts from the next parsed public key packet on, or public
   subkey packet behind a subkey, if its tag is a public one. Behind a secret one everything counts.
   */
  lemma BehindUnparseable(p: Parser, tag: nat, raw: seq<byte>, list: seq<Packet>, disallowed: set<nat>)
    requires Coherent(p) && p.ignoreUntil.None? && IsKeyTag(tag)
    ensures Run(p, [Unparseable(tag, raw)] + list, disallowed)
      == match EndingTags(tag)
         case None => Run(p, list, disallowed)
         case Some(tags) =>
           var k := FirstTagged(list, tags);
           if k == |list| then Ok(p.(ignoreUntil := Some(tags))) else Run(p, list[k..], disallowed)
  {
    hide Place;
    var first := Unparseable(tag, raw);
    assert ([first] + list)[0] == first && ([first] + list)[1..] == list;
    RunStep(p, [first] + list, disallowed);
    if EndingTags(tag).Some? {
      var q := p.(ignoreUntil := EndingTags(tag));
      Resumes(q, list, disallowed);
      assert q.(ignoreUntil := None) == p;
    }
  }

  /**
   Behind an unparseable public subkey nothing counts until a public key packet; a parseable secret one does not
   end it.
   */
  lemma SkipsToPublicKey(p: Parser, raw: seq<byte>, list: seq<Packet>, disallowed: set<nat>)
    requires Coherent(p) && p.ignoreUntil.None?
    requires forall x :: x in list ==> x.tag != PUBLIC_KEY && x.tag != PUBLIC_SUBKEY
    ensures Run(p, [Unparseable(PUBLIC_SUBKEY, raw)] + list, disallowed) == Ok(p.(ignoreUntil := Some(KEY_PACKET_TAGS)))
  {
    hide Run;
    NoneTagged(list, KEY_PACKET_TAGS);
    BehindUnparseable(p, PUBLIC_SUBKEY, raw, list, disallowed);
  }

  lemma {:induction false} NoneTagged(list: seq<Packet>, tags: set<nat>)
    requires forall x :: x in list ==> x.tag !in tags
    ensures FirstTagged(list, tags) == |list|
  {
    if |list| > 0 { NoneTagged(list[1..], tags); }
  }

  /** Behind an unparseable secret subkey, a binding signature goes to the subkey before it. */
  lemma BindingOfSecretSubkeyMisplaced(p: Parser, raw: seq<byte>, binding: Packet, disallowed: set<nat>)
    requires Coherent(p) && p.ignoreUntil.None? && |p.s.subkeys| > 0 && Signed(binding, {24}, disallowed)
    ensures Run(p, [Unparseable(SECRET_SUBKEY, raw), binding], disallowed)
            == Ok(p.(s := Append(p.s, Binding, [binding])))
  {
    hide Append;
    var first := Unparseable(SECRET_SUBKEY, raw);
    assert p.(ignoreUntil := None) == p;
    assert [first, binding][1..] == [binding];
    ReadOne(p, Binding, binding, disallowed);
    RunOne(p, binding, disallowed);
  }

  // ---------------------------------------------------------------- nothing is invented

  function PrintAll(s: Structure): seq<Packet> {
    (if s.keyPacket.Some? then [s.keyPacket.value] else []) + s.revocations + s.directs
    + PrintUsers(s.users) + PrintSubkeys(s.subkeys)
  }

  lemma PrintUsersSnoc(us: seq<UserValue>, u: UserValue)
    ensures PrintUsers(us + [u]) == PrintUsers(us) + PrintUser(u)
  {
    assert Front(us + [u]) == us;
  }

  lemma PrintSubkeysSnoc(ks: seq<SubkeyValue>, k: SubkeyValue)
    ensures PrintSubkeys(ks + [k]) == PrintSubkeys(ks) + PrintSubkey(k)
  {
    assert Front(ks + [k]) == ks;
  }

  lemma Bags(a: seq<Packet>, b: seq<Packet>, c: seq<Packet>, d: seq<Packet>, e: seq<Packet>)
    ensures multiset(a + b + c + d + e) == multiset(a) + multiset(b) + multiset(c) + multiset(d) + multiset(e)
  {
  }

  lemma BagSnoc(a: seq<Packet>, x: Packet)
    ensures multiset(a + [x]) == multiset(a) + multiset{x}
  {
  }

  lemma PrintUserBag(u: UserValue)
    ensures multiset(PrintUser(u))
            == multiset{u.packet} + multiset(u.revocations) + multiset(u.selfCerts) + multiset(u.otherCerts)
  {
    Bags([u.packet], u.revocations, u.selfCerts, u.otherCerts, []);
    assert PrintUser(u) + [] == PrintUser(u);
  }

  lemma PrintSubkeyBag(k: SubkeyValue)
    ensures multiset(PrintSubkey(k)) == multiset{k.packet} + multiset(k.revocations) + multiset(k.bindings)
  {
    Bags([k.packet], k.revocations, k.bindings, [], []);
    assert PrintSubkey(k) + [] + [] == PrintSubkey(k);
  }

  lemma UserBag(s: Structure, slot: Slot, x: Packet)
    requires (slot == UserRevocation || slot == SelfCert || slot == OtherCert) && |s.users| > 0
    ensures multiset(PrintUsers(Append(s, slot, [x]).users)) == multiset(PrintUsers(s.users)) + multiset{x}
  {
    hide PrintUser, PrintUsers;
    var u := Last(s.users);
    var v := Last(Append(s, slot, [x]).users);
    PrintUsersSnoc(Front(s.users), u);
    PrintUsersSnoc(Front(s.users), v);
    assert Front(s.users) + [u] == s.users;
    PrintUserBag(u);
    PrintUserBag(v);
    BagSnoc(u.revocations, x);
    BagSnoc(u.selfCerts, x);
    BagSnoc(u.otherCerts, x);
  }

  lemma SubkeyBag(s: Structure, slot: Slot, x: Packet)
    requires (slot == SubkeyRevocation || slot == Binding) && |s.subkeys| > 0
    ensures multiset(PrintSubkeys(Append(s, slot, [x]).subkeys)) == multiset(PrintSubkeys(s.subkeys)) + multiset{x}
  {
    hide PrintSubkey, PrintSubkeys;
    var k := Last(s.subkeys);
    var l := Last(Append(s, slot, [x]).subkeys);
    PrintSubkeysSnoc(Front(s.subkeys), k);
    PrintSubkeysSnoc(Front(s.subkeys), l);
    assert Front(s.subkeys) + [k] == s.subkeys;
    PrintSubkeyBag(k);
    PrintSubkeyBag(l);
    BagSnoc(k.revocations, x);
    BagSnoc(k.bindings, x);
  }

  function KeyList(s: Structure): seq<Packet> { if s.keyPacket.Some? then [s.keyPacket.value] else [] }

  function Total<T>(a: multiset<T>, b: multiset<T>, c: multiset<T>, d: multiset<T>, e: multiset<T>): multiset<T> {
    a + b + c + d + e
  }

  lemma OneMore<T>(a: multiset<T>, b: multiset<T>, c: multiset<T>, d: multiset<T>, e: multiset<T>, x: T)
    ensures Total(a + multiset{x}, b, c, d, e) == Total(a, b, c, d, e) + multiset{x}
    ensures Total(a, b + multiset{x}, c, d, e) == Total(a, b, c, d, e) + multiset{x}
    ensures Total(a, b, c + multiset{x}, d, e) == Total(a, b, c, d, e) + multiset{x}
    ensures Total(a, b, c, d + multiset{x}, e) == Total(a, b, c, d, e) + multiset{x}
    ensures Total(a, b, c, d, e + multiset{x}) == Total(a, b, c, d, e) + multiset{x}
  {
  }

  ghost function Bag(s: Structure): multiset<Packet> {
    Total(multiset(KeyList(s)), multiset(s.revocations), multiset(s.directs),
          multiset(PrintUsers(s.users)), multiset(PrintSubkeys(s.subkeys)))
  }

  lemma BagMore(s: Structure, x: Packet)
    ensures var a, b, c := multiset(KeyList(s)), multiset(s.revocations), multiset(s.directs);
      var d, e := multiset(PrintUsers(s.users)), multiset(PrintSubkeys(s.subkeys));
      && Total(a + multiset{x}, b, c, d, e) == Bag(s) + multiset{x}
      && Total(a, b + multiset{x}, c, d, e) == Bag(s) + multiset{x}
      && Total(a, b, c + multiset{x}, d, e) == Bag(s) + multiset{x}
      && Total(a, b, c, d + multiset{x}, e) == Bag(s) + multiset{x}
      && Total(a, b, c, d, e + multiset{x}) == Bag(s) + multiset{x}
  {
    hide Total;
    OneMore(multiset(KeyList(s)), multiset(s.revocations), multiset(s.directs),
            multiset(PrintUsers(s.users)), multiset(PrintSubkeys(s.subkeys)), x);
  }

  lemma PrintAllBag(s: Structure)
    ensures multiset(PrintAll(s)) == Bag(s)
    ensures s.keyPacket.Some? ==> PrintAll(s) == Print(s)
  {
    hide PrintUsers, PrintSubkeys;
    Bags(KeyList(s), s.revocations, s.directs, PrintUsers(s.users), PrintSubkeys(s.subkeys));
  }

  lemma AppendPrintsOnce(s: Structure, slot: Slot, x: Packet)
    requires HasSlot(s, slot)
    ensures Bag(Append(s, slot, [x])) == Bag(s) + multiset{x}
  {
    hide PrintUsers, PrintSubkeys, Total;
    BagMore(s, x);
    match slot
    case KeyRevocation => BagSnoc(s.revocations, x);
    case Direct => BagSnoc(s.directs, x);
    case UserRevocation | SelfCert | OtherCert => UserBag(s, slot, x);
    case SubkeyRevocation | Binding => SubkeyBag(s, slot, x);
  }

  lemma NewPartPrintsOnce(s: Structure, x: Packet)
    ensures s.keyPacket.None? ==> Bag(s.(keyPacket := Some(x))) == Bag(s) + multiset{x}
    ensures Bag(s.(users := s.users + [UserValue(x, [], [], [])])) == Bag(s) + multiset{x}
    ensures Bag(s.(subkeys := s.subkeys + [SubkeyValue(x, [], [])])) == Bag(s) + multiset{x}
  {
    hide PrintUsers, PrintSubkeys, Total;
    BagMore(s, x);
    PrintUsersSnoc(s.users, UserValue(x, [], [], []));
    PrintSubkeysSnoc(s.subkeys, SubkeyValue(x, [], []));
    assert PrintUser(UserValue(x, [], [], [])) == [x] && PrintSubkey(SubkeyValue(x, [], [])) == [x];
    BagSnoc(PrintUsers(s.users), x);
    BagSnoc(PrintSubkeys(s.subkeys), x);
    BagSnoc([], x);
    assert [] + [x] == [x];
  }

  lemma StepInventsNothing(p: Parser, x: Packet, disallowed: set<nat>)
    requires Coherent(p)
    ensures var r := Step(p, x, disallowed); r.Ok? ==> Bag(r.value.s) <= Bag(p.s) + multiset{x}
  {
    hide Append, Bag, SlotFor;
    var q := p.(ignoreUntil := None);
    if x.Parsed? && x.tag == SIGNATURE {
      var slot := SlotFor(q, x);
      if slot.Ok? && slot.value.Some? { AppendPrintsOnce(p.s, slot.value.value, x); }
    } else {
      NewPartPrintsOnce(p.s, x);
    }
  }

  lemma {:induction false} RunInventsNothing(p: Parser, list: seq<Packet>, disallowed: set<nat>)
    requires Coherent(p)
    ensures var r := Run(p, list, disallowed); r.Ok? ==> Bag(r.value.s) <= Bag(p.s) + multiset(list)
    decreases |list|
  {
    hide Step, Bag;
    if |list| > 0 {
      StepInventsNothing(p, list[0], disallowed);
      assert list == [list[0]] + list[1..];
      var r := Step(p, list[0], disallowed);
      if r.Ok? { RunInventsNothing(r.value, list[1..], disallowed); }
    }
  }

  /** The printed key has each packet at most as often as the list it came from. */
  lemma NothingInvented(list: seq<Packet>, disallowed: set<nat>)
    requires var r := Run(START, list, disallowed); r.Ok? && r.value.s.keyPacket.Some?
    ensures multiset(Print(Run(START, list, disallowed).value.s)) <= multiset(list)
  {
    hide Run, Print;
    RunInventsNothing(START, list, disallowed);
    PrintAllBag(Run(START, list, disallowed).value.s);
    PrintAllBag(EMPTY);
    assert PrintAll(EMPTY) == [];
  }

  // ---------------------------------------------------------------- the classes

  class User {
    var userID: Option<Packet>
    var userAttribute: Option<Packet>
    var selfCertifications: seq<Packet>
    var otherCertifications: seq<Packet>
    var revocationSignatures: seq<Packet>

    ghost predicate Valid()
      reads this
    {
      userID.Some? || userAttribute.Some?
    }

    ghost function Value(): UserValue
      requires Valid()
      reads this
    {
      UserValue(if userID.Some? then userID.value else userAttribute.value,
                revocationSignatures, selfCertifications, otherCertifications)
    }

    constructor (userPacket: Packet)
      requires userPacket.tag == USER_ID || userPacket.tag == USER_ATTRIBUTE
      ensures Valid() && Value() == UserValue(userPacket, [], [], [])
    {
      userID := if userPacket.tag == USER_ID then Some(userPacket) else None;
      userAttribute := if userPacket.tag == USER_ATTRIBUTE then Some(userPacket) else None;
      selfCertifications, otherCertifications, revocationSignatures := [], [], [];
    }

    method ToPacketList() returns (list: seq<Packet>)
      requires Valid()
      ensures list == PrintUser(Value())
    {
      list := [if userID.Some? then userID.value else userAttribute.value];
      list := list + revocationSignatures;
      list := list + selfCertifications;
      list := list + otherCertifications;
    }
  }

  class Subkey {
    const keyPacket: Packet
    var bindingSignatures: seq<Packet>
    var revocationSignatures: seq<Packet>

    ghost function Value(): SubkeyValue
      reads this
    {
      SubkeyValue(keyPacket, revocationSignatures, bindingSignatures)
    }

    constructor (subkeyPacket: Packet)
      ensures Value() == SubkeyValue(subkeyPacket, [], [])
    {
      keyPacket, bindingSignatures, revocationSignatures := subkeyPacket, [], [];
    }

    method ToPacketList() returns (list: seq<Packet>)
      ensures list == PrintSubkey(Value())
    {
      list := [keyPacket];
      list := list + revocationSignatures;
      list := list + bindingSignatures;
    }
  }

  ghost predicate Distinct<T>(s: seq<T>) {
    forall i, j :: 0 <= i < j < |s| ==> s[i] != s[j]
  }

  lemma LastApart<T>(s: seq<T>)
    requires Distinct(s) && |s| > 0
    ensures Last(s) !in Front(s) && s == Front(s) + [Last(s)] && Distinct(Front(s))
  {
  }

  lemma DistinctSnoc<T>(s: seq<T>, x: T)
    requires Distinct(s) && x !in s
    ensures Distinct(s + [x]) && Front(s + [x]) == s && Last(s + [x]) == x
  {
  }

  ghost function UserValues(us: seq<User>): (vs: seq<UserValue>)
    requires forall u :: u in us ==> u.Valid()
    reads us
    ensures |vs| == |us|
  {
    if |us| == 0 then [] else UserValues(Front(us)) + [Last(us).Value()]
  }

  ghost function SubkeyValues(ks: seq<Subkey>): (vs: seq<SubkeyValue>)
    reads ks
    ensures |vs| == |ks|
  {
    if |ks| == 0 then [] else SubkeyValues(Front(ks)) + [Last(ks).Value()]
  }

  lemma LastUser(us: seq<User>)
    requires |us| > 0 && forall u :: u in us ==> u.Valid()
    ensures UserValues(us) == UserValues(Front(us)) + [Last(us).Value()]
    ensures Front(UserValues(us)) == UserValues(Front(us)) && Last(UserValues(us)) == Last(us).Value()
  {
  }

  lemma LastSubkey(ks: seq<Subkey>)
    requires |ks| > 0
    ensures SubkeyValues(ks) == SubkeyValues(Front(ks)) + [Last(ks).Value()]
    ensures Front(SubkeyValues(ks)) == SubkeyValues(Front(ks)) && Last(SubkeyValues(ks)) == Last(ks).Value()
  {
  }

  class Key {
    var keyPacket: Option<Packet>
    var revocationSignatures: seq<Packet>
    var directSignatures: seq<Packet>
    var users: seq<User>
    var subkeys: seq<Subkey>

    ghost predicate Valid()
      reads this, users
    {
      && (forall u :: u in users ==> u.Valid())
      && Distinct(users) && Distinct(subkeys)
      && (keyPacket.Some? ==> keyPacket.value.Parsed?)
    }

    ghost function Value(): Structure
      requires Valid()
      reads this, users, subkeys
    {
      Structure(keyPacket, revocationSignatures, directSignatures, UserValues(users), SubkeyValues(subkeys))
    }

    constructor ()
      ensures Valid() && Value() == EMPTY && users == [] && subkeys == []
    {
      keyPacket := None;
      revocationSignatures, directSignatures, users, subkeys := [], [], [], [];
    }

    /** The variables of the parsing loop: the current user and subkey. */
    ghost predicate Current(user: User?, subkey: Subkey?)
      reads this
    {
      && (user != null ==> |users| > 0 && user == Last(users))
      && (if |subkeys| == 0 then subkey == null else subkey == Last(subkeys))
    }

    /** Push a signature onto one of the current user's lists. */
    method PushOnUser(user: User, slot: Slot, packet: Packet)
      requires Valid() && |users| > 0 && user == Last(users)
      requires slot == UserRevocation || slot == SelfCert || slot == OtherCert
      modifies user
      ensures Valid() && Value() == Append(old(Value()), slot, [packet])
    {
      hide UserValues, SubkeyValues, Front;
      LastApart(users);
      LastUser(users);
      if slot == SelfCert {
        user.selfCertifications := user.selfCertifications + [packet];
      } else if slot == OtherCert {
        user.otherCertifications := user.otherCertifications + [packet];
      } else {
        user.revocationSignatures := user.revocationSignatures + [packet];
      }
      LastUser(users);
    }

    /** Push a signature onto one of the current subkey's lists. */
    method PushOnSubkey(subkey: Subkey, slot: Slot, packet: Packet)
      requires Valid() && |subkeys| > 0 && subkey == Last(subkeys) && (slot == SubkeyRevocation || slot == Binding)
      modifies subkey
      ensures Valid() && Value() == Append(old(Value()), slot, [packet])
    {
      hide UserValues, SubkeyValues, Front;
      LastApart(subkeys);
      LastSubkey(subkeys);
      if slot == Binding {
        subkey.bindingSignatures := subkey.bindingSignatures + [packet];
      } else {
        subkey.revocationSignatures := subkey.revocationSignatures + [packet];
      }
      LastSubkey(subkeys);
    }

    method PlaceSignature(packet: Packet, primaryKeyID: Option<seq<byte>>, user: User?, subkey: Subkey?)
      returns (e: Option<Error>)
      requires Valid() && Current(user, subkey) && packet.Parsed? && packet.tag == SIGNATURE
      requires primaryKeyID == if keyPacket.Some? then keyPacket.value.keyID else None
      requires keyPacket.Some? ==> keyPacket.value.keyID.Some?
      modifies this, user, subkey
      ensures Valid() && users == old(users) && subkeys == old(subkeys) && keyPacket == old(keyPacket)
      ensures match SlotFor(Parser(old(Value()), user != null, None), packet)
        case Err(error) => e == Some(error)
        case Ok(slot) =>
          e == None && Value() == if slot.None? then old(Value()) else Append(old(Value()), slot.value, [packet])
    {
      hide UserValues, SubkeyValues, Front, Distinct;
      e := None;
      var t := packet.signatureType;
      if IsCertification(t) {
        if user == null { return; }
        if primaryKeyID.None? { return Some(UndefinedKeyID); }
        PushOnUser(user, if packet.issuer == primaryKeyID.value then SelfCert else OtherCert, packet);
      } else if t == 48 {
        if user != null {
          PushOnUser(user, UserRevocation, packet);
        } else {
          directSignatures := directSignatures + [packet];
        }
      } else if t == 31 {
        directSignatures := directSignatures + [packet];
      } else if t == 24 {
        if subkey == null { return; }
        PushOnSubkey(subkey, Binding, packet);
      } else if t == 32 {
        revocationSignatures := revocationSignatures + [packet];
      } else if t == 40 {
        if subkey == null { return; }
        PushOnSubkey(subkey, SubkeyRevocation, packet);
      }
    }

    method ToPacketList() returns (list: seq<Packet>)
      requires Valid() && keyPacket.Some?
      ensures list == Print(Value())
    {
      hide UserValues, SubkeyValues, PrintUsers, PrintSubkeys, Distinct;
      list := [keyPacket.value];
      list := list + revocationSignatures;
      list := list + directSignatures;
      var part := ListUsers();
      list := list + part;
      part := ListSubkeys();
      list := list + part;
    }

    method ListUsers() returns (list: seq<Packet>)
      requires Valid()
      ensures list == PrintUsers(UserValues(users))
    {
      hide PrintUsers, PrintUser, UserValues;
      list := [];
      NoUsers();
      assert users[..0] == [];
      var i := 0;
      while i < |users|
        invariant 0 <= i <= |users| && list == PrintUsers(UserValues(users[..i]))
      {
        LastUser(users[..i + 1]);
        assert Front(users[..i + 1]) == users[..i];
        PrintUsersSnoc(UserValues(users[..i]), users[i].Value());
        var part := users[i].ToPacketList();
        list := list + part;
        i := i + 1;
      }
      assert users[..i] == users;
    }

    method ListSubkeys() returns (list: seq<Packet>)
      ensures list == PrintSubkeys(SubkeyValues(subkeys))
    {
      hide PrintSubkeys, PrintSubkey, SubkeyValues;
      list := [];
      NoUsers();
      assert subkeys[..0] == [];
      var i := 0;
      while i < |subkeys|
        invariant 0 <= i <= |subkeys| && list == PrintSubkeys(SubkeyValues(subkeys[..i]))
      {
        LastSubkey(subkeys[..i + 1]);
        assert Front(subkeys[..i + 1]) == subkeys[..i];
        PrintSubkeysSnoc(SubkeyValues(subkeys[..i]), subkeys[i].Value());
        var part := subkeys[i].ToPacketList();
        list := list + part;
        i := i + 1;
      }
      assert subkeys[..i] == subkeys;
    }

    /** Transform a packet list to structured key data; on an error the key is left half filled. */
    method PacketListToStructure(packetlist: seq<Packet>, disallowedPackets: set<nat>) returns (e: Option<Error>)
      requires Valid() && Value() == EMPTY && users == [] && subkeys == []
      modifies this
      ensures match Run(START, packetlist, disallowedPackets)
        case Err(error) => e == Some(error)
        case Ok(p) => e == None && Valid() && Value() == p.s
    {
      hide UserValues, SubkeyValues, Run, Place, Distinct;
      var user: User?, subkey: Subkey? := null, null;
      var primaryKeyID: Option<seq<byte>> := None;
      var ignoreUntil: Option<set<nat>> := None;
      e := None;
      assert packetlist[0..] == packetlist;
      var i := 0;
      while i < |packetlist|
        invariant 0 <= i <= |packetlist| && e.None? && Looping(user, subkey, primaryKeyID)
        invariant (user == null || fresh(user)) && (subkey == null || fresh(subkey))
        invariant Run(START, packetlist, disallowedPackets) ==
                  Run(Parser(Value(), user != null, ignoreUntil), packetlist[i..], disallowedPackets)
      {
        var packet := packetlist[i];
        ghost var p := Parser(Value(), user != null, ignoreUntil);
        RunStep(p, packetlist[i..], disallowedPackets);
        assert packetlist[i..][0] == packet && packetlist[i..][1..] == packetlist[i + 1..];
        i := i + 1;
        if packet.Unparseable? {
          if packet.tag in KEY_PACKET_TAGS && ignoreUntil.None? {
            ignoreUntil := Some(if packet.tag in MAIN_KEY_PACKET_TAGS then MAIN_KEY_PACKET_TAGS else KEY_PACKET_TAGS);
          }
          continue;
        }
        if ignoreUntil.Some? {
          if packet.tag !in ignoreUntil.value { continue; }
          ignoreUntil := None;
        }
        if packet.tag in disallowedPackets { return Some(UnexpectedPacket); }
        e, user, subkey, primaryKeyID := PlacePacket(packet, user, subkey, primaryKeyID);
        if e.Some? { return; }
      }
      RunStep(Parser(Value(), user != null, ignoreUntil), [], disallowedPackets);
      assert packetlist[i..] == [];
    }

    ghost predicate Looping(user: User?, subkey: Subkey?, primaryKeyID: Option<seq<byte>>)
      reads this, users
    {
      && Valid() && Current(user, subkey)
      && primaryKeyID == (if keyPacket.Some? then keyPacket.value.keyID else None)
      && (keyPacket.Some? ==> keyPacket.value.keyID.Some?)
    }

    /** The switch over the packet's tag. */
    method PlacePacket(packet: Packet, user: User?, subkey: Subkey?, primaryKeyID: Option<seq<byte>>)
        returns (e: Option<Error>, user': User?, subkey': Subkey?, primaryKeyID': Option<seq<byte>>)
      requires Looping(user, subkey, primaryKeyID) && packet.Parsed?
      modifies this, user, subkey
      ensures e.None? ==> Looping(user', subkey', primaryKeyID')
      ensures user' == null || user' == user || fresh(user')
      ensures subkey' == subkey || (subkey' != null && fresh(subkey'))
      ensures match Place(Parser(old(Value()), user != null, None), packet)
        case Err(error) => e == Some(error)
        case Ok(p) => e == None && Parser(Value(), user' != null, None) == p
    {
      hide UserValues, SubkeyValues, Distinct, SlotFor, Append;
      e, user', subkey', primaryKeyID' := None, user, subkey, primaryKeyID;
      if packet.tag == PUBLIC_KEY || packet.tag == SECRET_KEY {
        if keyPacket.Some? { return Some(MultipleKeys), user, subkey, primaryKeyID; }
        keyPacket := Some(packet);
        primaryKeyID' := packet.keyID;
        if primaryKeyID'.None? { return Some(MissingKeyID), user, subkey, primaryKeyID'; }
      } else if packet.tag == USER_ID || packet.tag == USER_ATTRIBUTE {
        user' := PushUser(packet);
      } else if packet.tag == PUBLIC_SUBKEY || packet.tag == SECRET_SUBKEY {
        user' := null;
        subkey' := PushSubkey(packet);
      } else if packet.tag == SIGNATURE {
        e := PlaceSignature(packet, primaryKeyID, user, subkey);
      }
    }

    method PushUser(packet: Packet) returns (user: User)
      requires Valid() && (packet.tag == USER_ID || packet.tag == USER_ATTRIBUTE)
      modifies this
      ensures Valid() && fresh(user) && users == old(users) + [user]
      ensures keyPacket == old(keyPacket) && subkeys == old(subkeys)
      ensures Value() == old(Value()).(users := old(Value()).users + [UserValue(packet, [], [], [])])
    {
      hide UserValues, SubkeyValues, Distinct;
      user := new User(packet);
      DistinctSnoc(users, user);
      users := users + [user];
      LastUser(users);
    }

    method PushSubkey(packet: Packet) returns (subkey: Subkey)
      requires Valid()
      modifies this
      ensures Valid() && fresh(subkey) && subkeys == old(subkeys) + [subkey]
      ensures keyPacket == old(keyPacket) && users == old(users)
      ensures Value() == old(Value()).(subkeys := old(Value()).subkeys + [SubkeyValue(packet, [], [])])
    {
      hide UserValues, SubkeyValues, Distinct;
      subkey := new Subkey(packet);
      DistinctSnoc(subkeys, subkey);
      subkeys := subkeys + [subkey];
      LastSubkey(subkeys);
    }
  }

  lemma NoUsers()
    ensures PrintUsers(UserValues([])) == [] && PrintSubkeys(SubkeyValues([])) == []
  {
  }

  lemma RunStep(p: Parser, list: seq<Packet>, disallowed: set<nat>)
    requires Coherent(p)
    ensures Run(p, list, disallowed) ==
      if |list| == 0 then Ok(p)
      else
        var r := Step(p, list[0], disallowed);
        if r.Err? then Err(r.error) else Run(r.value, list[1..], disallowed)
  {
    hide Step;
  }
}
