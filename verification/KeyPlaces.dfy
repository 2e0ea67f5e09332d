/** Where each packet of a key goes, told from its position in the list instead of by running through it. */
module KeyPlaces {
  import opened Bytes
  import opened Results
  import opened Keys

  // ---------------------------------------------------------------- which packets count

  /** An unparseable packet that is no public key or subkey packet leaves no trace. */
  lemma UnparseableIgnored(p: Parser, tag: nat, raw: seq<byte>, list: seq<Packet>, disallowed: set<nat>)
    requires Coherent(p) && (!IsKeyTag(tag) || tag == SECRET_KEY || tag == SECRET_SUBKEY)
    ensures Run(p, [Unparseable(tag, raw)] + list, disallowed) == Run(p, list, disallowed)
  {
    hide Place;
    var all := [Unparseable(tag, raw)] + list;
    assert all[0] == Unparseable(tag, raw) && all[1..] == list;
    RunStep(p, all, disallowed);
  }

  /** The packets that count: parsed, and not held back by an unparseable public key or subkey packet before them. */
  function Live(list: seq<Packet>): (live: seq<Packet>)
    ensures forall x :: x in live ==> x.Parsed?
    decreases |list|
  {
    if |list| == 0 then []
    else if list[0].Parsed? then [list[0]] + Live(list[1..])
    else
      var rest := list[1..];
      if list[0].tag == 6 then Live(rest[FirstTagged(rest, {6})..])
      else if list[0].tag == 14 then Live(rest[FirstTagged(rest, {6, 14})..])
      else Live(rest)
  }

  /** Two outcomes with the same error or the same structure. */
  predicate SameKey(r: Result<Parser>, q: Result<Parser>) {
    if q.Err? then r == q
    else r.Ok? && r.value.s == q.value.s && (r.value.ignoreUntil.None? ==> r.value.userOpen == q.value.userOpen)
  }

  /** The other packets might as well not be there. */
  lemma {:induction false} OnlyLiveCount(p: Parser, list: seq<Packet>, disallowed: set<nat>)
    requires Coherent(p) && p.ignoreUntil.None?
    ensures SameKey(Run(p, list, disallowed), Run(p, Live(list), disallowed))
    decreases |list|
  {
    hide Step;
    if |list| == 0 {
    } else if list[0].Parsed? {
      var rest := Live(list[1..]);
      assert ([list[0]] + rest)[0] == list[0] && ([list[0]] + rest)[1..] == rest;
      RunStep(p, [list[0]] + rest, disallowed);
      var r := Step(p, list[0], disallowed);
      if r.Ok? {
        ParsedKeepsReading(p, list[0], disallowed);
        OnlyLiveCount(r.value, list[1..], disallowed);
      }
    } else {
      var tag, raw, rest := list[0].tag, list[0].raw, list[1..];
      assert list == [Unparseable(tag, raw)] + rest;
      if tag == 6 || tag == 14 {
        var tags: set<nat> := if tag == 6 then {6} else {6, 14};
        var k := FirstTagged(rest, tags);
        BehindUnparseable(p, tag, raw, rest, disallowed);
        OnlyLiveCount(p, rest[k..], disallowed);
        if k == |rest| { assert rest[k..] == []; }
      } else {
        UnparseableIgnored(p, tag, raw, rest, disallowed);
        OnlyLiveCount(p, rest, disallowed);
      }
    }
  }

  lemma ParsedKeepsReading(p: Parser, x: Packet, disallowed: set<nat>)
    requires Coherent(p) && p.ignoreUntil.None? && x.Parsed?
    ensures Step(p, x, disallowed).Ok? ==> Step(p, x, disallowed).value.ignoreUntil.None?
  {
  }

  // ---------------------------------------------------------------- the place of a packet

  predicate IsPrimary(x: Packet) { x.tag == 5 || x.tag == 6 }

  predicate IsUser(x: Packet) { x.tag == 13 || x.tag == 17 }

  predicate IsSubkey(x: Packet) { x.tag == 7 || x.tag == 14 }

  function Users(list: seq<Packet>): nat {
    if |list| == 0 then 0 else Users(Front(list)) + (if IsUser(Last(list)) then 1 else 0)
  }

  function Subkeys(list: seq<Packet>): nat {
    if |list| == 0 then 0 else Subkeys(Front(list)) + (if IsSubkey(Last(list)) then 1 else 0)
  }

  /** A user packet comes after the last subkey packet. */
  ghost predicate UserOpen(list: seq<Packet>) {
    exists j :: 0 <= j < |list| && IsUser(list[j]) && forall k :: j < k < |list| ==> !IsSubkey(list[k])
  }

  function PrimaryOf(list: seq<Packet>): Option<Packet> {
    if |list| == 0 then None
    else if PrimaryOf(Front(list)).Some? then PrimaryOf(Front(list))
    else if IsPrimary(Last(list)) then Some(Last(list)) else None
  }

  datatype Home = Nowhere | Primary | NewUser | NewSubkey | OfKey(slot: Slot) | OfUser(n: nat, slot: Slot)
                 | OfSubkey(n: nat, slot: Slot)

  /** The place of a packet behind a list. */
  ghost function PlaceOf(before: seq<Packet>, x: Packet): Home
    requires x.Parsed?
  {
    if IsPrimary(x) then Primary
    else if IsUser(x) then NewUser
    else if IsSubkey(x) then NewSubkey
    else if x.tag != 2 then Nowhere
    else if 16 <= x.signatureType <= 19 then
      if !UserOpen(before) || Users(before) == 0 then Nowhere
      else OfUser(Users(before) - 1, if IssuedBy(PrimaryOf(before), x) then SelfCert else OtherCert)
    else if x.signatureType == 24 then
      if Subkeys(before) == 0 then Nowhere else OfSubkey(Subkeys(before) - 1, Binding)
    else if x.signatureType == 31 then OfKey(Direct)
    else if x.signatureType == 32 then OfKey(KeyRevocation)
    else if x.signatureType == 40 then
      if Subkeys(before) == 0 then Nowhere else OfSubkey(Subkeys(before) - 1, SubkeyRevocation)
    else if x.signatureType == 48 then
      if UserOpen(before) && Users(before) > 0 then OfUser(Users(before) - 1, UserRevocation) else OfKey(Direct)
    else Nowhere
  }

  predicate IssuedBy(key: Option<Packet>, x: Packet) {
    x.Parsed? && key.Some? && key.value.Parsed? && key.value.keyID == Some(x.issuer)
  }

  predicate AllParsed(list: seq<Packet>) { forall x :: x in list ==> x.Parsed? }

  /** The packets of a list at a place, in their order. */
  ghost function At(list: seq<Packet>, place: Home): seq<Packet>
    requires AllParsed(list)
  {
    if |list| == 0 then []
    else
      assert Last(list) in list;
      At(Front(list), place) + (if PlaceOf(Front(list), Last(list)) == place then [Last(list)] else [])
  }

  /** The packets of a list that have a place. */
  ghost function Placed(list: seq<Packet>): seq<Packet>
    requires AllParsed(list)
  {
    if |list| == 0 then []
    else
      assert Last(list) in list;
      Placed(Front(list)) + (if PlaceOf(Front(list), Last(list)) != Nowhere then [Last(list)] else [])
  }

  function UserPackets(list: seq<Packet>): (r: seq<Packet>)
    ensures |r| == Users(list)
  {
    if |list| == 0 then [] else UserPackets(Front(list)) + (if IsUser(Last(list)) then [Last(list)] else [])
  }

  function SubkeyPackets(list: seq<Packet>): (r: seq<Packet>)
    ensures |r| == Subkeys(list)
  {
    if |list| == 0 then [] else SubkeyPackets(Front(list)) + (if IsSubkey(Last(list)) then [Last(list)] else [])
  }

  ghost function UserAt(list: seq<Packet>, n: nat): UserValue
    requires AllParsed(list) && n < Users(list)
  {
    UserValue(UserPackets(list)[n], At(list, OfUser(n, UserRevocation)),
              At(list, OfUser(n, SelfCert)), At(list, OfUser(n, OtherCert)))
  }

  ghost function SubkeyAt(list: seq<Packet>, n: nat): SubkeyValue
    requires AllParsed(list) && n < Subkeys(list)
  {
    SubkeyValue(SubkeyPackets(list)[n], At(list, OfSubkey(n, SubkeyRevocation)), At(list, OfSubkey(n, Binding)))
  }

  /** The structure made of the places of all packets. */
  ghost function Declared(list: seq<Packet>): Structure
    requires AllParsed(list)
  {
    Structure(
      PrimaryOf(list), At(list, OfKey(KeyRevocation)), At(list, OfKey(Direct)),
      seq(Users(list), n requires 0 <= n < Users(list) => UserAt(list, n)),
      seq(Subkeys(list), n requires 0 <= n < Subkeys(list) => SubkeyAt(list, n)))
  }

  /** What parsing refuses: a forbidden tag, a second key, a key without an ID, a certification before the key. */
  ghost function Complaint(before: seq<Packet>, x: Packet, disallowed: set<nat>): Option<Error>
    requires x.Parsed?
  {
    if x.tag in disallowed then Some(UnexpectedPacket)
    else if IsPrimary(x) && PrimaryOf(before).Some? then Some(MultipleKeys)
    else if IsPrimary(x) && x.keyID.None? then Some(MissingKeyID)
    else if x.tag == 2 && 16 <= x.signatureType <= 19 && UserOpen(before) && PrimaryOf(before).None? then
      Some(UndefinedKeyID)
    else None
  }

  ghost function FirstComplaint(list: seq<Packet>, disallowed: set<nat>): Option<Error>
    requires AllParsed(list)
  {
    if |list| == 0 then None
    else
      assert Last(list) in list;
      var first := FirstComplaint(Front(list), disallowed);
      if first.Some? then first else Complaint(Front(list), Last(list), disallowed)
  }

  // ---------------------------------------------------------------- one more packet

  lemma UserOpenSnoc(list: seq<Packet>, x: Packet)
    ensures UserOpen(list + [x]) <==> IsUser(x) || (UserOpen(list) && !IsSubkey(x))
    ensures !UserOpen([])
  {
    var all := list + [x];
    if IsUser(x) { assert IsUser(all[|list|]); }
    if UserOpen(list) && !IsSubkey(x) {
      var j :| 0 <= j < |list| && IsUser(list[j]) && forall k :: j < k < |list| ==> !IsSubkey(list[k]);
      assert IsUser(all[j]) && forall k :: j < k < |all| ==> !IsSubkey(all[k]);
    }
    if UserOpen(all) && !IsUser(x) {
      var j :| 0 <= j < |all| && IsUser(all[j]) && forall k :: j < k < |all| ==> !IsSubkey(all[k]);
      assert j < |list| && !IsSubkey(all[|list|]);
      assert IsUser(list[j]);
      forall k | j < k < |list| ensures !IsSubkey(list[k]) { assert !IsSubkey(all[k]); }
    }
  }

  lemma Snoc(list: seq<Packet>, x: Packet)
    requires AllParsed(list) && x.Parsed?
    ensures AllParsed(list + [x]) && Front(list + [x]) == list && Last(list + [x]) == x
    ensures forall q :: At(list + [x], q) == At(list, q) + (if PlaceOf(list, x) == q then [x] else [])
    ensures Users(list + [x]) == Users(list) + (if IsUser(x) then 1 else 0)
    ensures Subkeys(list + [x]) == Subkeys(list) + (if IsSubkey(x) then 1 else 0)
    ensures UserPackets(list + [x]) == UserPackets(list) + (if IsUser(x) then [x] else [])
    ensures SubkeyPackets(list + [x]) == SubkeyPackets(list) + (if IsSubkey(x) then [x] else [])
    ensures PrimaryOf(list + [x]) == if PrimaryOf(list).None? && IsPrimary(x) then Some(x) else PrimaryOf(list)
    ensures Placed(list + [x]) == Placed(list) + (if PlaceOf(list, x) != Nowhere then [x] else [])
  {
    hide PlaceOf;
    assert Front(list + [x]) == list;
  }

  /** No packet stands with a user or subkey that has not come yet. */
  lemma {:induction false} NoneBeyond(list: seq<Packet>, n: nat, slot: Slot)
    requires AllParsed(list)
    ensures n >= Users(list) ==> At(list, OfUser(n, slot)) == []
    ensures n >= Subkeys(list) ==> At(list, OfSubkey(n, slot)) == []
    decreases |list|
  {
    if |list| > 0 {
      assert Last(list) in list;
      NoneBeyond(Front(list), n, slot);
    }
  }

  /** The structure when a packet has been put into its place. */
  lemma DeclaredSnoc(list: seq<Packet>, x: Packet)
    requires AllParsed(list) && x.Parsed?
    ensures AllParsed(list + [x])
    ensures var s, t := Declared(list), Declared(list + [x]);
      match PlaceOf(list, x)
      case Nowhere => t == s
      case Primary => t == if s.keyPacket.None? then s.(keyPacket := Some(x)) else s
      case NewUser => t == s.(users := s.users + [UserValue(x, [], [], [])])
      case NewSubkey => t == s.(subkeys := s.subkeys + [SubkeyValue(x, [], [])])
      case OfKey(slot) => (slot == KeyRevocation || slot == Direct) && t == Append(s, slot, [x])
      case OfUser(n, slot) =>
        && n + 1 == |s.users| && (slot == UserRevocation || slot == SelfCert || slot == OtherCert)
        && t == Append(s, slot, [x])
      case OfSubkey(n, slot) =>
        && n + 1 == |s.subkeys| && (slot == SubkeyRevocation || slot == Binding)
        && t == Append(s, slot, [x])
  {
    hide At, PlaceOf, UserOpen, Users, Subkeys, UserPackets, SubkeyPackets, PrimaryOf, IssuedBy, UserAt, SubkeyAt;
    Snoc(list, x);
    PlaceKind(list, x);
    UsersSnoc(list, x);
    SubkeysSnoc(list, x);
  }

  /** A user behind one more packet. */
  lemma UserAtSnoc(list: seq<Packet>, x: Packet, n: nat)
    requires AllParsed(list) && x.Parsed? && n < Users(list)
    ensures AllParsed(list + [x]) && n < Users(list + [x])
    ensures var u, v, q := UserAt(list, n), UserAt(list + [x], n), PlaceOf(list, x);
      v == if q == OfUser(n, UserRevocation) then u.(revocations := u.revocations + [x])
           else if q == OfUser(n, SelfCert) then u.(selfCerts := u.selfCerts + [x])
           else if q == OfUser(n, OtherCert) then u.(otherCerts := u.otherCerts + [x])
           else u
  {
    hide At, PlaceOf, Users, UserPackets;
    Snoc(list, x);
    var u := UserAt(list, n);
    assert u.revocations + [] == u.revocations && u.selfCerts + [] == u.selfCerts && u.otherCerts + [] == u.otherCerts;
  }

  lemma SubkeyAtSnoc(list: seq<Packet>, x: Packet, n: nat)
    requires AllParsed(list) && x.Parsed? && n < Subkeys(list)
    ensures AllParsed(list + [x]) && n < Subkeys(list + [x])
    ensures var k, l, q := SubkeyAt(list, n), SubkeyAt(list + [x], n), PlaceOf(list, x);
      l == if q == OfSubkey(n, SubkeyRevocation) then k.(revocations := k.revocations + [x])
           else if q == OfSubkey(n, Binding) then k.(bindings := k.bindings + [x])
           else k
  {
    hide At, PlaceOf, Subkeys, SubkeyPackets;
    Snoc(list, x);
    var k := SubkeyAt(list, n);
    assert k.revocations + [] == k.revocations && k.bindings + [] == k.bindings;
  }

  /** What the place of a packet tells about its kind. */
  lemma PlaceKind(list: seq<Packet>, x: Packet)
    requires x.Parsed?
    ensures var q := PlaceOf(list, x);
      && (q.OfUser? ==>
            q.n + 1 == Users(list) && (q.slot == UserRevocation || q.slot == SelfCert || q.slot == OtherCert))
      && (q.OfSubkey? ==> q.n + 1 == Subkeys(list) && (q.slot == SubkeyRevocation || q.slot == Binding))
      && (q.OfKey? ==> q.slot == KeyRevocation || q.slot == Direct)
      && (q == Primary <==> IsPrimary(x)) && (q == NewUser <==> IsUser(x)) && (q == NewSubkey <==> IsSubkey(x))
  {
    hide UserOpen, Users, Subkeys, PrimaryOf, IssuedBy;
  }

  lemma UsersSnoc(list: seq<Packet>, x: Packet)
    requires AllParsed(list) && x.Parsed?
    ensures AllParsed(list + [x])
    ensures var us, vs, q := Declared(list).users, Declared(list + [x]).users, PlaceOf(list, x);
      if IsUser(x) then vs == us + [UserValue(x, [], [], [])]
      else if !q.OfUser? then vs == us
      else
        && |us| > 0
        && (q.slot == UserRevocation ==> vs == Front(us) + [Last(us).(revocations := Last(us).revocations + [x])])
        && (q.slot == SelfCert ==> vs == Front(us) + [Last(us).(selfCerts := Last(us).selfCerts + [x])])
        && (q.slot == OtherCert ==> vs == Front(us) + [Last(us).(otherCerts := Last(us).otherCerts + [x])])
  {
    hide At, PlaceOf, UserOpen, Users, Subkeys, UserPackets, SubkeyPackets, PrimaryOf, UserAt, SubkeyAt;
    Snoc(list, x);
    PlaceKind(list, x);
    var us, vs := Declared(list).users, Declared(list + [x]).users;
    UsersBefore(list, x);
    if IsUser(x) {
      NewUserAt(list, x);
      Extended(us, vs);
    } else if |us| > 0 {
      UserAtSnoc(list, x, |us| - 1);
      Replaced(us, vs);
    }
  }

  /** All users but the last stay as they are, and the last one too unless the packet goes to it. */
  lemma UsersBefore(list: seq<Packet>, x: Packet)
    requires AllParsed(list) && x.Parsed?
    ensures AllParsed(list + [x])
    ensures var us, vs, q := Declared(list).users, Declared(list + [x]).users, PlaceOf(list, x);
      && |us| <= |vs| && (forall n :: 0 <= n < |us| - 1 ==> vs[n] == us[n])
      && (|us| > 0 && !q.OfUser? ==> vs[|us| - 1] == us[|us| - 1])
  {
    hide At, PlaceOf, UserOpen, Users, Subkeys, UserPackets, SubkeyPackets, PrimaryOf, UserAt, SubkeyAt;
    Snoc(list, x);
    PlaceKind(list, x);
    forall n | 0 <= n < |Declared(list).users|
      ensures (PlaceOf(list, x).OfUser? && PlaceOf(list, x).n == n) || UserAt(list + [x], n) == UserAt(list, n)
    {
      UserAtSnoc(list, x, n);
    }
  }

  lemma Extended<T>(s: seq<T>, t: seq<T>)
    requires |t| == |s| + 1 && (forall n :: 0 <= n < |s| - 1 ==> t[n] == s[n]) && (|s| > 0 ==> t[|s| - 1] == s[|s| - 1])
    ensures t == s + [t[|s|]]
  {
  }

  lemma Replaced<T>(s: seq<T>, t: seq<T>)
    requires |t| == |s| > 0 && forall n :: 0 <= n < |s| - 1 ==> t[n] == s[n]
    ensures t == Front(s) + [Last(t)] && s == Front(s) + [Last(s)]
  {
  }

  lemma NewUserAt(list: seq<Packet>, x: Packet)
    requires AllParsed(list) && x.Parsed? && IsUser(x)
    ensures AllParsed(list + [x]) && Users(list + [x]) == Users(list) + 1
    ensures UserAt(list + [x], Users(list)) == UserValue(x, [], [], [])
  {
    hide At, Users, UserPackets;
    var n := Users(list);
    Snoc(list, x);
    NoneBeyond(list, n, UserRevocation);
    NoneBeyond(list, n, SelfCert);
    NoneBeyond(list, n, OtherCert);
  }

  lemma NewSubkeyAt(list: seq<Packet>, x: Packet)
    requires AllParsed(list) && x.Parsed? && IsSubkey(x)
    ensures AllParsed(list + [x]) && Subkeys(list + [x]) == Subkeys(list) + 1
    ensures SubkeyAt(list + [x], Subkeys(list)) == SubkeyValue(x, [], [])
  {
    hide At, Subkeys, SubkeyPackets;
    var n := Subkeys(list);
    Snoc(list, x);
    NoneBeyond(list, n, SubkeyRevocation);
    NoneBeyond(list, n, Binding);
  }

  lemma SubkeysSnoc(list: seq<Packet>, x: Packet)
    requires AllParsed(list) && x.Parsed?
    ensures AllParsed(list + [x])
    ensures var ks, ls, q := Declared(list).subkeys, Declared(list + [x]).subkeys, PlaceOf(list, x);
      if IsSubkey(x) then ls == ks + [SubkeyValue(x, [], [])]
      else if !q.OfSubkey? then ls == ks
      else
        && |ks| > 0
        && (q.slot == SubkeyRevocation ==> ls == Front(ks) + [Last(ks).(revocations := Last(ks).revocations + [x])])
        && (q.slot == Binding ==> ls == Front(ks) + [Last(ks).(bindings := Last(ks).bindings + [x])])
  {
    hide At, PlaceOf, UserOpen, Users, Subkeys, UserPackets, SubkeyPackets, PrimaryOf, UserAt, SubkeyAt;
    Snoc(list, x);
    PlaceKind(list, x);
    var ks, ls := Declared(list).subkeys, Declared(list + [x]).subkeys;
    SubkeysBefore(list, x);
    if IsSubkey(x) {
      NewSubkeyAt(list, x);
      Extended(ks, ls);
    } else if |ks| > 0 {
      SubkeyAtSnoc(list, x, |ks| - 1);
      Replaced(ks, ls);
    }
  }

  lemma SubkeysBefore(list: seq<Packet>, x: Packet)
    requires AllParsed(list) && x.Parsed?
    ensures AllParsed(list + [x])
    ensures var ks, ls, q := Declared(list).subkeys, Declared(list + [x]).subkeys, PlaceOf(list, x);
      && |ks| <= |ls| && (forall n :: 0 <= n < |ks| - 1 ==> ls[n] == ks[n])
      && (|ks| > 0 && !q.OfSubkey? ==> ls[|ks| - 1] == ks[|ks| - 1])
  {
    hide At, PlaceOf, UserOpen, Users, Subkeys, UserPackets, SubkeyPackets, PrimaryOf, UserAt, SubkeyAt;
    Snoc(list, x);
    PlaceKind(list, x);
    forall n | 0 <= n < |Declared(list).subkeys|
      ensures (PlaceOf(list, x).OfSubkey? && PlaceOf(list, x).n == n) || SubkeyAt(list + [x], n) == SubkeyAt(list, n)
    {
      SubkeyAtSnoc(list, x, n);
    }
  }

  // ---------------------------------------------------------------- the run is the declaration

  /** The parser whose structure is declared by a list. */
  ghost predicate Reflects(p: Parser, list: seq<Packet>)
    requires AllParsed(list)
  {
    && p.s == Declared(list) && p.ignoreUntil.None? && p.userOpen == UserOpen(list)
    && (p.userOpen ==> |p.s.users| > 0)
    && (p.s.keyPacket.Some? ==> p.s.keyPacket.value.Parsed? && p.s.keyPacket.value.keyID.Some?)
  }

  lemma ReflectsStep(p: Parser, list: seq<Packet>, x: Packet, disallowed: set<nat>)
    requires AllParsed(list) && x.Parsed? && Reflects(p, list)
    ensures AllParsed(list + [x])
    ensures match Complaint(list, x, disallowed)
      case Some(error) => Step(p, x, disallowed) == Err(error)
      case None => Step(p, x, disallowed).Ok? && Reflects(Step(p, x, disallowed).value, list + [x])
  {
    hide Declared, UserOpen, Users, Subkeys, Append;
    DeclaredSnoc(list, x);
    UserOpenSnoc(list, x);
    DeclaredSizes(list);
    assert p.(ignoreUntil := None) == p;
    var s, t := Declared(list), Declared(list + [x]);
    var q := PlaceOf(list, x);
    if q.OfKey? || q.OfUser? || q.OfSubkey? { AppendKeeps(s, q.slot, [x]); }
  }

  lemma AppendKeeps(s: Structure, slot: Slot, xs: seq<Packet>)
    requires HasSlot(s, slot)
    ensures Append(s, slot, xs).keyPacket == s.keyPacket && |Append(s, slot, xs).users| == |s.users|
  {
  }

  lemma DeclaredSizes(list: seq<Packet>)
    requires AllParsed(list)
    ensures var s := Declared(list);
      |s.users| == Users(list) && |s.subkeys| == Subkeys(list) && s.keyPacket == PrimaryOf(list)
  {
  }

  /** Parsing puts each packet into its place, up to the first one there is a complaint about. */
  lemma {:induction false} ParsedIsDeclared(list: seq<Packet>, disallowed: set<nat>)
    requires AllParsed(list)
    ensures match FirstComplaint(list, disallowed)
      case Some(error) => Run(START, list, disallowed) == Err(error)
      case None => Run(START, list, disallowed).Ok? && Reflects(Run(START, list, disallowed).value, list)
    decreases |list|
  {
    hide Step, Complaint, Reflects;
    if |list| == 0 {
      NothingDeclared();
      RunNothing(START, disallowed);
      assert list == [];
    } else {
      var init, x := Front(list), Last(list);
      assert list == init + [x] && x in list;
      ParsedIsDeclared(init, disallowed);
      var r := Run(START, init, disallowed);
      if r.Ok? {
        RunAppend(START, init, [x], disallowed);
        RunOne(r.value, x, disallowed);
        ReflectsStep(r.value, init, x, disallowed);
      } else {
        RunFails(START, init, [x], disallowed);
      }
    }
  }

  lemma NothingDeclared()
    ensures Reflects(START, [])
  {
  }

  lemma {:induction false} RunFails(p: Parser, a: seq<Packet>, b: seq<Packet>, disallowed: set<nat>)
    requires Coherent(p) && Run(p, a, disallowed).Err?
    ensures Run(p, a + b, disallowed) == Run(p, a, disallowed)
    decreases |a|
  {
    hide Step;
    assert (a + b)[0] == a[0] && (a + b)[1..] == a[1..] + b;
    var r := Step(p, a[0], disallowed);
    if r.Ok? { RunFails(r.value, a[1..], b, disallowed); }
  }

  // ---------------------------------------------------------------- any list

  /**
   The structure of any list, unparseable packets and all: the first complaint about the packets that count, or
   what their places make.
   */
  lemma KeyOfList(list: seq<Packet>, disallowed: set<nat>)
    ensures match FirstComplaint(Live(list), disallowed)
      case Some(error) => Run(START, list, disallowed) == Err(error)
      case None => Run(START, list, disallowed).Ok? && Run(START, list, disallowed).value.s == Declared(Live(list))
  {
    hide Run, Live, Declared, FirstComplaint;
    OnlyLiveCount(START, list, disallowed);
    ParsedIsDeclared(Live(list), disallowed);
  }

  lemma {:induction false} PlacedIsPrinted(list: seq<Packet>, disallowed: set<nat>)
    requires AllParsed(list) && FirstComplaint(list, disallowed).None?
    ensures Bag(Declared(list)) == multiset(Placed(list))
    decreases |list|
  {
    hide Declared, Bag, PlaceOf, Complaint, Append;
    if |list| == 0 {
      NothingPlaced();
      assert list == [];
    } else {
      var init, x := Front(list), Last(list);
      assert list == init + [x] && x in list;
      PlacedIsPrinted(init, disallowed);
      OneMorePlaced(init, x, disallowed);
      Snoc(init, x);
      BagSnoc(Placed(init), x);
    }
  }

  lemma NothingPlaced()
    ensures Bag(Declared([])) == multiset(Placed([]))
  {
    PrintAllBag(EMPTY);
    assert Declared([]) == EMPTY && PrintAll(EMPTY) == [];
  }

  lemma OneMorePlaced(list: seq<Packet>, x: Packet, disallowed: set<nat>)
    requires AllParsed(list) && x.Parsed? && Complaint(list, x, disallowed).None?
    ensures AllParsed(list + [x])
    ensures Bag(Declared(list + [x]))
         == Bag(Declared(list)) + (if PlaceOf(list, x) == Nowhere then multiset{} else multiset{x})
  {
    hide Bag, Append, UserOpen, Users, Subkeys;
    DeclaredSnoc(list, x);
    DeclaredSizes(list);
    hide Declared;
    var s, q := Declared(list), PlaceOf(list, x);
    NewPartPrintsOnce(s, x);
    if q.OfKey? || q.OfUser? || q.OfSubkey? { AppendPrintsOnce(s, q.slot, x); }
  }

  /** The printed key holds exactly the packets that count and have a place, each as often as the list does. */
  lemma PrintedExactly(list: seq<Packet>, disallowed: set<nat>)
    requires var r := Run(START, list, disallowed); r.Ok? && r.value.s.keyPacket.Some?
    ensures multiset(Print(Run(START, list, disallowed).value.s)) == multiset(Placed(Live(list)))
  {
    hide Run, Live, Declared, FirstComplaint, Print;
    KeyOfList(list, disallowed);
    PlacedIsPrinted(Live(list), disallowed);
    PrintAllBag(Run(START, list, disallowed).value.s);
  }
}
