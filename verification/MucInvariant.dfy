/** What holds of group chats in every reachable state, and what a change of nickname does. */
module MucInvariant {
  import opened Lists
  import opened MucModel

  function Mult(s: seq<int>, x: int): nat { multiset(s)[x] }

  /** At most one chat per account and room. */
  ghost predicate RoomsOk(chats: seq<Room>) {
    forall i, k :: 0 <= i < |chats| && 0 <= k < |chats| && IsRoom(chats[k], chats[i].account, chats[i].room) ==> i == k
  }

  predicate LivesIn(v: Occupant, r: Room) { v.account == r.account && v.full.room == r.room }

  /** A chat lists exactly the occupants of its account and room, each once; `me` is one of them. */
  ghost predicate ListsOk(chats: seq<Room>, occupants: map<int, Occupant>) {
    && (forall k :: 0 <= k < |chats| ==> forall o <- chats[k].participants :: o in occupants && LivesIn(occupants[o], chats[k]))
    && (forall k, o :: 0 <= k < |chats| && o in occupants && LivesIn(occupants[o], chats[k]) ==> Mult(chats[k].participants, o) == 1)
    && (forall k :: 0 <= k < |chats| ==> chats[k].me == -1 || chats[k].me in chats[k].participants)
  }

  predicate Housed(chats: seq<Room>, v: Occupant) { exists k :: 0 <= k < |chats| && LivesIn(v, chats[k]) }

  /** Every occupant is in a chat there is, and its nickname is that of its address. */
  ghost predicate OccupantsOk(chats: seq<Room>, occupants: map<int, Occupant>, next: int) {
    next >= 0 && forall o <- occupants :: 0 <= o < next && occupants[o].nickname == occupants[o].full.nick && Housed(chats, occupants[o])
  }

  /** The address index lists exactly the occupants, under their own addresses. */
  ghost predicate IndexOk(occupants: map<int, Occupant>, byJid: map<Jid, set<int>>) {
    && (forall j <- byJid :: byJid[j] != {} && forall o <- byJid[j] :: o in occupants && occupants[o].full == j)
    && (forall o <- occupants :: occupants[o].full in byJid && o in byJid[occupants[o].full])
  }

  ghost predicate Inv(s: Muc) {
    RoomsOk(s.chats) && ListsOk(s.chats, s.occupants) && OccupantsOk(s.chats, s.occupants, s.nextOccupant) && IndexOk(s.occupants, s.byJid)
  }

  lemma InitialInv()
    ensures Inv(INITIAL)
  {
  }

  lemma {:induction false} FoundLast(chats: seq<Room>, account: int, room: string, r: Room)
    requires FindRoom(chats, account, room) == -1 && IsRoom(r, account, room)
    ensures FindRoom(chats + [r], account, room) == |chats|
  {
    if chats != [] {
      assert (chats + [r])[1..] == chats[1..] + [r];
      FoundLast(chats[1..], account, room, r);
    }
  }

  /** The chats keep account, room and members. */
  ghost predicate SameLists(a: seq<Room>, b: seq<Room>) {
    |b| == |a| && forall k :: 0 <= k < |a| ==> b[k] == a[k].(nickname := b[k].nickname, joined := b[k].joined)
  }

  lemma SameListsInv(s: Muc, t: Muc)
    requires Inv(s) && SameLists(s.chats, t.chats) && t.occupants == s.occupants && t.byJid == s.byJid && t.nextOccupant == s.nextOccupant
    ensures Inv(t)
  {
    assert RoomsOk(t.chats) by {
      forall i, k | 0 <= i < |t.chats| && 0 <= k < |t.chats| && IsRoom(t.chats[k], t.chats[i].account, t.chats[i].room) ensures i == k {
        assert IsRoom(s.chats[k], s.chats[i].account, s.chats[i].room);
      }
    }
    assert ListsOk(t.chats, t.occupants) by {
      forall k, o | 0 <= k < |t.chats| && o in t.occupants && LivesIn(t.occupants[o], t.chats[k]) ensures Mult(t.chats[k].participants, o) == 1 {
        assert LivesIn(s.occupants[o], s.chats[k]);
      }
      forall k | 0 <= k < |t.chats| ensures forall o <- t.chats[k].participants :: o in t.occupants && LivesIn(t.occupants[o], t.chats[k]) {
        assert forall o <- s.chats[k].participants :: LivesIn(s.occupants[o], s.chats[k]);
      }
    }
    forall o | o in t.occupants ensures Housed(t.chats, t.occupants[o]) {
      var k :| 0 <= k < |s.chats| && LivesIn(s.occupants[o], s.chats[k]);
      assert LivesIn(t.occupants[o], t.chats[k]);
    }
  }

  lemma RoomAdded(chats: seq<Room>, r: Room)
    requires RoomsOk(chats) && forall k :: 0 <= k < |chats| ==> !IsRoom(chats[k], r.account, r.room)
    ensures RoomsOk(chats + [r])
  {
    var all := chats + [r];
    assert forall k :: 0 <= k < |chats| ==> all[k] == chats[k] && !IsRoom(chats[k], r.account, r.room) && !IsRoom(r, chats[k].account, chats[k].room);
    forall i, k | 0 <= i < |all| && 0 <= k < |all| && IsRoom(all[k], all[i].account, all[i].room) ensures i == k {
      if i < |chats| && k < |chats| {
        assert IsRoom(chats[k], chats[i].account, chats[i].room);
      }
    }
  }

  lemma RoomEmpty(chats: seq<Room>, occupants: map<int, Occupant>, r: Room)
    requires ListsOk(chats, occupants) && r.participants == [] && r.me == -1 && forall o <- occupants :: !LivesIn(occupants[o], r)
    ensures ListsOk(chats + [r], occupants)
  {
    var all := chats + [r];
    forall k | 0 <= k < |all| ensures forall o <- all[k].participants :: o in occupants && LivesIn(occupants[o], all[k]) {
      assert k < |chats| ==> all[k] == chats[k];
    }
    forall k, o | 0 <= k < |all| && o in occupants && LivesIn(occupants[o], all[k]) ensures Mult(all[k].participants, o) == 1 {
      assert k < |chats| ==> all[k] == chats[k];
    }
  }

  lemma StillHousedThere(chats: seq<Room>, r: Room, occupants: map<int, Occupant>, next: int)
    requires OccupantsOk(chats, occupants, next)
    ensures OccupantsOk(chats + [r], occupants, next)
  {
    forall o | o in occupants ensures Housed(chats + [r], occupants[o]) {
      var k :| 0 <= k < |chats| && LivesIn(occupants[o], chats[k]);
      assert (chats + [r])[k] == chats[k];
    }
  }

  /** Nobody lives in a room there is no chat for. */
  lemma NobodyThere(chats: seq<Room>, occupants: map<int, Occupant>, next: int, r: Room)
    requires OccupantsOk(chats, occupants, next) && forall k :: 0 <= k < |chats| ==> !IsRoom(chats[k], r.account, r.room)
    ensures forall o <- occupants :: !LivesIn(occupants[o], r)
  {
    forall o | o in occupants ensures !LivesIn(occupants[o], r) {
      var k :| 0 <= k < |chats| && LivesIn(occupants[o], chats[k]);
      assert !IsRoom(chats[k], r.account, r.room);
    }
  }

  lemma NewRoomInv(s: Muc, account: int, room: string, nick: string, history: bool)
    requires Inv(s) && FindRoom(s.chats, account, room) == -1
    ensures Inv(NewRoom(s, account, room, nick, history))
  {
    hide RoomsOk;
    hide ListsOk;
    hide OccupantsOk;
    hide IndexOk;
    hide IsRoom;
    hide LivesIn;
    var r := Room(s.nextChat, account, room, nick, history, false, [], -1);
    RoomAdded(s.chats, r);
    NobodyThere(s.chats, s.occupants, s.nextOccupant, r);
    RoomEmpty(s.chats, s.occupants, r);
    StillHousedThere(s.chats, r, s.occupants, s.nextOccupant);
  }

  // ---- occupants come and go --------------------------------------------------------------------

  lemma RegisterIndex(occupants: map<int, Occupant>, byJid: map<Jid, set<int>>, o: int, v: Occupant)
    requires IndexOk(occupants, byJid) && o !in occupants
    ensures IndexOk(occupants[o := v], byJid[v.full := At(byJid, v.full) + {o}])
  {
    var byJid' := byJid[v.full := At(byJid, v.full) + {o}];
    forall j | j in byJid' ensures byJid'[j] != {} && forall p <- byJid'[j] :: p in occupants[o := v] && occupants[o := v][p].full == j {
      if j == v.full {
        assert o in byJid'[j];
      }
    }
  }

  lemma UnlistIndex(occupants: map<int, Occupant>, byJid: map<Jid, set<int>>, o: int)
    requires IndexOk(occupants, byJid) && o in occupants
    ensures IndexOk(occupants - {o}, Unlist(byJid, occupants[o].full, o))
  {
  }

  /** A chat and its occupants change together. */
  lemma ChatChanged(chats: seq<Room>, a: map<int, Occupant>, b: map<int, Occupant>, k: nat, r: Room)
    requires k < |chats| && RoomsOk(chats) && ListsOk(chats, a) && IsRoom(r, chats[k].account, chats[k].room)
    requires forall o :: (o in a && !LivesIn(a[o], chats[k])) <==> (o in b && !LivesIn(b[o], chats[k]))
    requires forall o :: o in a && o in b && !LivesIn(a[o], chats[k]) ==> b[o] == a[o]
    requires forall o <- r.participants :: o in b && LivesIn(b[o], r)
    requires forall o <- b :: LivesIn(b[o], r) ==> Mult(r.participants, o) == 1
    requires r.me == -1 || r.me in r.participants
    ensures RoomsOk(chats[k := r]) && ListsOk(chats[k := r], b)
    ensures forall v :: Housed(chats, v) ==> Housed(chats[k := r], v)
  {
    var chats' := chats[k := r];
    forall i, m | 0 <= i < |chats'| && 0 <= m < |chats'| && IsRoom(chats'[m], chats'[i].account, chats'[i].room) ensures i == m {
      assert IsRoom(chats[m], chats[i].account, chats[i].room);
    }
    forall m, o | 0 <= m < |chats'| && o in b && LivesIn(b[o], chats'[m]) ensures Mult(chats'[m].participants, o) == 1 {
      if m != k {
        assert !IsRoom(chats[m], chats[k].account, chats[k].room);
        assert LivesIn(a[o], chats[m]);
      }
    }
    forall m | 0 <= m < |chats'| ensures forall o <- chats'[m].participants :: o in b && LivesIn(b[o], chats'[m]) {
      if m != k {
        forall o | o in chats[m].participants ensures o in b && LivesIn(b[o], chats[m]) {
          assert LivesIn(a[o], chats[m]);
          assert !IsRoom(chats[m], chats[k].account, chats[k].room);
        }
      }
    }
    forall v | Housed(chats, v) ensures Housed(chats', v) {
      var m :| 0 <= m < |chats| && LivesIn(v, chats[m]);
      assert LivesIn(v, chats'[m]);
    }
  }

  lemma EnterHoused(chats: seq<Room>, chats': seq<Room>, a: map<int, Occupant>, o: int, v: Occupant, next: int)
    requires OccupantsOk(chats, a, next) && o == next && v.nickname == v.full.nick && Housed(chats', v)
    requires forall w :: Housed(chats, w) ==> Housed(chats', w)
    ensures o !in a && OccupantsOk(chats', a[o := v], next + 1)
  {
    hide Housed;
  }

  lemma EnterInv(s: Muc, k: nat, j: Jid, p: Presence)
    requires Inv(s) && k < |s.chats| && s.chats[k].room == j.room
    ensures Inv(Enter(s, k, j, p))
  {
    hide RoomsOk;
    hide IndexOk;
    hide Housed;
    var t, r, o := Enter(s, k, j, p), s.chats[k], s.nextOccupant;
    assert o !in s.occupants;
    RegisterIndex(s.occupants, s.byJid, o, t.occupants[o]);
    assert o !in r.participants;
    ChatChanged(s.chats, s.occupants, t.occupants, k, t.chats[k]);
    hide ListsOk;
    LivesThere(t.chats, t.occupants[o], k);
    EnterHoused(s.chats, t.chats, s.occupants, o, t.occupants[o], s.nextOccupant);
  }

  lemma LivesThere(chats: seq<Room>, v: Occupant, k: nat)
    requires k < |chats| && LivesIn(v, chats[k])
    ensures Housed(chats, v)
  {
  }

  predicate SamePlace(v: Occupant, w: Occupant) {
    w == v.(role := w.role, affiliation := w.affiliation, status := w.status, statusText := w.statusText)
  }

  lemma RefreshedInv(s: Muc, o: int, v: Occupant, log: seq<Note>)
    requires Inv(s) && o in s.occupants && SamePlace(s.occupants[o], v)
    ensures Inv(s.(occupants := s.occupants[o := v], log := log))
  {
    hide IndexOk;
    RefreshedIndex(s.occupants, s.byJid, o, v);
    RefreshedLists(s.chats, s.occupants, o, v);
    var after := s.occupants[o := v];
    forall q | q in after ensures Housed(s.chats, after[q]) {
      var k :| 0 <= k < |s.chats| && LivesIn(s.occupants[q], s.chats[k]);
      assert LivesIn(after[q], s.chats[k]);
    }
  }

  lemma RefreshedIndex(occupants: map<int, Occupant>, byJid: map<Jid, set<int>>, o: int, v: Occupant)
    requires IndexOk(occupants, byJid) && o in occupants && v.full == occupants[o].full
    ensures IndexOk(occupants[o := v], byJid)
  {
  }

  lemma RefreshedLists(chats: seq<Room>, occupants: map<int, Occupant>, o: int, v: Occupant)
    requires ListsOk(chats, occupants) && o in occupants && SamePlace(occupants[o], v)
    ensures ListsOk(chats, occupants[o := v])
  {
    var after := occupants[o := v];
    forall k, q | 0 <= k < |chats| && q in after && LivesIn(after[q], chats[k]) ensures Mult(chats[k].participants, q) == 1 {
      assert LivesIn(occupants[q], chats[k]);
    }
    forall k | 0 <= k < |chats| ensures forall q <- chats[k].participants :: q in after && LivesIn(after[q], chats[k]) {
      assert forall q <- chats[k].participants :: LivesIn(occupants[q], chats[k]);
    }
  }

  lemma AvailableInv(s: Muc, k: nat, j: Jid, p: Presence, found: int)
    requires Inv(s) && k < |s.chats| && s.chats[k].room == j.room
    ensures Inv(Available(s, k, j, p, found))
  {
    hide Inv;
    var t := if p.status == 201 then Queue(s, Created(s.chats[k].id)) else s;
    assert Inv(t) by { SameListsInv(s, t); }
    if found == -1 {
      EnterInv(t, k, j, p);
    } else if found in t.occupants {
      var v := t.occupants[found];
      var w := v.(role := p.role, affiliation := p.affiliation);
      var u := Queue(t.(occupants := t.occupants[found := w]), RoleChanged(s.chats[k].id, j.nick, p.role, p.affiliation));
      RefreshedInv(t, found, w, u.log);
      RefreshedInv(t, found, v.(status := StatusName(p), statusText := p.text),
                   t.log + [StatusChanged(s.chats[k].id, j.nick, StatusName(p), p.text)]);
      RefreshedInv(u, found, w.(status := StatusName(p), statusText := p.text),
                   u.log + [StatusChanged(s.chats[k].id, j.nick, StatusName(p), p.text)]);
    }
  }

  lemma RenameShape(s: Muc, o: int, nick: string)
    requires IndexOk(s.occupants, s.byJid) && o in s.occupants
    ensures var t, v := Rename(s, o, nick), s.occupants[o].(nickname := nick, full := Jid(s.occupants[o].full.room, nick));
            t == s.(occupants := s.occupants[o := v], byJid := t.byJid) && IndexOk(t.occupants, t.byJid)
  {
    hide IndexOk;
    var v := s.occupants[o].(nickname := nick, full := Jid(s.occupants[o].full.room, nick));
    UnlistIndex(s.occupants, s.byJid, o);
    RegisterIndex(s.occupants - {o}, Unlist(s.byJid, s.occupants[o].full, o), o, v);
    assert (s.occupants - {o})[o := v] == s.occupants[o := v];
  }

  /** A new nickname does not move an occupant to another room. */
  lemma SameRoom(chats: seq<Room>, v: Occupant, w: Occupant)
    requires w.account == v.account && w.full.room == v.full.room
    ensures Housed(chats, w) <==> Housed(chats, v)
    ensures forall k :: 0 <= k < |chats| ==> (LivesIn(w, chats[k]) <==> LivesIn(v, chats[k]))
  {
    if Housed(chats, v) {
      var k :| 0 <= k < |chats| && LivesIn(v, chats[k]);
      assert LivesIn(w, chats[k]);
    }
    if Housed(chats, w) {
      var k :| 0 <= k < |chats| && LivesIn(w, chats[k]);
      assert LivesIn(v, chats[k]);
    }
  }

  lemma RenamedLists(chats: seq<Room>, a: map<int, Occupant>, o: int, w: Occupant)
    requires ListsOk(chats, a) && o in a && w.account == a[o].account && w.full.room == a[o].full.room
    ensures ListsOk(chats, a[o := w])
  {
    SameRoom(chats, a[o], w);
    var b := a[o := w];
    forall k | 0 <= k < |chats| ensures forall q <- chats[k].participants :: q in b && LivesIn(b[q], chats[k]) {
      assert forall q <- chats[k].participants :: q in a && LivesIn(a[q], chats[k]);
    }
    forall k, q | 0 <= k < |chats| && q in b && LivesIn(b[q], chats[k]) ensures Mult(chats[k].participants, q) == 1 {
      assert LivesIn(a[q], chats[k]);
    }
  }

  lemma RenamedOccupants(chats: seq<Room>, a: map<int, Occupant>, next: int, o: int, w: Occupant)
    requires OccupantsOk(chats, a, next) && o in a && w.account == a[o].account && w.full.room == a[o].full.room && w.nickname == w.full.nick
    ensures OccupantsOk(chats, a[o := w], next)
  {
    hide Housed;
    SameRoom(chats, a[o], w);
  }

  lemma RenameInv(s: Muc, k: nat, o: int, nick: string)
    requires Inv(s) && o in s.occupants && k < |s.chats| && LivesIn(s.occupants[o], s.chats[k])
    ensures Inv(Rename(s, o, nick))
    ensures Rename(s, o, nick) == s.(occupants := s.occupants[o := s.occupants[o].(nickname := nick, full := Jid(s.occupants[o].full.room, nick))],
                                     byJid := Rename(s, o, nick).byJid)
  {
    hide RoomsOk;
    hide ListsOk;
    hide OccupantsOk;
    hide IndexOk;
    hide Rename;
    RenameShape(s, o, nick);
    var v := s.occupants[o];
    var w := v.(nickname := nick, full := Jid(v.full.room, nick));
    RenamedLists(s.chats, s.occupants, o, w);
    RenamedOccupants(s.chats, s.occupants, s.nextOccupant, o, w);
  }

  lemma DropInv(s: Muc, k: nat, gone: int)
    requires Inv(s) && k < |s.chats| && (gone in s.occupants ==> LivesIn(s.occupants[gone], s.chats[k]))
    ensures Inv(Drop(s, k, gone))
  {
    if gone in s.occupants {
      var t := Drop(s, k, gone);
      UnlistIndex(s.occupants, s.byJid, gone);
      forall q | q in t.chats[k].participants ensures q in t.occupants && LivesIn(t.occupants[q], t.chats[k]) {
        assert LivesIn(s.occupants[q], s.chats[k]);
      }
      forall q | q in t.occupants && LivesIn(t.occupants[q], t.chats[k]) ensures Mult(t.chats[k].participants, q) == 1 {
        assert LivesIn(s.occupants[q], s.chats[k]);
      }
      ChatChanged(s.chats, s.occupants, t.occupants, k, t.chats[k]);
      forall q | q in t.occupants ensures Housed(t.chats, t.occupants[q]) {
        assert Housed(s.chats, s.occupants[q]);
      }
    }
  }

  // ---- chats go -----------------------------------------------------------------------------------

  lemma {:induction false} UnregisterAllShape(s: Muc, os: seq<int>)
    requires IndexOk(s.occupants, s.byJid)
    ensures var t := UnregisterAll(s, os);
            && t == s.(occupants := t.occupants, byJid := t.byJid) && IndexOk(t.occupants, t.byJid)
            && (forall o :: o in t.occupants <==> o in s.occupants && o !in os)
            && (forall o <- t.occupants :: t.occupants[o] == s.occupants[o])
  {
    if os != [] {
      var rest, o := os[..|os| - 1], os[|os| - 1];
      assert os == rest + [o];
      UnregisterAllShape(s, rest);
      var t := UnregisterAll(s, rest);
      if o in t.occupants {
        UnlistIndex(t.occupants, t.byJid, o);
      }
    }
  }

  lemma DeleteRoomInv(s: Muc, k: nat)
    requires Inv(s) && k < |s.chats|
    ensures Inv(DeleteRoom(s, k))
  {
    hide UnregisterAll;
    var t, os := DeleteRoom(s, k), s.chats[k].participants;
    UnregisterAllShape(s, os);
    assert forall m :: 0 <= m < |t.chats| ==> t.chats[m] == s.chats[if m < k then m else m + 1];
    RoomRemoved(s, k, t.occupants);
  }

  /** No occupant is listed by two chats. */
  lemma Apart(chats: seq<Room>, occupants: map<int, Occupant>, k: nat, m: nat, o: int)
    requires RoomsOk(chats) && ListsOk(chats, occupants) && k < |chats| && m < |chats| && k != m && o in chats[m].participants
    ensures o !in chats[k].participants
  {
    assert LivesIn(occupants[o], chats[m]) && !IsRoom(chats[k], chats[m].account, chats[m].room);
    forall q | q in chats[k].participants ensures q != o {
      assert LivesIn(occupants[q], chats[k]);
    }
  }

  function Kept(k: nat, m: nat): nat { if m < k then m else m + 1 }

  lemma StillApart(all: seq<Room>, k: nat)
    requires RoomsOk(all) && k < |all|
    ensures RoomsOk(all[..k] + all[k + 1..])
  {
    var chats := all[..k] + all[k + 1..];
    assert forall m :: 0 <= m < |chats| ==> chats[m] == all[Kept(k, m)];
    forall i, m | 0 <= i < |chats| && 0 <= m < |chats| && IsRoom(chats[m], chats[i].account, chats[i].room) ensures i == m {
      assert IsRoom(all[Kept(k, m)], all[Kept(k, i)].account, all[Kept(k, i)].room);
    }
  }

  lemma ListsLeft(all: seq<Room>, occupants: map<int, Occupant>, k: nat, left: map<int, Occupant>)
    requires RoomsOk(all) && ListsOk(all, occupants) && k < |all|
    requires forall o :: o in left <==> o in occupants && o !in all[k].participants
    requires forall o <- left :: left[o] == occupants[o]
    ensures ListsOk(all[..k] + all[k + 1..], left)
  {
    var chats := all[..k] + all[k + 1..];
    forall m | 0 <= m < |chats| ensures (forall o <- chats[m].participants :: o in left && LivesIn(left[o], chats[m]))
      ensures chats[m].me == -1 || chats[m].me in chats[m].participants
      ensures forall o :: o in left && LivesIn(left[o], chats[m]) ==> Mult(chats[m].participants, o) == 1
    {
      var i := Kept(k, m);
      assert chats[m] == all[i];
      OneListLeft(all, occupants, k, left, i);
    }
  }

  lemma OneListLeft(all: seq<Room>, occupants: map<int, Occupant>, k: nat, left: map<int, Occupant>, i: nat)
    requires RoomsOk(all) && ListsOk(all, occupants) && k < |all| && i < |all| && i != k
    requires forall o :: o in left <==> o in occupants && o !in all[k].participants
    requires forall o <- left :: left[o] == occupants[o]
    ensures forall o <- all[i].participants :: o in left && LivesIn(left[o], all[i])
    ensures all[i].me == -1 || all[i].me in all[i].participants
    ensures forall o :: o in left && LivesIn(left[o], all[i]) ==> Mult(all[i].participants, o) == 1
  {
    forall o | o in all[i].participants ensures o in left && LivesIn(left[o], all[i]) {
      assert LivesIn(occupants[o], all[i]);
      Apart(all, occupants, k, i, o);
    }
  }

  lemma HousedLeft(s: Muc, k: nat, left: map<int, Occupant>)
    requires Inv(s) && k < |s.chats|
    requires forall o :: o in left <==> o in s.occupants && o !in s.chats[k].participants
    requires forall o <- left :: left[o] == s.occupants[o]
    ensures OccupantsOk(s.chats[..k] + s.chats[k + 1..], left, s.nextOccupant)
  {
    hide RoomsOk;
    hide ListsOk;
    hide IndexOk;
    hide Housed;
    forall o | o in left ensures Housed(s.chats[..k] + s.chats[k + 1..], left[o]) {
      StillHoused(s, k, o);
    }
  }

  lemma RoomRemoved(s: Muc, k: nat, left: map<int, Occupant>)
    requires Inv(s) && k < |s.chats|
    requires forall o :: o in left <==> o in s.occupants && o !in s.chats[k].participants
    requires forall o <- left :: left[o] == s.occupants[o]
    ensures var chats := s.chats[..k] + s.chats[k + 1..];
            RoomsOk(chats) && ListsOk(chats, left) && OccupantsOk(chats, left, s.nextOccupant)
  {
    HousedLeft(s, k, left);
    hide RoomsOk;
    hide ListsOk;
    hide OccupantsOk;
    hide IndexOk;
    StillApart(s.chats, k);
    ListsLeft(s.chats, s.occupants, k, left);
  }

  lemma HousedElsewhere(all: seq<Room>, k: nat, m: nat, v: Occupant)
    requires k < |all| && m < |all| && m != k && LivesIn(v, all[m])
    ensures Housed(all[..k] + all[k + 1..], v)
  {
    assert (all[..k] + all[k + 1..])[if m < k then m else m - 1] == all[m];
  }

  lemma HomeOf(s: Muc, k: nat, o: int) returns (m: nat)
    requires Inv(s) && k < |s.chats| && o in s.occupants && o !in s.chats[k].participants
    ensures m < |s.chats| && m != k && LivesIn(s.occupants[o], s.chats[m])
  {
    hide RoomsOk;
    hide IndexOk;
    assert LivesIn(s.occupants[o], s.chats[k]) ==> Mult(s.chats[k].participants, o) == 1;
    m :| 0 <= m < |s.chats| && LivesIn(s.occupants[o], s.chats[m]);
  }

  lemma StillHoused(s: Muc, k: nat, o: int)
    requires Inv(s) && k < |s.chats| && o in s.occupants && o !in s.chats[k].participants
    ensures Housed(s.chats[..k] + s.chats[k + 1..], s.occupants[o])
  {
    hide Inv;
    hide Housed;
    var m := HomeOf(s, k, o);
    HousedElsewhere(s.chats, k, m, s.occupants[o]);
  }
}
