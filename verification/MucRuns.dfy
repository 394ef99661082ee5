/** Runs of the group chats, and what a change of nickname does to an occupant. */
module MucRuns {
  import opened Lists
  import opened MucModel
  import opened MucInvariant

  datatype Event =
    | JoinRoom(account: int, room: string, nick: string, history: bool, valid: bool, success: bool)
    | Retry(id: int, nick: string)
    | EndChat(id: int)
    | JoinedRoom(account: int, j: Jid)
    | LeftRoom(account: int, j: Jid)
    | RoomError(account: int, j: Jid, code: int, text: string)
    | RoomPresence(account: int, j: Jid, p: Presence, found: int, gone: int)

  predicate Legal(s: Muc, ev: Event) {
    ev.RoomPresence? ==> LookedUp(s, ev.account, ev.j, ev.p, ev.found, ev.gone)
  }

  function Step(s: Muc, ev: Event): Muc {
    match ev
    case JoinRoom(account, room, nick, history, valid, success) => Join(s, account, room, nick, history, valid, success)
    case Retry(id, nick) => RetryJoin(s, id, nick)
    case EndChat(id) => End(s, id)
    case JoinedRoom(account, j) => ChatJoined(s, account, j)
    case LeftRoom(account, j) => ChatLeft(s, account, j)
    case RoomError(account, j, code, text) => ChatError(s, account, j, code, text)
    case RoomPresence(account, j, p, found, gone) => PresenceReceived(s, account, j, p, found, gone)
  }

  /** An occupant found under an address lives in the room of that address. */
  lemma FoundLives(s: Muc, k: nat, account: int, j: Jid, o: int)
    requires Inv(s) && k < |s.chats| && IsRoom(s.chats[k], account, j.room) && Found(s, account, j, o) && o != -1
    ensures o in s.occupants && s.occupants[o].full == j && LivesIn(s.occupants[o], s.chats[k])
  {
  }

  /** Nothing but notifications and the chat's own nickname changes before an occupant is deleted,
      unless the nickname of the occupant does. */
  lemma DepartShape(s: Muc, k: nat, j: Jid, p: Presence, found: int)
    requires k < |s.chats|
    ensures var t := Depart(s, k, j, p, found);
            var u := if p.status == 303 && found in s.occupants then Rename(s, found, p.newNick) else s;
            && t == u.(chats := t.chats, log := t.log)
            && t.chats == (if p.status == 303 && j.nick == s.chats[k].nickname then s.chats[k := s.chats[k].(nickname := p.newNick)] else s.chats)
  {
  }

  lemma DepartInv(s: Muc, k: nat, account: int, j: Jid, p: Presence, found: int)
    requires Inv(s) && k < |s.chats| && IsRoom(s.chats[k], account, j.room) && (p.status == 303 ==> Found(s, account, j, found))
    ensures Inv(Depart(s, k, j, p, found)) && IsRoom(Depart(s, k, j, p, found).chats[k], account, j.room)
  {
    hide Inv;
    DepartShape(s, k, j, p, found);
    var u := if p.status == 303 && found in s.occupants then Rename(s, found, p.newNick) else s;
    if p.status == 303 && found in s.occupants {
      NoMinusOne(s);
      FoundLives(s, k, account, j, found);
      RenameInv(s, k, found, p.newNick);
    }
    SameListsInv(u, Depart(s, k, j, p, found));
  }

  lemma NoMinusOne(s: Muc)
    requires Inv(s)
    ensures -1 !in s.occupants
  {
  }

  lemma PresenceInv(s: Muc, account: int, j: Jid, p: Presence, found: int, gone: int)
    requires Inv(s) && LookedUp(s, account, j, p, found, gone)
    ensures Inv(PresenceReceived(s, account, j, p, found, gone))
  {
    hide Inv;
    var k := FindRoom(s.chats, account, j.room);
    if p.error {
      if k != -1 {
        SameListsInv(s, ChatError(s, account, j, p.code, ErrorText(p.code)));
      }
    } else if k != -1 {
      if p.available {
        AvailableInv(s, k, j, p, found);
      } else {
        DepartInv(s, k, account, j, p, found);
        var t := Depart(s, k, j, p, found);
        NoMinusOne(t);
        if gone != -1 {
          FoundLives(t, k, account, j, gone);
        }
        DropInv(t, k, gone);
      }
    }
  }

  lemma LeaveInv(s: Muc, k: nat, n: Note)
    requires Inv(s) && k < |s.chats|
    ensures Inv(DeleteRoom(Queue(s, n), k))
  {
    hide Inv;
    hide DeleteRoom;
    SameListsInv(s, Queue(s, n));
    DeleteRoomInv(Queue(s, n), k);
  }

  lemma JoinedInv(s: Muc, account: int, j: Jid)
    requires Inv(s)
    ensures Inv(ChatJoined(s, account, j))
  {
    hide Inv;
    hide FindRoom;
    if FindRoom(s.chats, account, j.room) == -1 {
      NewRoomInv(s, account, j.room, j.nick, false);
    }
    var t := if FindRoom(s.chats, account, j.room) != -1 then s else NewRoom(s, account, j.room, j.nick, false);
    if FindRoom(t.chats, account, j.room) != -1 {
      SameListsInv(t, ChatJoined(s, account, j));
    }
  }

  lemma CommandInv(s: Muc, ev: Event)
    requires Inv(s) && (ev.JoinRoom? || ev.Retry? || ev.EndChat?)
    ensures Legal(s, ev) && Inv(Step(s, ev))
  {
    hide Inv;
    hide FindRoom;
    hide FindId;
    hide DeleteRoom;
    match ev
    case JoinRoom(account, room, nick, history, valid, success) =>
      if FindRoom(s.chats, account, room) == -1 {
        NewRoomInv(s, account, room, nick, history);
      }
    case Retry(id, nick) =>
      if FindId(s.chats, id) != -1 {
        SameListsInv(s, RetryJoin(s, id, nick));
      }
    case EndChat(id) =>
      if FindId(s.chats, id) != -1 {
        LeaveInv(s, FindId(s.chats, id), Left(id));
      }
  }

  lemma StepInv(s: Muc, ev: Event)
    requires Inv(s) && Legal(s, ev)
    ensures Inv(Step(s, ev))
  {
    hide Inv;
    hide FindRoom;
    hide DeleteRoom;
    hide ChatJoined;
    hide PresenceReceived;
    if ev.JoinRoom? || ev.Retry? || ev.EndChat? {
      CommandInv(s, ev);
    } else {
      match ev
      case JoinedRoom(account, j) => JoinedInv(s, account, j);
      case LeftRoom(account, j) =>
        var k := FindRoom(s.chats, account, j.room);
        if k != -1 {
          LeaveInv(s, k, Left(s.chats[k].id));
        }
      case RoomError(account, j, code, text) =>
        if FindRoom(s.chats, account, j.room) != -1 {
          SameListsInv(s, ChatError(s, account, j, code, text));
        }
      case RoomPresence(account, j, p, found, gone) => PresenceInv(s, account, j, p, found, gone);
    }
  }

  ghost predicate IsRun(states: seq<Muc>, events: seq<Event>) {
    && |states| == |events| + 1 && states[0] == INITIAL
    && forall i :: 0 <= i < |events| ==> Legal(states[i], events[i]) && states[i + 1] == Step(states[i], events[i])
  }

  lemma {:induction false} RunInv(states: seq<Muc>, events: seq<Event>)
    requires IsRun(states, events)
    ensures Inv(states[|events|])
  {
    hide Inv;
    if events == [] {
      InitialInv();
    } else {
      var n := |events| - 1;
      RunInv(states[..n + 1], events[..n]);
      StepInv(states[n], events[n]);
    }
  }

  predicate ListedIn(s: Muc, k: int, o: int) { 0 <= k < |s.chats| && o in s.chats[k].participants }

  /** In every reachable state no two chats share account and room; the occupants listed by the chats,
      those known by identifier and those indexed by address are the same; each is listed by the one
      chat of its account and room, once, and indexed under its present address only. */
  lemma SameOccupants(states: seq<Muc>, events: seq<Event>, o: int)
    requires IsRun(states, events)
    ensures var s := states[|events|];
            && (forall i, k :: 0 <= i < k < |s.chats| ==> !IsRoom(s.chats[k], s.chats[i].account, s.chats[i].room))
            && (o in s.occupants <==> exists k :: ListedIn(s, k, o))
            && (forall k :: ListedIn(s, k, o) ==> Mult(s.chats[k].participants, o) == 1 && LivesIn(s.occupants[o], s.chats[k]))
            && (forall i, k :: ListedIn(s, i, o) && ListedIn(s, k, o) ==> i == k)
            && (o in s.occupants ==> o in At(s.byJid, s.occupants[o].full))
            && (forall j :: o in At(s.byJid, j) ==> o in s.occupants && s.occupants[o].full == j)
            && (forall k :: 0 <= k < |s.chats| ==> s.chats[k].me == -1 || s.chats[k].me in s.chats[k].participants)
  {
    RunInv(states, events);
    var s := states[|events|];
    if o in s.occupants {
      var k :| 0 <= k < |s.chats| && LivesIn(s.occupants[o], s.chats[k]);
      assert Mult(s.chats[k].participants, o) == 1;
      assert ListedIn(s, k, o);
    }
    forall i, k | ListedIn(s, i, o) && ListedIn(s, k, o) ensures i == k {
      assert LivesIn(s.occupants[o], s.chats[i]) && LivesIn(s.occupants[o], s.chats[k]);
      assert IsRoom(s.chats[k], s.chats[i].account, s.chats[i].room);
    }
  }

  // ---- nicknames ----------------------------------------------------------------------------------

  predicate Twins(v: Occupant, w: Occupant) { v.account == w.account && v.full == w.full }

  /** No two occupants share account and address. */
  ghost predicate Distinct(occupants: map<int, Occupant>) {
    forall o, q :: o in occupants && q in occupants && Twins(occupants[o], occupants[q]) ==> o == q
  }

  predicate NickChange(p: Presence) { !p.error && !p.available && p.status == 303 }

  predicate Used(s: Muc, account: int, j: Jid) {
    exists q :: q in s.occupants && s.occupants[q].account == account && s.occupants[q].full == j
  }

  /** No other occupant of the account has the address. */
  predicate Alone(s: Muc, account: int, j: Jid, o: int) {
    forall q :: q in s.occupants && s.occupants[q].account == account && s.occupants[q].full == j ==> q == o
  }

  function Renicked(v: Occupant, nick: string): Occupant { v.(nickname := nick, full := Jid(v.full.room, nick)) }

  /** A change of nickname to another one keeps the occupant under the new one. It keeps it, with its place in
      the list and its role as the own one, and touches no one else, if and only if the nickname really
      changes and nobody else has the old address. Otherwise the step that deletes leavers finds and deletes
      an occupant filed under that address: the one that changed nothing, or another one. */
  lemma NickChangeKeepsOccupant(s: Muc, account: int, j: Jid, p: Presence, found: int, gone: int)
    requires Inv(s) && LookedUp(s, account, j, p, found, gone) && NickChange(p)
    requires FindRoom(s.chats, account, j.room) != -1 && found != -1
    ensures found in s.occupants && s.occupants[found].full == j
    ensures var t, k := PresenceReceived(s, account, j, p, found, gone), FindRoom(s.chats, account, j.room);
            var renamed := s.occupants[found := Renicked(s.occupants[found], p.newNick)];
            && |t.chats| == |s.chats|
            && (p.newNick != j.nick ==> found in t.occupants && t.occupants[found] == renamed[found])
            && (t.occupants == renamed <==> p.newNick != j.nick && Alone(s, account, j, found))
            && (p.newNick != j.nick && Alone(s, account, j, found) ==>
                  t.chats[k].participants == s.chats[k].participants && t.chats[k].me == s.chats[k].me)
            && (!(p.newNick != j.nick && Alone(s, account, j, found)) ==>
                  && gone in s.occupants && s.occupants[gone].account == account && s.occupants[gone].full == j
                  && (p.newNick != j.nick ==> gone != found) && t.occupants == renamed - {gone}
                  && t.chats[k].participants == Without(s.chats[k].participants, gone)
                  && t.chats[k].me == if s.chats[k].me == gone then -1 else s.chats[k].me)
  {
    hide Inv;
    var k := FindRoom(s.chats, account, j.room);
    FoundLives(s, k, account, j, found);
    DepartShape(s, k, j, p, found);
    RenameInv(s, k, found, p.newNick);
    DepartInv(s, k, account, j, p, found);
    var t := Depart(s, k, j, p, found);
    assert t.occupants == s.occupants[found := Renicked(s.occupants[found], p.newNick)];
    GoneIs(s, t, k, account, j, p.newNick, found, gone);
  }

  /** What the look-up at the end finds. */
  lemma GoneIs(s: Muc, t: Muc, k: nat, account: int, j: Jid, nick: string, found: int, gone: int)
    requires Inv(t) && k < |t.chats| && IsRoom(t.chats[k], account, j.room) && Found(t, account, j, gone)
    requires found in s.occupants && s.occupants[found].account == account && s.occupants[found].full == j
    requires t.occupants == s.occupants[found := Renicked(s.occupants[found], nick)]
    ensures gone == -1 <==> nick != j.nick && Alone(s, account, j, found)
    ensures gone != -1 ==> gone in t.occupants && gone in s.occupants && s.occupants[gone].account == account && s.occupants[gone].full == j
    ensures gone != -1 && nick != j.nick ==> gone != found
    ensures -1 !in t.occupants
  {
    hide Inv;
    NoMinusOne(t);
    if gone != -1 {
      FoundLives(t, k, account, j, gone);
    } else {
      forall q | q in t.occupants && t.occupants[q].account == account ensures t.occupants[q].full != j {
        Indexed(t, q);
      }
      assert t.occupants[found].full == Jid(j.room, nick) && j == Jid(j.room, j.nick);
      assert forall q :: q in s.occupants && q != found ==> q in t.occupants && t.occupants[q] == s.occupants[q];
    }
  }

  /** While addresses are unique, only the nickname matters. */
  lemma DistinctNickChange(s: Muc, account: int, j: Jid, p: Presence, found: int, gone: int)
    requires Inv(s) && Distinct(s.occupants) && LookedUp(s, account, j, p, found, gone) && NickChange(p)
    requires FindRoom(s.chats, account, j.room) != -1 && found != -1
    ensures found in s.occupants && s.occupants[found].full == j
    ensures PresenceReceived(s, account, j, p, found, gone).occupants ==
            if p.newNick != j.nick then s.occupants[found := Renicked(s.occupants[found], p.newNick)] else s.occupants - {found}
  {
    hide Inv;
    hide PresenceReceived;
    NickChangeKeepsOccupant(s, account, j, p, found, gone);
    FoundLives(s, FindRoom(s.chats, account, j.room), account, j, found);
    assert forall q :: q in s.occupants && s.occupants[q].account == account && s.occupants[q].full == j ==> Twins(s.occupants[q], s.occupants[found]);
    assert s.occupants[found := s.occupants[found]] - {found} == s.occupants - {found};
    assert p.newNick == j.nick ==> Renicked(s.occupants[found], p.newNick) == s.occupants[found].(nickname := p.newNick);
  }

  lemma Indexed(s: Muc, o: int)
    requires Inv(s) && o in s.occupants
    ensures o in At(s.byJid, s.occupants[o].full)
  {
  }

  /** The event gives an occupant an address that another one has. */
  ghost predicate Collides(s: Muc, ev: Event) {
    && ev.RoomPresence? && NickChange(ev.p) && FindRoom(s.chats, ev.account, ev.j.room) != -1
    && ev.found != -1 && ev.p.newNick != ev.j.nick && Used(s, ev.account, Jid(ev.j.room, ev.p.newNick))
  }

  lemma FewerDistinct(a: map<int, Occupant>, b: map<int, Occupant>)
    requires Distinct(a) && forall o <- b :: o in a && Twins(a[o], b[o])
    ensures Distinct(b)
  {
    forall o, q | o in b && q in b && Twins(b[o], b[q]) ensures o == q {
      assert Twins(a[o], a[q]);
    }
  }

  lemma EnterDistinct(s: Muc, account: int, k: nat, j: Jid, p: Presence)
    requires Inv(s) && Distinct(s.occupants) && k < |s.chats| && IsRoom(s.chats[k], account, j.room) && Found(s, account, j, -1)
    ensures Distinct(Enter(s, k, j, p).occupants)
  {
    var t := Enter(s, k, j, p);
    forall o | o in s.occupants && s.occupants[o].full == j ensures s.occupants[o].account != account {
      assert o in At(s.byJid, j);
    }
    forall o, q | o in t.occupants && q in t.occupants && Twins(t.occupants[o], t.occupants[q]) ensures o == q {
      if o in s.occupants && q in s.occupants {
        assert Twins(s.occupants[o], s.occupants[q]);
      }
    }
  }

  lemma RenamedDistinct(s: Muc, account: int, j: Jid, p: Presence, found: int, gone: int)
    requires Inv(s) && Distinct(s.occupants) && LookedUp(s, account, j, p, found, gone) && NickChange(p)
    requires FindRoom(s.chats, account, j.room) != -1 && found != -1
    ensures Distinct(PresenceReceived(s, account, j, p, found, gone).occupants)
            <==> p.newNick == j.nick || !Used(s, account, Jid(j.room, p.newNick))
  {
    hide Inv;
    hide PresenceReceived;
    DistinctNickChange(s, account, j, p, found, gone);
    FoundLives(s, FindRoom(s.chats, account, j.room), account, j, found);
    var t := PresenceReceived(s, account, j, p, found, gone);
    if p.newNick == j.nick {
      FewerDistinct(s.occupants, t.occupants);
    } else if Used(s, account, Jid(j.room, p.newNick)) {
      var q :| q in s.occupants && s.occupants[q].account == account && s.occupants[q].full == Jid(j.room, p.newNick);
      assert Twins(t.occupants[q], t.occupants[found]);
    } else {
      forall o, q | o in t.occupants && q in t.occupants && Twins(t.occupants[o], t.occupants[q]) ensures o == q {
        if o != found && q != found {
          assert Twins(s.occupants[o], s.occupants[q]);
        }
      }
    }
  }

  /** From a state where addresses are unique, an event leads to one where they are not if and only if
      it is a change to a nickname already in use. */
  lemma StepDistinct(s: Muc, ev: Event)
    requires Inv(s) && Distinct(s.occupants) && Legal(s, ev)
    ensures Distinct(Step(s, ev).occupants) <==> !Collides(s, ev)
  {
    hide Inv;
    match ev
    case JoinRoom(account, room, nick, history, valid, success) =>
    case Retry(id, nick) =>
    case EndChat(id) =>
      var k := FindId(s.chats, id);
      if k != -1 {
        IndexHolds(s);
        UnregisterAllShape(Queue(s, Left(id)), s.chats[k].participants);
        FewerDistinct(s.occupants, Step(s, ev).occupants);
      }
    case JoinedRoom(account, j) =>
    case LeftRoom(account, j) =>
      var k := FindRoom(s.chats, account, j.room);
      if k != -1 {
        IndexHolds(s);
        UnregisterAllShape(Queue(s, Left(s.chats[k].id)), s.chats[k].participants);
        FewerDistinct(s.occupants, Step(s, ev).occupants);
      }
    case RoomError(account, j, code, text) =>
    case RoomPresence(account, j, p, found, gone) =>
      if FindRoom(s.chats, account, j.room) != -1 && !p.error {
        PresenceDistinct(s, account, j, p, found, gone);
      }
  }

  lemma IndexHolds(s: Muc)
    requires Inv(s)
    ensures IndexOk(s.occupants, s.byJid)
  {
  }

  lemma PresenceDistinct(s: Muc, account: int, j: Jid, p: Presence, found: int, gone: int)
    requires Inv(s) && Distinct(s.occupants) && LookedUp(s, account, j, p, found, gone) && !p.error
    requires FindRoom(s.chats, account, j.room) != -1
    ensures Distinct(PresenceReceived(s, account, j, p, found, gone).occupants) <==> !Collides(s, RoomPresence(account, j, p, found, gone))
  {
    hide Inv;
    var k := FindRoom(s.chats, account, j.room);
    NoMinusOne(s);
    if p.available {
      var t := if p.status == 201 then Queue(s, Created(s.chats[k].id)) else s;
      if found == -1 {
        SameListsInv(s, t);
        EnterDistinct(t, account, k, j, p);
      } else {
        FewerDistinct(s.occupants, Available(s, k, j, p, found).occupants);
      }
    } else if p.status == 303 && found != -1 {
      RenamedDistinct(s, account, j, p, found, gone);
    } else {
      DepartShape(s, k, j, p, found);
      FewerDistinct(s.occupants, PresenceReceived(s, account, j, p, found, gone).occupants);
    }
  }
}
