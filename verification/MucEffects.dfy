/** What every event of a group chat brings about, told from the chats and occupants before and after. */
module MucEffects {
  import opened Lists
  import opened MucModel
  import opened MucInvariant
  import opened MucRuns

  // ---- who has left -----------------------------------------------------------------------------

  /** What is announced when somebody leaves: the end of the room, how they left, and that the chat is left if the
      one thrown out has the own nickname. */
  function LeaveNotes(r: Room, nick: string, p: Presence): seq<Note> {
    (if p.destroyed then [Destroyed(r.id, p.destroyReason, p.alternate), Left(r.id)] else [])
    + [if p.status == 301 then Banned(r.id, nick, p.actor, p.reason)
       else if p.status == 307 then Kicked(r.id, nick, p.actor, p.reason)
       else if p.status == 321 then Removed(r.id, nick, "affiliation_change", p.actor, p.reason)
       else if p.status == 322 then Removed(r.id, nick, "members_only", p.actor, p.reason)
       else ContactLeft(r.id, nick, p.text)]
    + (if nick == r.nickname && (p.status == 301 || p.status == 307 || p.status == 321 || p.status == 322) then [Left(r.id)] else [])
  }

  lemma DepartNotes(s: Muc, k: nat, j: Jid, p: Presence, found: int)
    requires k < |s.chats| && p.status != 303
    ensures Depart(s, k, j, p, found) == s.(log := s.log + LeaveNotes(s.chats[k], j.nick, p))
  {
    var r := s.chats[k];
    var a := if p.destroyed then [Destroyed(r.id, p.destroyReason, p.alternate), Left(r.id)] else [];
    var t := if p.destroyed then Queue(Queue(s, Destroyed(r.id, p.destroyReason, p.alternate)), Left(r.id)) else s;
    assert t.log == s.log + a;
    var notes := LeaveNotes(r, j.nick, p);
    assert Depart(s, k, j, p, found).log == s.log + notes;
  }

  /** The look-up finds an occupant of the account with that address if and only if there is one. */
  lemma FoundIff(s: Muc, k: nat, account: int, j: Jid, o: int)
    requires Inv(s) && k < |s.chats| && IsRoom(s.chats[k], account, j.room) && Found(s, account, j, o)
    ensures o == -1 <==> !Used(s, account, j)
    ensures o != -1 ==> o in s.occupants && s.occupants[o].account == account && s.occupants[o].full == j
    ensures -1 !in s.occupants
  {
    hide Inv;
    NoMinusOne(s);
    if o != -1 {
      FoundLives(s, k, account, j, o);
    } else {
      forall q | q in s.occupants && s.occupants[q].account == account ensures s.occupants[q].full != j {
        Indexed(s, q);
      }
    }
  }

  /** The chat without one of its participants. */
  function WithoutOne(r: Room, o: int): Room {
    r.(participants := Without(r.participants, o), me := if r.me == o then -1 else r.me)
  }

  lemma NobodyDropped(s: Muc, k: nat)
    requires Inv(s) && k < |s.chats|
    ensures WithoutOne(s.chats[k], -1) == s.chats[k] && s.chats[k := s.chats[k]] == s.chats && s.occupants - {-1} == s.occupants
  {
    NoMinusOne(s);
    WithoutMissing(s.chats[k].participants, -1);
  }

  /** An unavailable presence that is no change of nickname removes exactly one occupant with that address, if the
      account has one: from the map, from the list of its chat, and as the own one. How it left is announced. */
  lemma UnavailableEffect(s: Muc, account: int, j: Jid, p: Presence, found: int, gone: int)
    requires Inv(s) && LookedUp(s, account, j, p, found, gone)
    requires !p.error && !p.available && p.status != 303 && FindRoom(s.chats, account, j.room) != -1
    ensures var t, k := PresenceReceived(s, account, j, p, found, gone), FindRoom(s.chats, account, j.room);
            && (gone != -1 <==> Used(s, account, j))
            && (gone != -1 ==> gone in s.occupants && s.occupants[gone].account == account && s.occupants[gone].full == j)
            && t.occupants == s.occupants - {gone}
            && t.chats == s.chats[k := WithoutOne(s.chats[k], gone)]
            && t.log == s.log + LeaveNotes(s.chats[k], j.nick, p)
  {
    hide Inv;
    hide Depart;
    hide LeaveNotes;
    var k := FindRoom(s.chats, account, j.room);
    DepartNotes(s, k, j, p, found);
    DepartInv(s, k, account, j, p, found);
    FoundIff(s, k, account, j, gone) by { SameFound(s, Depart(s, k, j, p, found), account, j, gone); }
    if gone == -1 {
      NobodyDropped(s, k);
    }
  }

  lemma SameFound(s: Muc, t: Muc, account: int, j: Jid, o: int)
    requires Found(t, account, j, o) && t.occupants == s.occupants && t.byJid == s.byJid
    ensures Found(s, account, j, o)
  {
  }

  /** A change of nickname announces it, and the chat's own nickname follows if it was the one changed. Nobody is
      touched if nobody has the address. */
  lemma NickChangeEffect(s: Muc, account: int, j: Jid, p: Presence, found: int, gone: int)
    requires Inv(s) && LookedUp(s, account, j, p, found, gone) && NickChange(p) && FindRoom(s.chats, account, j.room) != -1
    ensures var t, k := PresenceReceived(s, account, j, p, found, gone), FindRoom(s.chats, account, j.room);
            && (found != -1 <==> Used(s, account, j))
            && (found == -1 ==> t.occupants == s.occupants)
            && t.chats == s.chats[k := t.chats[k]] && |t.chats| == |s.chats|
            && t.chats[k] == s.chats[k].(participants := t.chats[k].participants, me := t.chats[k].me,
                                         nickname := if j.nick == s.chats[k].nickname then p.newNick else s.chats[k].nickname)
            && t.log == s.log + (if p.destroyed then [Destroyed(s.chats[k].id, p.destroyReason, p.alternate), Left(s.chats[k].id)] else [])
                              + [NicknameChanged(s.chats[k].id, j.nick, p.newNick)]
  {
    hide Inv;
    var k := FindRoom(s.chats, account, j.room);
    FoundIff(s, k, account, j, found);
    DepartInv(s, k, account, j, p, found);
    var t := Depart(s, k, j, p, found);
    assert s.chats == s.chats[k := s.chats[k]];
    if found == -1 {
      assert t.occupants == s.occupants && t.byJid == s.byJid;
      FoundIff(t, k, account, j, gone);
    }
  }

  // ---- who is there -------------------------------------------------------------------------------

  /** The name of what a presence shows. */
  predicate Shows(p: Presence, status: string) {
    && (p.invisible ==> status == "Invisible")
    && (!p.invisible && p.show == "away" ==> status == "Away")
    && (!p.invisible && p.show == "xa" ==> status == "ExtendedAway")
    && (!p.invisible && p.show == "dnd" ==> status == "DoNotDisturb")
    && (!p.invisible && p.show !in {"away", "xa", "dnd"} ==> status == "Online")
  }

  function CreatedNote(r: Room, p: Presence): seq<Note> { if p.status == 201 then [Created(r.id)] else [] }

  /** The first presence of somebody puts a new occupant, as the presence says, at the end of the chat's list; it is
      the own one if it has the own nickname and that one is not known yet. */
  lemma EnterEffect(s: Muc, account: int, j: Jid, p: Presence, found: int, gone: int)
    requires Inv(s) && LookedUp(s, account, j, p, found, gone)
    requires !p.error && p.available && FindRoom(s.chats, account, j.room) != -1 && !Used(s, account, j)
    ensures var t, k, o := PresenceReceived(s, account, j, p, found, gone), FindRoom(s.chats, account, j.room), s.nextOccupant;
            var r := s.chats[k];
            && o !in s.occupants
            && t.occupants == s.occupants[o := Occupant(account, j, p.realJid, j.nick, p.role, p.affiliation, "", "")]
            && t.chats == s.chats[k := r.(participants := r.participants + [o], me := if j.nick == r.nickname && r.me == -1 then o else r.me)]
            && t.log == s.log + CreatedNote(r, p) + [ContactJoined(r.id, j.nick, p.realJid, p.role, p.affiliation)]
  {
    hide Inv;
    var k := FindRoom(s.chats, account, j.room);
    FoundIff(s, k, account, j, found);
    NextIsNew(s);
    assert s.log + [] == s.log;
  }

  lemma NextIsNew(s: Muc)
    requires Inv(s)
    ensures s.nextOccupant !in s.occupants
  {
  }

  /** Later ones give the occupant the presence's role, affiliation, status and text, announcing what differs;
      nobody else changes. */
  lemma RefreshEffect(s: Muc, account: int, j: Jid, p: Presence, found: int, gone: int)
    requires Inv(s) && LookedUp(s, account, j, p, found, gone)
    requires !p.error && p.available && FindRoom(s.chats, account, j.room) != -1 && Used(s, account, j)
    ensures var t, k := PresenceReceived(s, account, j, p, found, gone), FindRoom(s.chats, account, j.room);
            found in s.occupants && s.occupants[found].account == account && s.occupants[found].full == j && found in t.occupants &&
            var v, w, id := s.occupants[found], t.occupants[found], s.chats[k].id;
            && w == v.(role := p.role, affiliation := p.affiliation, status := w.status, statusText := p.text) && Shows(p, w.status)
            && t == s.(occupants := s.occupants[found := w], log := t.log)
            && t.log == s.log + CreatedNote(s.chats[k], p)
                 + (if p.role == v.role && p.affiliation == v.affiliation then [] else [RoleChanged(id, j.nick, p.role, p.affiliation)])
                 + (if w.status == v.status && p.text == v.statusText then [] else [StatusChanged(id, j.nick, w.status, p.text)])
  {
    hide Inv;
    hide Refresh;
    hide StatusName;
    var k := FindRoom(s.chats, account, j.room);
    FoundIff(s, k, account, j, found);
    assert s.log + [] == s.log;
    RefreshIs(if p.status == 201 then Queue(s, Created(s.chats[k].id)) else s, k, found, j, p);
    StatusShows(p);
  }

  lemma StatusShows(p: Presence)
    ensures Shows(p, StatusName(p))
  {
  }

  lemma RefreshIs(s: Muc, k: nat, o: int, j: Jid, p: Presence)
    requires k < |s.chats| && o in s.occupants
    ensures var t, v, id := Refresh(s, k, o, j, p), s.occupants[o], s.chats[k].id;
            && t == s.(occupants := t.occupants, log := t.log)
            && t.occupants == s.occupants[o := v.(role := p.role, affiliation := p.affiliation, status := StatusName(p), statusText := p.text)]
            && t.log == s.log
                 + (if p.role == v.role && p.affiliation == v.affiliation then [] else [RoleChanged(id, j.nick, p.role, p.affiliation)])
                 + (if StatusName(p) == v.status && p.text == v.statusText then [] else [StatusChanged(id, j.nick, StatusName(p), p.text)])
  {
    hide StatusName;
    var v := s.occupants[o];
    assert s.occupants == s.occupants[o := v];
    assert forall log: seq<Note> :: log + [] == log;
  }

  // ---- errors and unknown rooms --------------------------------------------------------------------

  /** An error is announced for its chat, with a text that depends on the code, and a presence for no chat does
      nothing. */
  lemma OtherPresence(s: Muc, account: int, j: Jid, p: Presence, found: int, gone: int)
    requires p.error || forall i :: 0 <= i < |s.chats| ==> !IsRoom(s.chats[i], account, j.room)
    ensures var t := PresenceReceived(s, account, j, p, found, gone);
            && t == s.(log := t.log)
            && ((forall i :: 0 <= i < |s.chats| ==> !IsRoom(s.chats[i], account, j.room)) ==> t == s)
            && (Inv(s) ==> forall i :: 0 <= i < |s.chats| && IsRoom(s.chats[i], account, j.room) ==>
                  t.log == s.log + [Error(s.chats[i].id, p.code,
                                          if p.code == 409 then "Please choose a different nickname" else "An error occurred")])
  {
    var k := FindRoom(s.chats, account, j.room);
    if k != -1 {
      if Inv(s) {
        forall i | 0 <= i < |s.chats| && IsRoom(s.chats[i], account, j.room) ensures i == k {
          assert IsRoom(s.chats[i], s.chats[k].account, s.chats[k].room);
        }
      }
    }
  }

  // ---- commands and the end of chats ------------------------------------------------------------------

  predicate HasRoom(s: Muc, account: int, room: string) {
    exists i :: 0 <= i < |s.chats| && IsRoom(s.chats[i], account, room)
  }

  /** A chat is made if and only if there is none for the room, its address is one and the request was accepted; it
      comes last, not joined and without occupants. */
  lemma JoinEffect(s: Muc, account: int, room: string, nick: string, history: bool, valid: bool, success: bool)
    ensures var t := Join(s, account, room, nick, history, valid, success);
            if valid && success && !HasRoom(s, account, room) then
              t == s.(chats := s.chats + [Room(s.nextChat, account, room, nick, history, false, [], -1)], nextChat := s.nextChat + 1)
            else t == s
  {
    var k := FindRoom(s.chats, account, room);
    assert k != -1 ==> IsRoom(s.chats[k], account, room);
  }

  /** The chat is marked joined and announced, made first if need be, under the nickname reported. */
  lemma JoinedEffect(s: Muc, account: int, j: Jid)
    ensures var t, k := ChatJoined(s, account, j), FindRoom(s.chats, account, j.room);
            && (k == -1 <==> !HasRoom(s, account, j.room))
            && (k != -1 ==> t == s.(chats := s.chats[k := s.chats[k].(joined := true)],
                                    log := s.log + [Joined(s.chats[k].id, s.chats[k].room, s.chats[k].nickname)]))
            && (k == -1 ==> t == s.(chats := s.chats + [Room(s.nextChat, account, j.room, j.nick, false, true, [], -1)],
                                    nextChat := s.nextChat + 1, log := s.log + [Joined(s.nextChat, j.room, j.nick)]))
  {
    var k := FindRoom(s.chats, account, j.room);
    if k == -1 {
      var r := Room(s.nextChat, account, j.room, j.nick, false, false, [], -1);
      FoundLast(s.chats, account, j.room, r);
      assert (s.chats + [r])[|s.chats| := r.(joined := true)] == s.chats + [r.(joined := true)];
    } else {
      assert IsRoom(s.chats[k], account, j.room);
    }
  }

  /** `t` is `s` without the chat and exactly its participants, and the chat's end is announced. */
  ghost predicate Ended(s: Muc, t: Muc, k: nat)
    requires k < |s.chats|
  {
    && t.chats == s.chats[..k] + s.chats[k + 1..] && t.log == s.log + [Left(s.chats[k].id)]
    && (forall o :: o in t.occupants <==> o in s.occupants && o !in s.chats[k].participants)
    && (forall o <- t.occupants :: t.occupants[o] == s.occupants[o])
  }

  lemma DeletedEffect(s: Muc, k: nat)
    requires Inv(s) && k < |s.chats|
    ensures Ended(s, DeleteRoom(Queue(s, Left(s.chats[k].id)), k), k)
  {
    hide UnregisterAll;
    UnregisterAllShape(Queue(s, Left(s.chats[k].id)), s.chats[k].participants);
  }

  /** Whether the room reports that it was left or the user ends it, the chat is gone with its occupants, and no
      other chat or occupant. An unknown one changes nothing. */
  lemma EndEffect(s: Muc, id: int, account: int, j: Jid)
    requires Inv(s)
    ensures var k := FindId(s.chats, id); if k == -1 then End(s, id) == s else s.chats[k].id == id && Ended(s, End(s, id), k)
    ensures var k := FindRoom(s.chats, account, j.room);
            if k == -1 then ChatLeft(s, account, j) == s else IsRoom(s.chats[k], account, j.room) && Ended(s, ChatLeft(s, account, j), k)
  {
    hide Inv;
    hide Ended;
    hide DeleteRoom;
    var k, m := FindId(s.chats, id), FindRoom(s.chats, account, j.room);
    if k != -1 {
      DeletedEffect(s, k);
    }
    if m != -1 {
      DeletedEffect(s, m);
    }
  }

  /** Joining again under another nickname only changes the chat's own one. */
  lemma RetryEffect(s: Muc, id: int, nick: string)
    ensures var t, k := RetryJoin(s, id, nick), FindId(s.chats, id);
            if k == -1 || nick == "" then t == s else s.chats[k].id == id && t == s.(chats := s.chats[k := s.chats[k].(nickname := nick)])
  {
  }
}
