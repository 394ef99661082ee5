/** The group chats of the bridge as objects. Every method is proved to do to the view of these
    objects what MucModel says. */
module GroupChats {
  import opened Lists
  import M = MucModel
  import I = MucInvariant
  import R = MucRuns

  class GroupChatContact {
    const id: int
    const account: int
    const realJid: string
    var fullJid: M.Jid
    var nickname: string
    var role: string
    var affiliation: string
    var status: string
    var statusText: string

    constructor (id: int, account: int, j: M.Jid, p: M.Presence)
      ensures this.id == id && OccupantOf(this) == M.Occupant(account, j, p.realJid, j.nick, p.role, p.affiliation, "", "")
    {
      this.id, this.account, realJid, fullJid, nickname := id, account, p.realJid, j, j.nick;
      role, affiliation, status, statusText := p.role, p.affiliation, "", "";
    }
  }

  class GroupChat {
    const id: int
    const account: int
    const room: string
    const history: bool
    var nickname: string
    var joined: bool
    var participants: seq<GroupChatContact>
    var me: GroupChatContact?

    constructor (id: int, account: int, room: string, nickname: string, history: bool)
      ensures RoomOf(this) == M.Room(id, account, room, nickname, history, false, [], -1)
      ensures participants == [] && me == null
    {
      this.id, this.account, this.room, this.history := id, account, room, history;
      this.nickname, joined, participants, me := nickname, false, [], null;
    }
  }

  function ContactId(c: GroupChatContact): int { c.id }
  function ContactIds(cs: seq<GroupChatContact>): seq<int> { Each(ContactId, cs) }

  ghost function OccupantOf(c: GroupChatContact): M.Occupant
    reads c
  {
    M.Occupant(c.account, c.fullJid, c.realJid, c.nickname, c.role, c.affiliation, c.status, c.statusText)
  }

  ghost function RoomOf(gc: GroupChat): M.Room
    reads gc
  {
    M.Room(gc.id, gc.account, gc.room, gc.nickname, gc.history, gc.joined, ContactIds(gc.participants), if gc.me == null then -1 else gc.me.id)
  }

  function IdSet(cs: set<GroupChatContact>): set<int> { set c <- cs :: c.id }

  /** Looking an address up leaves an empty set behind; such sets do not count. */
  function IdsByJid(m: map<M.Jid, set<GroupChatContact>>): map<M.Jid, set<int>> {
    map j | j in m && m[j] != {} :: IdSet(m[j])
  }

  lemma IdsEmpty(cs: set<GroupChatContact>)
    ensures IdSet(cs) == {} <==> cs == {}
  {
    if cs != {} {
      assert (forall c: GroupChatContact :: c !in cs) ==> cs == {};
      var c :| c in cs;
      assert c.id in IdSet(cs);
    }
  }

  lemma IdsAt(m: map<M.Jid, set<GroupChatContact>>, j: M.Jid)
    ensures M.At(IdsByJid(m), j) == if j in m then IdSet(m[j]) else {}
  {
    if j in m {
      IdsEmpty(m[j]);
    }
  }

  lemma IdsPut(m: map<M.Jid, set<GroupChatContact>>, j: M.Jid, cs: set<GroupChatContact>)
    ensures IdsByJid(m[j := cs]) == if cs == {} then IdsByJid(m) - {j} else IdsByJid(m)[j := IdSet(cs)]
  {
    var now := IdsByJid(m[j := cs]);
    var want := if cs == {} then IdsByJid(m) - {j} else IdsByJid(m)[j := IdSet(cs)];
    forall i | i in now ensures i in want && now[i] == want[i] {
    }
    forall i | i in want ensures i in now {
    }
  }

  lemma IdsAdd(m: map<M.Jid, set<GroupChatContact>>, j: M.Jid, others: set<GroupChatContact>, c: GroupChatContact)
    requires others == if j in m then m[j] else {}
    ensures IdsByJid(m[j := others + {c}]) == IdsByJid(m)[j := M.At(IdsByJid(m), j) + {c.id}]
  {
    IdsAt(m, j);
    IdsPut(m, j, others + {c});
    assert c in others + {c};
    assert IdSet(others + {c}) == IdSet(others) + {c.id};
    assert M.At(IdsByJid(m), j) == IdSet(others);
  }

  class GroupChats {
    var groupChats: seq<GroupChat>
    var contactsByID: map<int, GroupChatContact>
    var contactsByJID: map<M.Jid, set<GroupChatContact>>
    var idGroupChat: int
    var idContact: int
    var notes: seq<M.Note>

    predicate Known(c: GroupChatContact)
      reads this`contactsByID
    {
      c.id in contactsByID && contactsByID[c.id] == c
    }

    /** The two indexes hold the same kind of objects, filed under their identifiers. */
    ghost predicate IndexWf()
      reads this`contactsByID, this`contactsByJID, this`idContact
    {
      && 0 <= idContact
      && (forall i <- contactsByID :: 0 <= i < idContact && contactsByID[i].id == i)
      && (forall j <- contactsByJID :: forall c <- contactsByJID[j] :: Known(c))
    }

    /** The chats are different objects and list filed occupants only. */
    ghost predicate ChatsWf()
      reads this`groupChats, this`contactsByID, groupChats
    {
      && (forall i, k :: 0 <= i < k < |groupChats| ==> groupChats[i] != groupChats[k])
      && (forall gc <- groupChats :: (forall c <- gc.participants :: Known(c)) && (gc.me != null ==> Known(gc.me)))
    }

    ghost predicate Wf()
      reads this`groupChats, this`contactsByID, this`contactsByJID, this`idContact, groupChats
    {
      IndexWf() && ChatsWf()
    }

    ghost function ChatsView(): (r: seq<M.Room>)
      reads this`groupChats, groupChats
      ensures |r| == |groupChats| && forall k :: 0 <= k < |r| ==> r[k] == RoomOf(groupChats[k])
    {
      var all := groupChats;
      seq(|all|, k requires 0 <= k < |all| reads all => RoomOf(all[k]))
    }

    ghost function OccupantsView(): map<int, M.Occupant>
      reads this`contactsByID, contactsByID.Values
    {
      map i <- contactsByID :: OccupantOf(contactsByID[i])
    }

    ghost function IndexView(): map<M.Jid, set<int>>
      reads this`contactsByJID
    {
      IdsByJid(contactsByJID)
    }

    ghost function View(): M.Muc
      reads this, groupChats, contactsByID.Values
    {
      M.Muc(ChatsView(), OccupantsView(), IndexView(), idGroupChat, idContact, notes)
    }

    constructor ()
      ensures Wf() && View() == M.INITIAL
    {
      groupChats, contactsByID, contactsByJID, idGroupChat, idContact, notes := [], map[], map[], 0, 0, [];
      new;
      assert OccupantsView() == map[] && IndexView() == map[];
    }

    // ---- look-ups -----------------------------------------------------------------------------

    method FindGroupChat(account: int, room: string) returns (gc: GroupChat?, ghost k: int)
      ensures k == M.FindRoom(View().chats, account, room)
      ensures if k == -1 then gc == null else 0 <= k < |groupChats| && gc == groupChats[k]
    {
      hide Wf;
      for n := 0 to |groupChats|
        invariant M.FindRoom(View().chats, account, room) ==
                  var rest := M.FindRoom(View().chats[n..], account, room); if rest == -1 then -1 else rest + n
      {
        assert View().chats[n..][0] == RoomOf(groupChats[n]) && View().chats[n..][1..] == View().chats[n + 1..];
        if groupChats[n].room == room && groupChats[n].account == account {
          return groupChats[n], n;
        }
      }
      return null, -1;
    }

    method FindGroupChatById(id: int) returns (gc: GroupChat?, ghost k: int)
      ensures k == M.FindId(View().chats, id)
      ensures if k == -1 then gc == null else 0 <= k < |groupChats| && gc == groupChats[k]
    {
      for n := 0 to |groupChats|
        invariant M.FindId(View().chats, id) == var rest := M.FindId(View().chats[n..], id); if rest == -1 then -1 else rest + n
      {
        assert View().chats[n..][0] == RoomOf(groupChats[n]) && View().chats[n..][1..] == View().chats[n + 1..];
        if groupChats[n].id == id {
          return groupChats[n], n;
        }
      }
      return null, -1;
    }

    /** Any of the account's occupants listed under the address. */
    method FindContact(account: int, j: M.Jid) returns (c: GroupChatContact?, ghost found: int)
      requires IndexWf()
      modifies this`contactsByJID
      ensures IndexWf() && (old(ChatsWf()) ==> ChatsWf()) && View() == old(View())
      ensures M.Found(View(), account, j, found)
      ensures if c == null then found == -1 else Known(c) && found == c.id && c.account == account
    {
      if j !in contactsByJID {
        contactsByJID := contactsByJID[j := {}];
      }
      var all := contactsByJID[j];
      IdsPut(old(contactsByJID), j, {});
      assert IndexView() == old(IndexView());
      IdsAt(contactsByJID, j);
      var rest := all;
      while rest != {}
        invariant rest <= all && forall d <- all - rest :: d.account != account
        invariant IndexWf()
      {
        var d :| d in rest;
        assert Known(d) && View().occupants[d.id] == OccupantOf(d);
        if d.account == account {
          return d, d.id;
        }
        rest := rest - {d};
      }
      return null, -1;
    }

    // ---- one object at a time -----------------------------------------------------------------

    method Notify(n: M.Note)
      modifies this`notes
      ensures View() == M.Queue(old(View()), n)
    {
      hide ChatsView;
      hide OccupantsView;
      hide IndexView;
      notes := notes + [n];
    }

    /** Only the chat at place `k` was written to, and only in its changing fields. */
    twostate lemma ChatWritten(k: nat)
      requires old(ChatsWf()) && k < |groupChats| && unchanged(this)
      requires forall gc <- groupChats :: gc != groupChats[k] ==> unchanged(gc)
      requires forall i <- contactsByID :: unchanged(contactsByID[i])
      requires (forall c <- groupChats[k].participants :: Known(c)) && (groupChats[k].me != null ==> Known(groupChats[k].me))
      ensures ChatsWf() && View() == M.SetRoom(old(View()), k, RoomOf(groupChats[k]))
    {
      forall m | 0 <= m < |groupChats| && m != k ensures RoomOf(groupChats[m]) == old(RoomOf(groupChats[m])) {
        assert groupChats[m] in groupChats && groupChats[m] != groupChats[k];
      }
      assert ChatsView() == old(ChatsView())[k := RoomOf(groupChats[k])];
      assert OccupantsView() == old(OccupantsView()) by {
        forall i | i in contactsByID ensures OccupantOf(contactsByID[i]) == old(OccupantOf(contactsByID[i])) {
          assert unchanged(contactsByID[i]);
        }
      }
    }

    method AddNewGroupChat(account: int, room: string, nickname: string, history: bool) returns (gc: GroupChat)
      requires Wf()
      modifies this`groupChats, this`idGroupChat
      ensures Wf() && groupChats == old(groupChats) + [gc] && fresh(gc)
      ensures View() == M.NewRoom(old(View()), account, room, nickname, history)
    {
      gc := new GroupChat(idGroupChat, account, room, nickname, history);
      idGroupChat := idGroupChat + 1;
      groupChats := groupChats + [gc];
      assert ChatsView() == old(ChatsView()) + [RoomOf(gc)];
    }

    method Register(c: GroupChatContact)
      requires IndexWf() && 0 <= c.id < idContact && c.id !in contactsByID
      modifies this`contactsByID, this`contactsByJID
      ensures IndexWf() && contactsByID == old(contactsByID)[c.id := c]
      ensures View() == M.Register(old(View()), c.id, OccupantOf(c))
    {
      hide IdSet;
      hide IdsByJid;
      var others := if c.fullJid in contactsByJID then contactsByJID[c.fullJid] else {};
      contactsByID := contactsByID[c.id := c];
      contactsByJID := contactsByJID[c.fullJid := others + {c}];
      assert OccupantsView() == old(OccupantsView())[c.id := OccupantOf(c)];
      IdsAdd(old(contactsByJID), c.fullJid, others, c);
    }

    method Unregister(c: GroupChatContact)
      requires IndexWf() && Known(c) && forall j <- contactsByJID :: j != c.fullJid ==> c !in contactsByJID[j]
      modifies this`contactsByID, this`contactsByJID
      ensures IndexWf() && contactsByID == old(contactsByID) - {c.id}
      ensures c.id in old(View()).occupants && View() == M.Unregister(old(View()), c.id)
    {
      hide IdsByJid;
      var others := if c.fullJid in contactsByJID then contactsByJID[c.fullJid] else {};
      assert IdSet(others - {c}) == IdSet(others) - {c.id};
      hide IdSet;
      IdsAt(contactsByJID, c.fullJid);
      IdsEmpty(others - {c});
      IdsPut(contactsByJID, c.fullJid, others - {c});
      contactsByID := contactsByID - {c.id};
      contactsByJID := contactsByJID[c.fullJid := others - {c}];
      assert OccupantsView() == old(OccupantsView()) - {c.id};
    }

    // ---- occupants ----------------------------------------------------------------------------

    twostate lemma ChatsKept()
      requires unchanged(this) && forall gc <- groupChats :: unchanged(gc)
      ensures ChatsView() == old(ChatsView())
    {
      forall k | 0 <= k < |groupChats| ensures RoomOf(groupChats[k]) == old(RoomOf(groupChats[k])) {
        assert groupChats[k] in groupChats;
      }
    }

    /** Only the occupant `c` was written to. */
    twostate lemma ContactWritten(c: GroupChatContact)
      requires Known(c) && IndexWf() && unchanged(this) && forall gc <- groupChats :: unchanged(gc)
      requires forall i <- contactsByID :: contactsByID[i] != c ==> unchanged(contactsByID[i])
      ensures View() == old(View()).(occupants := old(View()).occupants[c.id := OccupantOf(c)])
    {
      ChatsKept();
      forall i | i in contactsByID && i != c.id ensures OccupantOf(contactsByID[i]) == old(OccupantOf(contactsByID[i])) {
        assert unchanged(contactsByID[i]);
      }
      assert OccupantsView() == old(OccupantsView())[c.id := OccupantOf(c)];
    }

    lemma ContactSeen(c: GroupChatContact)
      requires Known(c)
      ensures c.id in View().occupants && View().occupants[c.id] == OccupantOf(c)
    {
    }

    method NewContact(account: int, j: M.Jid, p: M.Presence) returns (c: GroupChatContact)
      requires Wf()
      modifies this`contactsByID, this`contactsByJID, this`idContact
      ensures Wf() && fresh(c) && Known(c) && OccupantOf(c) == M.Occupant(account, j, p.realJid, j.nick, p.role, p.affiliation, "", "")
      ensures c.id == old(idContact)
      ensures View() == M.Register(old(View()).(nextOccupant := c.id + 1), c.id, OccupantOf(c))
    {
      hide ChatsWf;
      hide ChatsView;
      hide OccupantsView;
      hide IdsByJid;
      c := new GroupChatContact(idContact, account, j, p);
      idContact := idContact + 1;
      Register(c);
      NewlyFiled(c);
    }

    /** Filing a new occupant leaves the chats as they are. */
    twostate lemma NewlyFiled(new c: GroupChatContact)
      requires old(Wf()) && groupChats == old(groupChats) && (forall gc <- groupChats :: unchanged(gc))
      requires c.id == old(idContact) && contactsByID == old(contactsByID)[c.id := c]
      ensures ChatsWf() && ChatsView() == old(ChatsView())
    {
      forall k | 0 <= k < |groupChats| ensures RoomOf(groupChats[k]) == old(RoomOf(groupChats[k])) {
        assert groupChats[k] in groupChats;
      }
    }

    /** The chat at place `k` as seen. */
    lemma ChatSeen(k: nat)
      requires k < |groupChats|
      ensures |View().chats| == |groupChats| && View().chats[k] == RoomOf(groupChats[k])
      ensures View().nextOccupant == idContact && View().nextChat == idGroupChat
    {
    }

    method Enter(gc: GroupChat, ghost k: nat, j: M.Jid, p: M.Presence)
      requires Wf() && k < |groupChats| && groupChats[k] == gc
      modifies this`contactsByID, this`contactsByJID, this`idContact, this`notes, gc`me, gc`participants
      ensures Wf() && k < |old(View()).chats| && View() == M.Enter(old(View()), k, j, p)
    {
      hide View;
      hide IndexWf;
      hide ChatsWf;
      ChatSeen(k);
      var c := NewContact(gc.account, j, p);
      ChatSeen(k);
      AddParticipant(gc, k, c);
      Notify(M.ContactJoined(gc.id, j.nick, c.realJid, c.role, c.affiliation));
    }

    /** An occupant of the chat's own nickname is the user, unless there is one. */
    method AddParticipant(gc: GroupChat, ghost k: nat, c: GroupChatContact)
      requires Wf() && k < |groupChats| && groupChats[k] == gc && Known(c)
      modifies gc`me, gc`participants
      ensures Wf() && k < |old(View()).chats|
      ensures var r := old(View()).chats[k];
              View() == M.SetRoom(old(View()), k, r.(participants := r.participants + [c.id],
                                                     me := if c.nickname == r.nickname && r.me == -1 then c.id else r.me))
    {
      hide View;
      hide IndexWf;
      ChatSeen(k);
      MeSeen(gc);
      EachNext(ContactId, gc.participants, c);
      if c.nickname == gc.nickname && gc.me == null {
        gc.me := c;
      }
      gc.participants := gc.participants + [c];
      ChatWritten(k);
    }

    lemma MeSeen(gc: GroupChat)
      requires Wf() && gc in groupChats
      ensures gc.me != null ==> gc.me.id != -1
    {
    }

    method Refresh(gc: GroupChat, ghost k: nat, c: GroupChatContact, j: M.Jid, p: M.Presence)
      requires Wf() && k < |groupChats| && groupChats[k] == gc && Known(c)
      modifies this`notes, c`role, c`affiliation, c`status, c`statusText
      ensures Wf() && k < |old(View()).chats| && c.id in old(View()).occupants && View() == M.Refresh(old(View()), k, c.id, j, p)
    {
      hide View;
      ChatSeen(k);
      ContactSeen(c);
      RefreshRole(gc, c, j, p);
      var status := StatusName(p);
      ContactSeen(c);
      if status != c.status || p.text != c.statusText {
        SetStatus(c, status, p.text);
        Notify(M.StatusChanged(gc.id, j.nick, c.status, c.statusText));
      }
    }

    method RefreshRole(gc: GroupChat, c: GroupChatContact, j: M.Jid, p: M.Presence)
      requires Wf() && Known(c)
      modifies this`notes, c`role, c`affiliation
      ensures Wf() && c.id in old(View()).occupants
      ensures var s := old(View()); var v := s.occupants[c.id];
              View() == if p.role == v.role && p.affiliation == v.affiliation then s
                        else M.Queue(s.(occupants := s.occupants[c.id := v.(role := p.role, affiliation := p.affiliation)]),
                                     M.RoleChanged(gc.id, j.nick, p.role, p.affiliation))
    {
      hide View;
      ContactSeen(c);
      if p.role != c.role || p.affiliation != c.affiliation {
        c.role := p.role;
        c.affiliation := p.affiliation;
        ContactWritten(c);
        Notify(M.RoleChanged(gc.id, j.nick, c.role, c.affiliation));
      }
    }

    static method StatusName(p: M.Presence) returns (status: string)
      ensures status == M.StatusName(p)
    {
      status := "Online";
      if p.invisible {
        status := "Invisible";
      } else if p.show == "away" {
        status := "Away";
      } else if p.show == "xa" {
        status := "ExtendedAway";
      } else if p.show == "dnd" {
        status := "DoNotDisturb";
      }
    }

    method SetStatus(c: GroupChatContact, status: string, text: string)
      requires Wf() && Known(c)
      modifies c`status, c`statusText
      ensures Wf() && c.id in old(View()).occupants && c.status == status && c.statusText == text
      ensures var s := old(View());
              View() == s.(occupants := s.occupants[c.id := s.occupants[c.id].(status := status, statusText := text)])
    {
      hide View;
      ContactSeen(c);
      c.status := status;
      c.statusText := text;
      ContactWritten(c);
    }

    /** An occupant is indexed under its own address only. */
    lemma IndexedOnce(c: GroupChatContact)
      requires IndexWf() && I.IndexOk(View().occupants, View().byJid) && Known(c)
      ensures forall j <- contactsByJID :: j != c.fullJid ==> c !in contactsByJID[j]
    {
      forall j | j in contactsByJID && c in contactsByJID[j] ensures j == c.fullJid {
        assert c.id in View().byJid[j];
      }
    }

    /** Files the occupant under its new nickname. */
    method Rename(c: GroupChatContact, nick: string)
      requires Wf() && I.Inv(View()) && Known(c)
      modifies this`contactsByID, this`contactsByJID, c`nickname, c`fullJid
      ensures Wf() && contactsByID == old(contactsByID)
      ensures c.id in old(View()).occupants && View() == M.Rename(old(View()), c.id, nick)
    {
      hide View;
      hide I.Inv;
      hide M.Register;
      hide M.Unregister;
      hide I.IndexOk;
      MucIndex(View());
      IndexedOnce(c);
      ContactSeen(c);
      Unregister(c);
      label A:
      c.nickname := nick;
      c.fullJid := M.Jid(c.fullJid.room, nick);
      UnfiledWritten@A(c);
      Register(c);
    }

    /** Writing to an occupant that is not filed changes nothing seen. */
    twostate lemma UnfiledWritten(c: GroupChatContact)
      requires IndexWf() && c.id !in contactsByID && unchanged(this) && forall gc <- groupChats :: unchanged(gc)
      requires forall i <- contactsByID :: contactsByID[i] != c ==> unchanged(contactsByID[i])
      ensures View() == old(View())
    {
      ChatsKept();
      forall i | i in contactsByID ensures OccupantOf(contactsByID[i]) == old(OccupantOf(contactsByID[i])) {
        assert contactsByID[i].id == i;
        assert unchanged(contactsByID[i]);
      }
      assert OccupantsView() == old(OccupantsView());
    }

    method Drop(gc: GroupChat, ghost k: nat, c: GroupChatContact)
      requires Wf() && I.Inv(View()) && k < |groupChats| && groupChats[k] == gc && Known(c) && c in gc.participants
      modifies this`contactsByID, this`contactsByJID, gc`participants, gc`me
      ensures Wf() && k < |old(View()).chats| && View() == M.Drop(old(View()), k, c.id)
    {
      hide View;
      hide I.Inv;
      hide M.Unregister;
      hide I.IndexOk;
      hide Without;
      MucIndex(View());
      IndexedOnce(c);
      ContactSeen(c);
      ChatSeen(k);
      Strike(gc, k, c);
      ContactSeen(c);
      Unregister(c);
    }

    method Strike(gc: GroupChat, ghost k: nat, c: GroupChatContact)
      requires Wf() && I.Inv(View()) && k < |groupChats| && groupChats[k] == gc && Known(c) && c in gc.participants
      modifies gc`participants, gc`me
      ensures Wf() && forall h <- groupChats :: c !in h.participants && h.me != c
      ensures k < |old(View()).chats|
      ensures var r := old(View()).chats[k];
              View() == M.SetRoom(old(View()), k, r.(participants := Without(r.participants, c.id), me := if r.me == c.id then -1 else r.me))
    {
      hide View;
      hide I.Inv;
      hide IndexWf;
      ChatSeen(k);
      NoNegative(c);
      ListedOnce(k, c);
      EachWithout(ContactId, gc.participants, c);
      gc.participants := Without(gc.participants, c);
      if gc.me == c {
        gc.me := null;
      }
      ChatWritten(k);
    }

    lemma NoNegative(c: GroupChatContact)
      requires IndexWf() && Known(c)
      ensures 0 <= c.id
    {
    }

    /** No other chat lists the occupant or takes it for the own one. */
    lemma ListedOnce(k: nat, c: GroupChatContact)
      requires Wf() && I.Inv(View()) && k < |groupChats| && Known(c) && c in groupChats[k].participants
      ensures forall gc <- groupChats :: gc != groupChats[k] ==> c !in gc.participants && gc.me != c
      ensures groupChats[k].me != null && groupChats[k].me.id == c.id ==> groupChats[k].me == c
      ensures forall d <- groupChats[k].participants :: d.id == c.id ==> d == c
    {
      hide I.Inv;
      hide View;
      forall m | 0 <= m < |groupChats| && m != k ensures c !in groupChats[m].participants && groupChats[m].me != c {
        ListedElsewhere(k, m, c);
      }
    }

    lemma ListedElsewhere(k: nat, m: nat, c: GroupChatContact)
      requires Wf() && I.Inv(View()) && k < |groupChats| && m < |groupChats| && m != k && c in groupChats[k].participants
      ensures c !in groupChats[m].participants && groupChats[m].me != c
    {
      hide Wf;
      hide View;
      var s := View();
      ChatSeen(k);
      ChatSeen(m);
      Member(groupChats[k].participants, c);
      MeListed(s, m);
      I.Apart(s.chats, s.occupants, m, k, c.id) by { Lists(s); }
      if c in groupChats[m].participants {
        Member(groupChats[m].participants, c);
      }
    }

    static lemma Lists(s: M.Muc)
      requires I.Inv(s)
      ensures I.RoomsOk(s.chats) && I.ListsOk(s.chats, s.occupants)
    {
    }

    static lemma MucIndex(s: M.Muc)
      requires I.Inv(s)
      ensures I.IndexOk(s.occupants, s.byJid)
    {
    }

    static lemma MeListed(s: M.Muc, m: nat)
      requires I.Inv(s) && m < |s.chats|
      ensures s.chats[m].me == -1 || s.chats[m].me in s.chats[m].participants
    {
    }

    lemma Member(cs: seq<GroupChatContact>, c: GroupChatContact)
      requires c in cs
      ensures c.id in ContactIds(cs)
    {
      var i :| 0 <= i < |cs| && cs[i] == c;
      assert ContactIds(cs)[i] == c.id;
    }

    // ---- chats go -----------------------------------------------------------------------------

    /** Deletes the chat with its occupants. */
    method CleanupAndDelete(gc: GroupChat, ghost k: nat)
      requires Wf() && I.Inv(View()) && k < |groupChats| && groupChats[k] == gc
      modifies this`groupChats, this`contactsByID, this`contactsByJID
      ensures Wf() && k < |old(View()).chats| && View() == M.DeleteRoom(old(View()), k)
    {
      hide View;
      hide I.Inv;
      hide M.UnregisterAll;
      ChatSeen(k);
      ghost var v, ids, known := View(), ContactIds(gc.participants), contactsByID;
      KeysSeen();
      Others(k);
      MucIndex(v);
      I.UnregisterAllShape(v, ids);
      UnregisterAll(gc, k);
      KeysSeen();
      OthersKnown(k, ids, known);
      RemoveChat(gc, k);
    }

    /** The occupants of other chats have other identifiers. */
    lemma Others(k: nat)
      requires Wf() && I.Inv(View()) && k < |groupChats|
      ensures forall h <- groupChats :: h != groupChats[k] ==>
                (forall c <- h.participants :: Known(c) && c.id !in ContactIds(groupChats[k].participants))
                && (h.me != null ==> Known(h.me) && h.me.id !in ContactIds(groupChats[k].participants))
    {
      hide View;
      hide I.Inv;
      var s := View();
      forall m | 0 <= m < |groupChats| && m != k
        ensures forall c <- groupChats[m].participants :: c.id !in ContactIds(groupChats[k].participants)
        ensures groupChats[m].me != null ==> groupChats[m].me.id !in ContactIds(groupChats[k].participants)
      {
        ChatSeen(k);
        ChatSeen(m);
        Lists(s);
        MeListed(s, m);
        if groupChats[m].me != null {
          NoNegative(groupChats[m].me);
          I.Apart(s.chats, s.occupants, k, m, s.chats[m].me);
        }
        forall c | c in groupChats[m].participants ensures c.id !in ContactIds(groupChats[k].participants) {
          Member(groupChats[m].participants, c);
          I.Apart(s.chats, s.occupants, k, m, c.id);
        }
      }
    }

    lemma OthersKnown(k: nat, ids: seq<int>, known: map<int, GroupChatContact>)
      requires k < |groupChats| && forall i <- known :: i !in ids ==> i in contactsByID && contactsByID[i] == known[i]
      requires forall h <- groupChats :: h != groupChats[k] ==>
                 (forall c <- h.participants :: c.id in known && known[c.id] == c && c.id !in ids)
                 && (h.me != null ==> h.me.id in known && known[h.me.id] == h.me && h.me.id !in ids)
      ensures forall h <- groupChats :: h != groupChats[k] ==> (forall c <- h.participants :: Known(c)) && (h.me != null ==> Known(h.me))
    {
    }

    method RemoveChat(gc: GroupChat, ghost k: nat)
      requires IndexWf() && k < |groupChats| && groupChats[k] == gc
      requires forall i, m :: 0 <= i < m < |groupChats| ==> groupChats[i] != groupChats[m]
      requires forall h <- groupChats :: h != gc ==> (forall c <- h.participants :: Known(c)) && (h.me != null ==> Known(h.me))
      modifies this`groupChats
      ensures Wf() && k < |old(View()).chats|
      ensures View() == old(View()).(chats := old(View()).chats[..k] + old(View()).chats[k + 1..])
    {
      hide IndexWf;
      hide Without;
      CutOut(groupChats, k);
      groupChats := Without(groupChats, gc);
      ChatCut(k);
    }

    /** One chat was cut out of the list. */
    twostate lemma ChatCut(k: nat)
      requires k < |old(groupChats)| && groupChats == old(groupChats)[..k] + old(groupChats)[k + 1..]
      requires unchanged(`contactsByID) && unchanged(`contactsByJID) && unchanged(`idGroupChat) && unchanged(`idContact) && unchanged(`notes)
      requires (forall gc <- old(groupChats) :: unchanged(gc)) && forall i <- contactsByID :: unchanged(contactsByID[i])
      requires forall i, m :: 0 <= i < m < |old(groupChats)| ==> old(groupChats)[i] != old(groupChats)[m]
      requires forall h <- old(groupChats) :: h != old(groupChats)[k] ==> (forall c <- h.participants :: Known(c)) && (h.me != null ==> Known(h.me))
      ensures ChatsWf() && View() == old(View()).(chats := old(View()).chats[..k] + old(View()).chats[k + 1..])
    {
      forall m | 0 <= m < |groupChats|
        ensures groupChats[m] == old(groupChats)[I.Kept(k, m)] && RoomOf(groupChats[m]) == old(ChatsView())[I.Kept(k, m)]
      {
        assert groupChats[m] in old(groupChats);
      }
      assert ChatsView() == old(ChatsView())[..k] + old(ChatsView())[k + 1..];
      forall i | i in contactsByID ensures OccupantOf(contactsByID[i]) == old(OccupantOf(contactsByID[i])) {
        assert unchanged(contactsByID[i]);
      }
      assert OccupantsView() == old(OccupantsView());
    }

    method UnregisterAll(gc: GroupChat, ghost k: nat)
      requires Wf() && I.Inv(View()) && k < |groupChats| && groupChats[k] == gc
      modifies this`contactsByID, this`contactsByJID
      ensures IndexWf() && View() == M.UnregisterAll(old(View()), ContactIds(gc.participants))
      ensures forall i <- contactsByID :: i in old(contactsByID) && contactsByID[i] == old(contactsByID)[i]
    {
      hide View;
      hide I.Inv;
      hide IndexWf;
      ghost var v, ids := View(), ContactIds(gc.participants);
      assert ids[..0] == [];
      EachOnce(v, k) by { ChatSeen(k); }
      ChatSeen(k);
      MucIndex(v);
      for n := 0 to |gc.participants|
        invariant IndexWf() && View() == M.UnregisterAll(v, ids[..n])
        invariant forall i <- contactsByID :: i in old(contactsByID) && contactsByID[i] == old(contactsByID)[i]
      {
        assert ids[..n + 1][..n] == ids[..n];
        I.UnregisterAllShape(v, ids[..n]);
        var c := gc.participants[n];
        assert c in gc.participants;
        assert c.id in v.occupants && c.id in View().occupants;
        KeysSeen();
        IndexedOnce(c);
        Unregister(c);
      }
      assert ids[..|gc.participants|] == ids;
    }

    lemma KeysSeen()
      ensures forall i :: i in View().occupants <==> i in contactsByID
    {
    }

    static lemma EachOnce(s: M.Muc, k: nat)
      requires I.Inv(s) && k < |s.chats|
      ensures forall n :: 0 <= n < |s.chats[k].participants| ==>
                s.chats[k].participants[n] in s.occupants && s.chats[k].participants[n] !in s.chats[k].participants[..n]
    {
      var ids := s.chats[k].participants;
      forall n | 0 <= n < |ids| ensures ids[n] in s.occupants && ids[n] !in ids[..n] {
        assert ids[n] in s.chats[k].participants;
        assert I.Mult(s.chats[k].participants, ids[n]) == 1;
        assert ids == ids[..n] + [ids[n]] + ids[n + 1..];
      }
    }

    // ---- commands and events --------------------------------------------------------------------

    method GroupChatJoin(account: int, room: string, nick: string, history: bool, valid: bool, success: bool) returns (id: int)
      requires Wf()
      modifies this`groupChats, this`idGroupChat
      ensures Wf() && View() == M.Join(old(View()), account, room, nick, history, valid, success)
      ensures id == if View() == old(View()) then -1 else old(View()).nextChat
    {
      hide View;
      var gc, k := FindGroupChat(account, room);
      id := -1;
      if gc == null && valid && success {
        Ids();
        gc := AddNewGroupChat(account, room, nick, history);
        id := gc.id;
        Ids();
        ChatSeen(|groupChats| - 1);
      }
    }

    lemma Ids()
      ensures View().nextChat == idGroupChat && |View().chats| == |groupChats|
    {
    }

    /** Writes the chat's own nickname. */
    method SetNickname(gc: GroupChat, ghost k: nat, nick: string)
      requires Wf() && k < |groupChats| && groupChats[k] == gc
      modifies gc`nickname
      ensures Wf() && k < |old(View()).chats| && View() == M.SetRoom(old(View()), k, old(View()).chats[k].(nickname := nick))
      ensures RoomOf(gc) == old(RoomOf(gc)).(nickname := nick)
    {
      hide View;
      ChatSeen(k);
      gc.nickname := nick;
      ChatWritten(k);
    }

    method GroupChatRetryJoin(id: int, nick: string)
      requires Wf()
      modifies groupChats
      ensures Wf() && View() == M.RetryJoin(old(View()), id, nick)
    {
      hide View;
      hide Wf;
      var gc, k := FindGroupChatById(id);
      if gc != null && nick != "" {
        ChatSeen(k);
        SetNickname(gc, k, nick);
      }
    }

    method GroupChatEnd(id: int)
      requires Wf() && I.Inv(View())
      modifies this
      ensures Wf() && View() == M.End(old(View()), id)
    {
      hide View;
      hide I.Inv;
      hide M.DeleteRoom;
      var gc, k := FindGroupChatById(id);
      if gc != null {
        ChatSeen(k);
        Notify(M.Left(gc.id));
        I.SameListsInv(old(View()), View());
        CleanupAndDelete(gc, k);
      }
    }

    method ClientGroupChatJoined(account: int, j: M.Jid)
      requires Wf()
      modifies this, groupChats
      ensures Wf() && View() == M.ChatJoined(old(View()), account, j)
    {
      hide View;
      hide IndexWf;
      hide ChatsWf;
      var gc, k := FindGroupChat(account, j.room);
      if gc == null {
        ghost var v := View();
        Ids();
        gc := AddNewGroupChat(account, j.room, j.nick, false);
        Ids();
        k := |groupChats| - 1;
        I.FoundLast(v.chats, account, j.room, M.Room(v.nextChat, account, j.room, j.nick, false, false, [], -1));
      }
      ChatSeen(k);
      SetJoined(gc, k);
      Notify(M.Joined(gc.id, gc.room, gc.nickname));
    }

    method SetJoined(gc: GroupChat, ghost k: nat)
      requires Wf() && k < |groupChats| && groupChats[k] == gc
      modifies gc`joined
      ensures Wf() && k < |old(View()).chats| && View() == M.SetRoom(old(View()), k, old(View()).chats[k].(joined := true))
    {
      hide View;
      ChatSeen(k);
      gc.joined := true;
      ChatWritten(k);
    }

    method ClientGroupChatLeft(account: int, j: M.Jid)
      requires Wf() && I.Inv(View())
      modifies this
      ensures Wf() && View() == M.ChatLeft(old(View()), account, j)
    {
      hide View;
      hide I.Inv;
      hide M.DeleteRoom;
      var gc, k := FindGroupChat(account, j.room);
      if gc != null {
        ChatSeen(k);
        Notify(M.Left(gc.id));
        I.SameListsInv(old(View()), View());
        CleanupAndDelete(gc, k);
      }
    }

    method ClientGroupChatError(account: int, j: M.Jid, code: int, text: string)
      requires Wf()
      modifies this`notes
      ensures Wf() && View() == M.ChatError(old(View()), account, j, code, text)
    {
      hide View;
      hide Wf;
      var gc, k := FindGroupChat(account, j.room);
      if gc != null {
        ChatSeen(k);
        Notify(M.Error(gc.id, code, text));
      }
    }

    /** `found` and `gone` are what the two look-ups of the address came upon. */
    method ClientGroupChatPresence(account: int, j: M.Jid, p: M.Presence) returns (ghost found: int, ghost gone: int)
      requires Wf() && I.Inv(View())
      modifies this, groupChats, contactsByID.Values
      ensures Wf() && M.LookedUp(old(View()), account, j, p, found, gone)
      ensures View() == M.PresenceReceived(old(View()), account, j, p, found, gone)
    {
      hide View;
      hide Wf;
      hide I.Inv;
      hide M.FindRoom;
      hide M.Available;
      hide M.Depart;
      hide M.Drop;
      hide M.Found;
      found, gone := -1, -1;
      if p.error {
        ClientGroupChatError(account, j, p.code, if p.code == 409 then "Please choose a different nickname" else "An error occurred");
        return;
      }
      var gc, k := FindGroupChat(account, j.room);
      if gc != null {
        ChatSeen(k);
        if p.available {
          found := Arrive(gc, k, account, j, p);
        } else {
          found := Depart(gc, k, account, j, p);
          R.DepartInv(old(View()), k, account, j, p, found);
          gone := DropLeaver(gc, k, account, j);
        }
      }
    }

    method Arrive(gc: GroupChat, ghost k: nat, account: int, j: M.Jid, p: M.Presence) returns (ghost found: int)
      requires Wf() && k < |groupChats| && groupChats[k] == gc
      modifies this, gc, contactsByID.Values
      ensures Wf() && k < |old(View()).chats| && M.Found(old(View()), account, j, found)
      ensures View() == M.Available(old(View()), k, j, p, found)
    {
      hide View;
      hide M.Found;
      hide M.Enter;
      hide M.Refresh;
      ChatSeen(k);
      if p.status == 201 {
        Notify(M.Created(gc.id));
      }
      ghost var t := View();
      var c: GroupChatContact?;
      c, found := FindContact(account, j);
      SameFound(old(View()), t, account, j, found);
      ChatSeen(k);
      if c == null {
        Enter(gc, k, j, p);
      } else {
        ContactSeen(c);
        NoNegative(c);
        Refresh(gc, k, c, j, p);
      }
    }

    /** Whether an occupant is found depends on the indexes only. */
    static lemma SameFound(s: M.Muc, t: M.Muc, account: int, j: M.Jid, o: int)
      requires t.occupants == s.occupants && t.byJid == s.byJid
      ensures M.Found(s, account, j, o) == M.Found(t, account, j, o)
    {
    }

    method GroupChatLeave(gc: GroupChat)
      modifies this`notes
      ensures View() == M.Queue(old(View()), M.Left(gc.id))
    {
      Notify(M.Left(gc.id));
    }

    /** Notifies what happened, and files the occupant anew if it changed its nickname. */
    method Depart(gc: GroupChat, ghost k: nat, account: int, j: M.Jid, p: M.Presence) returns (ghost found: int)
      requires Wf() && I.Inv(View()) && k < |groupChats| && groupChats[k] == gc
      modifies this`notes, this`contactsByID, this`contactsByJID, gc`nickname, contactsByID.Values
      ensures Wf() && k < |old(View()).chats| && (p.status == 303 ==> M.Found(old(View()), account, j, found))
      ensures View() == M.Depart(old(View()), k, j, p, found)
    {
      hide View;
      hide IndexWf;
      hide ChatsWf;
      hide I.Inv;
      hide Wf;
      hide M.Found;
      hide M.Rename;
      ChatSeen(k);
      found := -1;
      if p.destroyed {
        Notify(M.Destroyed(gc.id, p.destroyReason, p.alternate));
        GroupChatLeave(gc);
      }
      ghost var t := View();
      match p.status {
        case 301 => Notify(M.Banned(gc.id, j.nick, p.actor, p.reason));
        case 303 =>
          SameFoundAll(old(View()), t, account, j);
          I.SameListsInv(old(View()), t);
          found := ChangeNickname(gc, k, account, j, p.newNick);
        case 307 => Notify(M.Kicked(gc.id, j.nick, p.actor, p.reason));
        case 321 => Notify(M.Removed(gc.id, j.nick, "affiliation_change", p.actor, p.reason));
        case 322 => Notify(M.Removed(gc.id, j.nick, "members_only", p.actor, p.reason));
        case _ => Notify(M.ContactLeft(gc.id, j.nick, p.text));
      }
      if p.status in {301, 307, 321, 322} && j.nick == gc.nickname {
        GroupChatLeave(gc);
      }
    }

    static lemma SameFoundAll(s: M.Muc, t: M.Muc, account: int, j: M.Jid)
      requires t.occupants == s.occupants && t.byJid == s.byJid
      ensures forall o :: M.Found(s, account, j, o) == M.Found(t, account, j, o)
    {
    }

    method ChangeNickname(gc: GroupChat, ghost k: nat, account: int, j: M.Jid, newNick: string) returns (ghost found: int)
      requires Wf() && I.Inv(View()) && k < |groupChats| && groupChats[k] == gc
      modifies this`notes, this`contactsByID, this`contactsByJID, gc`nickname, contactsByID.Values
      ensures Wf() && k < |old(View()).chats| && M.Found(old(View()), account, j, found)
      ensures var s := old(View());
              var u := M.Queue(s, M.NicknameChanged(gc.id, j.nick, newNick));
              var w := if found in u.occupants then M.Rename(u, found, newNick) else u;
              k < |w.chats| && View() == if j.nick == w.chats[k].nickname then M.SetRoom(w, k, w.chats[k].(nickname := newNick)) else w
    {
      hide View;
      hide I.Inv;
      hide M.Found;
      hide M.Rename;
      ChatSeen(k);
      Notify(M.NicknameChanged(gc.id, j.nick, newNick));
      ghost var u := View();
      I.SameListsInv(old(View()), u);
      var c: GroupChatContact?;
      c, found := FindContact(account, j);
      SameFound(old(View()), u, account, j, found);
      if c != null {
        ContactSeen(c);
        Rename(c, newNick);
        ChatSeen(k);
      } else {
        NoMinusOne(u);
      }
      if j.nick == gc.nickname {
        ChatSeen(k);
        SetNickname(gc, k, newNick);
      }
    }

    static lemma NoMinusOne(s: M.Muc)
      requires I.Inv(s)
      ensures -1 !in s.occupants
    {
    }

    method DropLeaver(gc: GroupChat, ghost k: nat, account: int, j: M.Jid) returns (ghost gone: int)
      requires Wf() && I.Inv(View()) && k < |groupChats| && groupChats[k] == gc && gc.account == account && gc.room == j.room
      modifies this`contactsByID, this`contactsByJID, gc`participants, gc`me
      ensures Wf() && k < |old(View()).chats| && M.Found(old(View()), account, j, gone)
      ensures View() == M.Drop(old(View()), k, gone)
    {
      hide View;
      hide I.Inv;
      hide M.Found;
      ChatSeen(k);
      NoMinusOne(View());
      var c: GroupChatContact?;
      c, gone := FindContact(account, j);
      if c != null {
        ContactSeen(c);
        R.FoundLives(View(), k, account, j, gone);
        ListedHere(k, c);
        Drop(gc, k, c);
      }
    }

    lemma ListedHere(k: nat, c: GroupChatContact)
      requires Wf() && I.Inv(View()) && k < |groupChats| && Known(c) && I.LivesIn(OccupantOf(c), RoomOf(groupChats[k]))
      ensures c in groupChats[k].participants
    {
      var s := View();
      ContactSeen(c);
      assert I.Mult(s.chats[k].participants, c.id) == 1;
      assert c.id in s.chats[k].participants;
      var i :| 0 <= i < |s.chats[k].participants| && s.chats[k].participants[i] == c.id;
      assert groupChats[k].participants[i] in groupChats[k].participants;
    }
  }

  /** Removing the one occurrence of an element cuts it out. */
  lemma {:induction false} CutOut<T>(s: seq<T>, k: nat)
    requires k < |s| && forall i, m :: 0 <= i < m < |s| ==> s[i] != s[m]
    ensures Without(s, s[k]) == s[..k] + s[k + 1..]
  {
    if k == 0 {
      WithoutMissing(s[1..], s[0]);
    } else {
      CutOut(s[1..], k - 1);
      assert s[..k] + s[k + 1..] == [s[0]] + (s[1..][..k - 1] + s[1..][k..]);
    }
  }
}
