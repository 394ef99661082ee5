/** Every roster operation keeps the graph invariant and the agreement with the GUI's copy. */
module RosterOps {
  import opened Lists
  import opened RosterModel
  import opened RosterInvariant
  import opened RosterMirror

  // ---- changing groups ------------------------------------------------------------------------

  /** Contact `c` got groups `gs`, entries got other texts, and then `n` told the receiver so. */
  lemma RegroupedAgrees(s: Roster, t: Roster, c: int, gs: seq<int>, n: Note, x: int)
    requires Agrees(Replay(s.log), s, x) && c in s.contacts && t.log == s.log
    requires t.contacts == s.contacts[c := s.contacts[c].(groups := gs)]
    requires forall g :: g in s.groups <==> g in t.groups
    requires forall g <- s.groups :: t.groups[g].kind == s.groups[g].kind && t.groups[g].name == s.groups[g].name
    requires SamePlaces(s.entries, t.entries) && SameStatus(s.entries, t.entries)
    requires var m := Replay(s.log);
             c in m.contacts && Apply(m, n) == m.(contacts := m.contacts[c := m.contacts[c].(groups := Once(gs))])
    ensures Agrees(Replay(Queue(t, n).log), Queue(t, n), x)
  {
    var m := Replay(s.log);
    ReplayNext(s.log, n);
    hide Replay;
    hide Apply;
    hide Once;
    SameLines(m.entries, s.entries, t.entries, x);
    hide EntriesAgree;
    hide SamePlaces;
    hide SameStatus;
    assert CardOf(m.contacts[c], s.contacts[c]);
    assert ContactsAgree(Apply(m, n).contacts, t.contacts);
  }

  lemma NoteChange(s: Roster, c: int, from: int, to: int, x: int)
    requires Agrees(Replay(s.log), s, x) && c in s.contacts && from in s.groups && to in s.groups
    ensures var m := Replay(s.log);
            c in m.contacts && Apply(m, ContactGroupChanged(c, from, to)) ==
            m.(contacts := m.contacts[c := m.contacts[c].(groups := Once(Without(s.contacts[c].groups, from) + [to]))])
  {
    var gs := s.contacts[c].groups;
    assert CardOf(Replay(s.log).contacts[c], s.contacts[c]);
    OnceWithout(gs, from);
    OnceNext(Without(gs, from), to);
  }

  lemma NoteAdded(s: Roster, c: int, g: int, x: int)
    requires Agrees(Replay(s.log), s, x) && c in s.contacts && g in s.groups
    ensures var m := Replay(s.log);
            c in m.contacts && Apply(m, ContactGroupAdded(c, g)) ==
            m.(contacts := m.contacts[c := m.contacts[c].(groups := Once(s.contacts[c].groups + [g]))])
  {
    assert CardOf(Replay(s.log).contacts[c], s.contacts[c]);
    OnceNext(s.contacts[c].groups, g);
  }

  lemma NoteDropped(s: Roster, c: int, g: int, x: int)
    requires Agrees(Replay(s.log), s, x) && c in s.contacts && g in s.groups
    ensures var m := Replay(s.log);
            c in m.contacts && Apply(m, ContactGroupRemoved(c, g)) ==
            m.(contacts := m.contacts[c := m.contacts[c].(groups := Once(Without(s.contacts[c].groups, g)))])
  {
    assert CardOf(Replay(s.log).contacts[c], s.contacts[c]);
    OnceWithout(s.contacts[c].groups, g);
  }

  lemma QueueInv(s: Roster, n: Note)
    requires Inv(s)
    ensures Inv(Queue(s, n))
  {
  }

  lemma ContactAddGroupSound(s: Roster, c: int, g: int, x: int)
    requires SoundBut(s, x)
    ensures SoundBut(ContactAddGroup(s, c, g), x)
  {
    hide InvBut;
    hide Agrees;
    var t := ContactAddGroup(s, c, g);
    if t != s {
      var gs, es := s.contacts[c].groups, s.contacts[c].entries;
      var u, d := Link(s, c, g), AddName(s.groups[g].name);
      KnownGroup(s, g, -1);
      LinkInv(s, c, g, -1);
      CommitEntriesInv(u, es, d, -1);
      NoteAdded(s, c, g, x);
      RegroupedAgrees(s, CommitEntries(u, es, d), c, gs + [g], ContactGroupAdded(c, g), x);
      QueueInv(CommitEntries(u, es, d), ContactGroupAdded(c, g));
    }
  }

  lemma InvButFilled(s: Roster, c: int)
    requires InvBut(s, c) && (c in s.contacts ==> s.contacts[c].groups != [])
    ensures Inv(s)
  {
  }

  lemma General(s: Roster, x: int)
    requires InvBut(s, x)
    ensures FindGroup(s.order, s.groups, NoGroup, GENERAL) == 0 && 0 in s.groups
    ensures FindGroup(s.order, s.groups, NotInList, NOT_IN_LIST) == 1 && 1 in s.groups
  {
    BuiltIns(s);
  }

  /** Contact `c` left group `g`, entries got other texts, and the receiver is told. */
  lemma UngroupedAgrees(s: Roster, v: Roster, c: int, g: int)
    requires Agrees(Replay(s.log), s, -1) && c in s.contacts && g in s.groups && 0 in s.groups
    requires SameShape(Unlink(s, c, g), v) && v.log == s.log && SameStatus(s.entries, v.entries)
    ensures var t := Queue(v, ContactGroupRemoved(c, g)); Agrees(Replay(t.log), t, -1)
  {
    hide Agrees;
    hide Replay;
    hide Apply;
    hide Once;
    hide Without;
    NoteDropped(s, c, g, -1);
    RegroupedAgrees(s, v, c, Without(s.contacts[c].groups, g), ContactGroupRemoved(c, g), -1);
  }

  lemma LastGroupAgrees(s: Roster, v: Roster, c: int, g: int)
    requires Agrees(Replay(s.log), s, -1) && c in s.contacts && g in s.groups && 0 in s.groups
    requires SameShape(Unlink(s, c, g), v) && v.log == s.log && SameStatus(s.entries, v.entries)
    ensures c in v.contacts && 0 in v.groups
    ensures var t := Queue(Link(v, c, 0), ContactGroupChanged(c, g, 0)); Agrees(Replay(t.log), t, -1)
  {
    hide Agrees;
    hide Replay;
    hide Apply;
    hide Once;
    hide Without;
    NoteChange(s, c, g, 0, -1);
    var u := Link(v, c, 0);
    assert u.entries == v.entries;
    RegroupedAgrees(s, u, c, Without(s.contacts[c].groups, g) + [0], ContactGroupChanged(c, g, 0), -1);
  }

  lemma ContactRemoveGroupSound(s: Roster, c: int, g: int)
    requires Sound(s)
    ensures Sound(ContactRemoveGroup(s, c, g))
  {
    hide InvBut;
    hide Agrees;
    var t := ContactRemoveGroup(s, c, g);
    if t != s {
      var gs, es := Without(s.contacts[c].groups, g), s.contacts[c].entries;
      var u, d := Unlink(s, c, g), SwapNames(NamedIfUser(s.groups[g]), None);
      var v := CommitEntries(u, es, d);
      UnlinkInv(s, c, g);
      CommitEntriesInv(u, es, d, c);
      General(v, c);
      if gs == [] {
        LastGroupAgrees(s, v, c, g);
        LinkInv(v, c, 0, c);
        QueueInv(Link(v, c, 0), ContactGroupChanged(c, g, 0));
      } else {
        UngroupedAgrees(s, v, c, g);
        InvButFilled(v, c);
        QueueInv(v, ContactGroupRemoved(c, g));
      }
    }
  }

  lemma TransferAgrees(s: Roster, v: Roster, c: int, from: int, to: int)
    requires Agrees(Replay(s.log), s, -1) && c in s.contacts && from in s.groups && to in s.groups
    requires SameShape(Link(Unlink(s, c, from), c, to), v) && v.log == s.log && SameStatus(s.entries, v.entries)
    ensures var t := Queue(v, ContactGroupChanged(c, from, to)); Agrees(Replay(t.log), t, -1)
  {
    hide Agrees;
    hide Replay;
    hide Apply;
    hide Once;
    hide Without;
    NoteChange(s, c, from, to, -1);
    RegroupedAgrees(s, v, c, Without(s.contacts[c].groups, from) + [to], ContactGroupChanged(c, from, to), -1);
  }

  lemma ContactChangeGroupSound(s: Roster, c: int, from: int, to: int)
    requires Sound(s)
    ensures Sound(ContactChangeGroup(s, c, from, to))
  {
    hide InvBut;
    hide Agrees;
    if TransferAllowed(s, c, from, to) {
      var es := s.contacts[c].entries;
      var d := SwapNames(NamedIfUser(s.groups[from]), NamedIfUser(s.groups[to]));
      var u := Link(Unlink(s, c, from), c, to);
      KnownGroup(s, to, -1);
      UnlinkInv(s, c, from);
      LinkInv(Unlink(s, c, from), c, to, c);
      CommitEntriesInv(u, es, d, -1);
      TransferAgrees(s, CommitEntries(u, es, d), c, from, to);
      QueueInv(CommitEntries(u, es, d), ContactGroupChanged(c, from, to));
    }
  }

  // ---- groups ---------------------------------------------------------------------------------

  /** Taking a contact out of a user group takes it off the group's list and touches no other name there. */
  lemma RemoveGroupEffect(s: Roster, c: int, g: int)
    requires Inv(s) && g in s.groups && g > 1
    ensures var t := ContactRemoveGroup(s, c, g);
            g in t.groups && t.groups[g].contacts == Without(s.groups[g].contacts, c)
  {
    if c in s.contacts && g in s.contacts[c].groups {
      var u := Unlink(s, c, g);
      var d := SwapNames(NamedIfUser(s.groups[g]), None);
      UnlinkInv(s, c, g);
      CommitEntriesInv(u, s.contacts[c].entries, d, c);
      BuiltIns(CommitEntries(u, s.contacts[c].entries, d));
    } else {
      if c in s.contacts {
        assert Mult(s.groups[g].contacts, c) == Mult(s.contacts[c].groups, g);
      }
      assert c !in s.groups[g].contacts;
      WithoutAbsent(s.groups[g].contacts, c);
    }
  }

  lemma RemoveGroupInv(s: Roster, c: int, g: int)
    requires Inv(s)
    ensures Inv(ContactRemoveGroup(s, c, g))
  {
    hide InvBut;
    if ContactRemoveGroup(s, c, g) != s {
      var u, d := Unlink(s, c, g), SwapNames(NamedIfUser(s.groups[g]), None);
      var v := CommitEntries(u, s.contacts[c].entries, d);
      UnlinkInv(s, c, g);
      CommitEntriesInv(u, s.contacts[c].entries, d, c);
      General(v, c);
      if Without(s.contacts[c].groups, g) == [] {
        LinkInv(v, c, 0, c);
        QueueInv(Link(v, c, 0), ContactGroupChanged(c, g, 0));
      } else {
        InvButFilled(v, c);
        QueueInv(v, ContactGroupRemoved(c, g));
      }
    }
  }

  /** Removing a user group from all its contacts empties it. */
  lemma RemoveGroupFromAllEmpties(s: Roster, g: int)
    requires Inv(s) && g in s.groups && g > 1
    ensures var t := RemoveGroupFromAll(s, s.groups[g].contacts, g); g in t.groups && t.groups[g].contacts == []
  {
    hide InvBut;
    RemoveGroupFromAllInv(s, s.groups[g].contacts, g);
    NoMembers(RemoveGroupFromAll(s, s.groups[g].contacts, g).groups[g].contacts, s.groups[g].contacts);
  }

  lemma {:induction false} RemoveGroupFromAllInv(s: Roster, cs: seq<int>, g: int)
    requires Inv(s) && g in s.groups && g > 1
    ensures var t := RemoveGroupFromAll(s, cs, g);
            Inv(t) && g in t.groups && forall c <- t.groups[g].contacts :: c in s.groups[g].contacts && c !in cs
  {
    hide InvBut;
    if cs != [] {
      var rest := cs[..|cs| - 1];
      assert cs == rest + [cs[|cs| - 1]];
      RemoveGroupFromAllInv(s, rest, g);
      RemoveGroupInv(RemoveGroupFromAll(s, rest, g), cs[|cs| - 1], g);
      RemoveGroupEffect(RemoveGroupFromAll(s, rest, g), cs[|cs| - 1], g);
    }
  }

  lemma {:induction false} RemoveGroupFromAllSound(s: Roster, cs: seq<int>, g: int)
    requires Sound(s)
    ensures Sound(RemoveGroupFromAll(s, cs, g))
  {
    hide InvBut;
    hide Agrees;
    if cs != [] {
      RemoveGroupFromAllSound(s, cs[..|cs| - 1], g);
      ContactRemoveGroupSound(RemoveGroupFromAll(s, cs[..|cs| - 1], g), cs[|cs| - 1], g);
    }
  }

  lemma Head(s: seq<int>) returns (x: int)
    requires s != []
    ensures x in s
  {
    x := s[0];
  }

  lemma NoMembers(s: seq<int>, t: seq<int>)
    requires forall x <- s :: x in t && x !in t
    ensures s == []
  {
    if s != [] {
      var x := Head(s);
    }
  }

  lemma GroupRemoveSound(s: Roster, g: int)
    requires Sound(s)
    ensures Sound(GroupRemove(s, g))
  {
    hide InvBut;
    hide Agrees;
    if g in s.groups && s.groups[g].kind == User {
      KnownGroup(s, g, -1);
      RemoveGroupFromAllSound(s, s.groups[g].contacts, g);
      RemoveGroupFromAllEmpties(s, g);
      DeleteGroupSound(RemoveGroupFromAll(s, s.groups[g].contacts, g), g);
    }
  }

  lemma {:induction false} CommitContactsShape(s: Roster, cs: seq<int>, d: Edit)
    requires TextsOk(s.entries, s.nextEntry) && EditOk(d)
    ensures var t := CommitContacts(s, cs, d);
            TextsOk(t.entries, t.nextEntry) && SameShape(s, t) && t.log == s.log && SameStatus(s.entries, t.entries)
  {
    if cs != [] {
      var t := CommitContacts(s, cs[..|cs| - 1], d);
      CommitContactsShape(s, cs[..|cs| - 1], d);
      var c := cs[|cs| - 1];
      if c in t.contacts {
        CommitEntriesShape(t, t.contacts[c].entries, d);
      }
    }
  }

  lemma CommitContactsInv(s: Roster, cs: seq<int>, d: Edit)
    requires Inv(s) && EditOk(d)
    ensures var t := CommitContacts(s, cs, d); Inv(t) && SameShape(s, t) && t.log == s.log && SameStatus(s.entries, t.entries)
  {
    hide GroupsOk;
    hide LinksOk;
    hide EntriesOk;
    hide IndexOk;
    hide TagsOk;
    hide ContactsOk;
    hide TextsOk;
    CommitContactsShape(s, cs, d);
    SamePlacesOk(s.entries, CommitContacts(s, cs, d).entries, s.contacts, s.byJid);
  }

  lemma RenamedFaces(mine: map<int, Face>, groups: map<int, Group>, g: int, name: string)
    requires GroupsAgree(mine, groups) && g in groups
    ensures g in mine && GroupsAgree(mine[g := Face(groups[g].kind, name)], groups[g := groups[g].(name := name)])
  {
  }

  lemma GroupRenamedAgrees(s: Roster, g: int, name: string, u: Roster)
    requires Agrees(Replay(s.log), s, -1) && g in s.groups && s.groups[g].kind == User
    requires SameShape(SetGroup(s, g, s.groups[g].(name := name)), u) && u.log == s.log && SameStatus(s.entries, u.entries)
    ensures var t := Queue(u, GroupChanged(g, User, name)); Agrees(Replay(t.log), t, -1)
  {
    hide GroupsAgree;
    hide ContactsAgree;
    hide EntriesAgree;
    ReplayNext(s.log, GroupChanged(g, User, name));
    hide Replay;
    RenamedFaces(Replay(s.log).groups, s.groups, g, name);
    SameLines(Replay(s.log).entries, s.entries, u.entries, -1);
  }

  lemma GroupRenameSound(s: Roster, g: int, name: string)
    requires Sound(s)
    ensures Sound(GroupRename(s, g, name))
  {
    hide InvBut;
    hide Agrees;
    if name != "" && g in s.groups && s.groups[g].kind == User {
      var t := SetGroup(s, g, s.groups[g].(name := name));
      var d := RenameName(s.groups[g].name, name);
      KnownGroup(s, g, -1);
      RegroupInv(s, g, s.groups[g].(name := name));
      CommitContactsInv(t, s.groups[g].contacts, d);
      GroupRenamedAgrees(s, g, name, CommitContacts(t, s.groups[g].contacts, d));
      QueueInv(CommitContacts(t, s.groups[g].contacts, d), GroupChanged(g, User, name));
    }
  }

  lemma {:induction false} ReportMovedSound(s: Roster, was: seq<int>, n: nat)
    requires Sound(s) && n <= |was| == |s.order|
    ensures Sound(ReportMoved(s, was, n)) && ReportMoved(s, was, n).groups == s.groups
  {
    hide SoundBut;
    if n > 0 {
      ReportMovedSound(s, was, n - 1);
      var t := ReportMoved(s, was, n - 1);
      if was[n - 1] in t.groups {
        ReportGroupSound(t, was[n - 1]);
      }
    }
  }

  lemma GroupMoveSound(s: Roster, g: int, pos: nat)
    requires Sound(s) && pos < |s.order|
    ensures Sound(GroupMove(s, g, pos))
  {
    if g in s.groups && s.groups[g].kind == User && g in s.order {
      var order := Moved(s.order, IndexOf(s.order, g), pos);
      ReorderInv(s, order);
      ReportMovedSound(s.(order := order), s.order, |s.order|);
    }
  }

  lemma {:induction false} AnnounceSound(s: Roster, ids: seq<int>)
    requires Sound(s)
    ensures Sound(Announce(s, ids)) && Announce(s, ids).groups == s.groups
  {
    hide SoundBut;
    if ids != [] {
      AnnounceSound(s, ids[..|ids| - 1]);
      var t := Announce(s, ids[..|ids| - 1]);
      if ids[|ids| - 1] in t.groups {
        ReportGroupSound(t, ids[|ids| - 1]);
      }
    }
  }

  /** The receiver asks for the built-in groups as soon as it exists; from then on it is in step. */
  lemma StartSound()
    ensures Sound(RosterStart(INITIAL))
  {
    InitialInv();
    var n0, n1 := GroupAdded(0, NoGroup, GENERAL), GroupAdded(1, NotInList, NOT_IN_LIST);
    assert [0][..0] == [] && [0, 1][..1] == [0];
    assert Announce(INITIAL, []) == INITIAL;
    assert Announce(INITIAL, [0]) == Queue(INITIAL, n0);
    assert Announce(INITIAL, [0, 1]) == Queue(Queue(INITIAL, n0), n1);
    ReplayNext([], n0);
    ReplayNext([n0], n1);
    assert [] + [n0] == [n0];
  }

  // ---- contacts -------------------------------------------------------------------------------

  lemma ContactAddSound(s: Roster, g: int, name: string, pos: int, x: int)
    requires SoundBut(s, x)
    ensures SoundBut(ContactAdd(s, g, name, pos), x) && SamePlaces(s.entries, ContactAdd(s, g, name, pos).entries)
    ensures name != "" && g in s.groups ==> ContactAddId(s, g, name) in ContactAdd(s, g, name, pos).contacts
  {
    hide InvBut;
    hide Agrees;
    if name != "" && g in s.groups {
      var c := FindContact(s, name, s.groups[g].name, s.groups[g].kind);
      if c == -1 {
        NewContactSound(s, g, name, pos, x);
      } else if g !in s.contacts[c].groups {
        ContactAddGroupSound(s, c, g, x);
        ContactAddGroupKeeps(s, c, g);
      }
    }
  }

  lemma ContactAddGroupKeeps(s: Roster, c: int, g: int)
    requires Inv(s)
    ensures SamePlaces(s.entries, ContactAddGroup(s, c, g).entries)
    ensures forall d :: d in s.contacts <==> d in ContactAddGroup(s, c, g).contacts
  {
    if ContactAddGroup(s, c, g) != s {
      assert s.groups[g].name != "";
      CommitEntriesShape(Link(s, c, g), s.contacts[c].entries, AddName(s.groups[g].name));
    }
  }

  lemma EmptyContactRemoveSound(s: Roster, c: int, toServer: bool, x: int)
    requires SoundBut(s, x) && c in s.contacts && s.contacts[c].entries == []
    ensures SoundBut(ContactRemove(s, c, toServer), x)
    ensures ContactRemove(s, c, toServer).entries == s.entries
  {
    hide InvBut;
    hide Agrees;
    DeleteContactSound(s, c, x);
    DropFromGroupsShape(s, c, s.contacts[c].groups);
  }

  lemma EntryRemoveSound(s: Roster, e: int, toServer: bool)
    requires Sound(s)
    ensures Sound(EntryRemove(s, e, toServer))
  {
    hide InvBut;
    hide Agrees;
    if e in s.entries {
      var v := s.entries[e];
      SendSound(s, RosterDelete(v.account, v.jid), -1);
      DeleteEntrySound(if toServer && InList(s, v.contact) && v.account in s.active then Send(s, RosterDelete(v.account, v.jid)) else s, e);
    }
  }

  lemma EntryRemoveEffect(s: Roster, e: int, toServer: bool, c: int)
    requires Inv(s) && c in s.contacts
    ensures var t := EntryRemove(s, e, toServer);
            c in t.contacts && forall f <- t.contacts[c].entries :: f in s.contacts[c].entries && f != e
  {
    hide InvBut;
    KnownContact(s, c);
  }

  lemma EntryRemoveInv(s: Roster, e: int, toServer: bool)
    requires Inv(s)
    ensures Inv(EntryRemove(s, e, toServer))
  {
    hide InvBut;
    if e in s.entries {
      var v := s.entries[e];
      var t := if toServer && InList(s, v.contact) && v.account in s.active then Send(s, RosterDelete(v.account, v.jid)) else s;
      SameGraphInv(s, t);
      DeleteEntryInv(t, e);
    }
  }

  lemma {:induction false} RemoveEntriesInv(s: Roster, es: seq<int>, toServer: bool, c: int)
    requires Inv(s) && c in s.contacts
    ensures var t := RemoveEntries(s, es, toServer);
            Inv(t) && c in t.contacts && forall e <- t.contacts[c].entries :: e in s.contacts[c].entries && e !in es
  {
    hide InvBut;
    if es != [] {
      var rest, e := es[..|es| - 1], es[|es| - 1];
      assert es == rest + [e];
      RemoveEntriesInv(s, rest, toServer, c);
      var t := RemoveEntries(s, rest, toServer);
      EntryRemoveInv(t, e, toServer);
      EntryRemoveEffect(t, e, toServer, c);
    }
  }

  /** Removing all entries of a contact leaves it without entries. */
  lemma RemoveEntriesEmpties(s: Roster, c: int, toServer: bool)
    requires Inv(s) && c in s.contacts
    ensures var t := RemoveEntries(s, s.contacts[c].entries, toServer); Inv(t) && c in t.contacts && t.contacts[c].entries == []
  {
    hide InvBut;
    RemoveEntriesInv(s, s.contacts[c].entries, toServer, c);
    NoMembers(RemoveEntries(s, s.contacts[c].entries, toServer).contacts[c].entries, s.contacts[c].entries);
  }

  lemma {:induction false} RemoveEntriesSound(s: Roster, es: seq<int>, toServer: bool)
    requires Sound(s)
    ensures Sound(RemoveEntries(s, es, toServer))
  {
    hide InvBut;
    hide Agrees;
    if es != [] {
      RemoveEntriesSound(s, es[..|es| - 1], toServer);
      EntryRemoveSound(RemoveEntries(s, es[..|es| - 1], toServer), es[|es| - 1], toServer);
    }
  }

  lemma ContactRemoveSound(s: Roster, c: int, toServer: bool)
    requires Sound(s)
    ensures Sound(ContactRemove(s, c, toServer))
  {
    hide InvBut;
    hide Agrees;
    if c in s.contacts {
      RemoveEntriesSound(s, s.contacts[c].entries, toServer);
      RemoveEntriesEmpties(s, c, toServer);
      DeleteContactSound(RemoveEntries(s, s.contacts[c].entries, toServer), c, -1);
    }
  }

  /** A contact's name or alternative name changed, entry texts with it, and then the receiver was told. */
  lemma RenamedSound(s: Roster, c: int, v: Contact, t: Roster)
    requires Sound(s) && c in s.contacts && v.name != "" && v == s.contacts[c].(name := v.name, alt := v.alt)
    requires Inv(t) && SameShape(SetContact(s, c, v), t) && t.log == s.log && SameStatus(s.entries, t.entries)
    ensures Sound(Queue(t, ContactChanged(c, v.name, v.alt)))
  {
    hide InvBut;
    hide Replay;
    var m := Replay(s.log);
    ReplayNext(s.log, ContactChanged(c, v.name, v.alt));
    SameLines(m.entries, s.entries, t.entries, -1);
    assert CardOf(m.contacts[c], s.contacts[c]);
    CardsRenamed(m.contacts, s.contacts, c, v);
    SameGraphInv(t, Queue(t, ContactChanged(c, v.name, v.alt)));
  }

  lemma CardsRenamed(mine: map<int, Card>, contacts: map<int, Contact>, c: int, v: Contact)
    requires ContactsAgree(mine, contacts) && c in contacts && v.groups == contacts[c].groups
    ensures c in mine && ContactsAgree(mine[c := Card(v.name, v.alt, mine[c].groups)], contacts[c := v])
  {
    assert CardOf(mine[c], contacts[c]);
  }

  lemma ContactRenameSound(s: Roster, c: int, name: string)
    requires Sound(s)
    ensures Sound(ContactRename(s, c, name))
  {
    if name != "" && c in s.contacts {
      var v := s.contacts[c].(name := name);
      SetContactInv(s, c, v, -1);
      CommitEntriesInv(SetContact(s, c, v), v.entries, SetName(name), -1);
      RenamedSound(s, c, v, CommitEntries(SetContact(s, c, v), v.entries, SetName(name)));
    }
  }

  lemma ContactSetAltSound(s: Roster, c: int, alt: string)
    requires Sound(s)
    ensures Sound(ContactSetAlt(s, c, alt))
  {
    if c in s.contacts {
      var v := s.contacts[c].(alt := alt);
      SetContactInv(s, c, v, -1);
      RenamedSound(s, c, v, SetContact(s, c, v));
    }
  }

  lemma {:induction false} ReportMovedContactsSound(s: Roster, was: seq<int>, now: seq<int>, n: nat)
    requires Sound(s) && n <= |was| == |now|
    ensures Sound(ReportMovedContacts(s, was, now, n)) && ReportMovedContacts(s, was, now, n).contacts == s.contacts
  {
    hide SoundBut;
    if n > 0 {
      ReportMovedContactsSound(s, was, now, n - 1);
      var t := ReportMovedContacts(s, was, now, n - 1);
      if was[n - 1] in t.contacts {
        ReportContactSound(t, was[n - 1]);
      }
    }
  }

  /** Under the invariant the position is the only thing a move can get wrong. */
  predicate MoveOk(s: Roster, c: int, pos: nat) {
    c in s.contacts ==> s.contacts[c].groups != [] && s.contacts[c].groups[0] in s.groups
                        && c in s.groups[s.contacts[c].groups[0]].contacts
                        && pos < |s.groups[s.contacts[c].groups[0]].contacts|
  }

  lemma RegroupAgrees(s: Roster, g: int, now: seq<int>)
    requires Agrees(Replay(s.log), s, -1) && g in s.groups
    ensures var t := SetGroup(s, g, s.groups[g].(contacts := now)); Agrees(Replay(t.log), t, -1)
  {
  }

  lemma ContactMoveSound(s: Roster, c: int, pos: nat)
    requires Sound(s) && MoveOk(s, c, pos)
    ensures Sound(ContactMove(s, c, pos))
  {
    hide InvBut;
    hide Agrees;
    if c in s.contacts {
      var g := s.contacts[c].groups[0];
      var was := s.groups[g].contacts;
      var now := Moved(was, IndexOf(was, c), pos);
      KnownGroup(s, g, -1);
      RegroupInv(s, g, s.groups[g].(contacts := now));
      RegroupAgrees(s, g, now);
      ReportMovedContactsSound(SetGroup(s, g, s.groups[g].(contacts := now)), was, now, |was|);
    }
  }

  // ---- entries --------------------------------------------------------------------------------

  lemma {:induction false} UserNamesOk(s: Roster, gs: seq<int>)
    requires Inv(s)
    ensures "" !in UserNames(gs, s.groups)
  {
    if gs != [] {
      UserNamesOk(s, gs[..|gs| - 1]);
    }
  }

  lemma EntryChangeContactInv(s: Roster, e: int, from: int, to: int)
    requires Inv(s)
    ensures Inv(EntryChangeContact(s, e, from, to))
  {
    hide InvBut;
    if e in s.entries && from in s.contacts && to in s.contacts && s.entries[e].contact == from && from != to {
      var names := UserNames(s.contacts[to].groups, s.groups);
      var v := s.entries[e].(name := s.contacts[to].name, groups := names, mainGroup := First(names));
      UserNamesOk(s, s.contacts[to].groups);
      KnownEntry(s, e);
      SetEntryInv(s, e, v, -1);
      SameGraphInv(SetEntry(s, e, v), Send(SetEntry(s, e, v), Commit(v)));
      MoveEntryInv(Send(SetEntry(s, e, v), Commit(v)), e, to);
    }
  }

  lemma EntryChangeContactSound(s: Roster, e: int, from: int, to: int)
    requires Sound(s)
    ensures Sound(EntryChangeContact(s, e, from, to))
    ensures forall c :: c in s.contacts <==> c in EntryChangeContact(s, e, from, to).contacts
  {
    hide InvBut;
    hide Agrees;
    if e in s.entries && from in s.contacts && to in s.contacts && s.entries[e].contact == from && from != to {
      var names := UserNames(s.contacts[to].groups, s.groups);
      var v := s.entries[e].(name := s.contacts[to].name, groups := names, mainGroup := First(names));
      UserNamesOk(s, s.contacts[to].groups);
      KnownEntry(s, e);
      SetEntrySound(s, e, v, -1);
      SendSound(SetEntry(s, e, v), Commit(v), -1);
      MoveEntrySound(Send(SetEntry(s, e, v), Commit(v)), e, to, -1);
    }
  }

  lemma NotFound(s: Roster, v: Entry)
    requires Inv(s) && FindEntry(s, v.account, v.jid) == -1
    ensures Unlisted(s.entries, v)
  {
    FindEntryExact(s, v.account, v.jid);
  }

  lemma EntryAddSound(s: Roster, c: int, account: int, jid: string, nick: string, reason: string, pos: int)
    requires Sound(s)
    ensures Sound(EntryAdd(s, c, account, jid, nick, reason, pos))
  {
    hide InvBut;
    hide Agrees;
    if jid != "" && c in s.contacts {
      var e := FindEntry(s, account, jid);
      if e != -1 {
        var from := s.entries[e].contact;
        if from != c && from in s.contacts {
          EntryChangeContactSound(s, e, from, c);
          var t := EntryChangeContact(s, e, from, c);
          if t.contacts[from].entries == [] {
            EmptyContactRemoveSound(t, from, true, -1);
          }
          var u := if t.contacts[from].entries == [] then ContactRemove(t, from, true) else t;
          SendSound(u, Subscribe(account, s.entries[e].jid, nick, reason), -1);
        }
      } else {
        var v := FreshEntry(s, c, account, jid);
        SendSound(s, Commit(v), -1);
        SendSound(Send(s, Commit(v)), Subscribe(account, jid, nick, reason), -1);
        NotFound(s, v);
        FreshEntryOk(s, c, account, jid);
        NewEntrySound(if InList(s, c) then Send(Send(s, Commit(v)), Subscribe(account, jid, nick, reason)) else s, v, pos);
      }
    }
  }

  lemma FreshEntryOk(s: Roster, c: int, account: int, jid: string)
    requires Inv(s) && c in s.contacts && jid != ""
    ensures EntryTextsOk(FreshEntry(s, c, account, jid))
  {
    hide InvBut;
    var gs := s.contacts[c].groups;
    if gs != [] && gs[0] in s.groups {
      KnownGroup(s, gs[0], -1);
    }
  }

  // ---- roster pushes --------------------------------------------------------------------------

  predicate ItemOk(item: Item) { item.jid != "" && "" !in item.groups }

  lemma GroupsFine(s: Roster)
    requires Inv(s)
    ensures GroupsOk(s.order, s.groups, s.nextGroup)
    ensures FindGroup(s.order, s.groups, NoGroup, GENERAL) == 0 && -1 !in s.order && s.nextGroup !in s.groups
  {
    BuiltIns(s);
  }

  /** The group a push asks for exists afterwards, and is not the "not in list" one. */
  lemma EnsuredShape(s: Roster, item: Item)
    requires GroupsOk(s.order, s.groups, s.nextGroup) && FindGroup(s.order, s.groups, NoGroup, GENERAL) == 0
    requires -1 !in s.order && s.nextGroup !in s.groups && ItemOk(item)
    ensures var t := EnsureGroup(s, item); var g := EnsuredGroup(s, item);
            && g in t.groups && t.groups[g].kind == PushedKind(item) && t.groups[g].name == PushedGroup(item)
            && t == s.(order := t.order, groups := t.groups, nextGroup := t.nextGroup, log := t.log)
            && forall h <- s.groups :: h in t.groups && t.groups[h] == s.groups[h]
  {
    hide Place;
  }

  lemma EnsureGroupSound(s: Roster, item: Item, x: int)
    requires SoundBut(s, x) && ItemOk(item)
    ensures var t := EnsureGroup(s, item); var g := EnsuredGroup(s, item);
            SoundBut(t, x) && g in t.groups && t.groups[g].kind == PushedKind(item) && t.groups[g].name == PushedGroup(item)
            && t == s.(order := t.order, groups := t.groups, nextGroup := t.nextGroup, log := t.log)
            && forall h <- s.groups :: h in t.groups && t.groups[h] == s.groups[h]
  {
    hide Agrees;
    hide InvBut;
    hide FindGroup;
    hide EnsuredGroup;
    GroupsFine(s);
    EnsuredShape(s, item);
    hide GroupsOk;
    GroupAddSound(s, PushedGroup(item), -1, x);
    hide GroupAdd;
  }

  lemma AdoptOneSound(t: Roster, d: int, e: int, item: Item, x: int)
    requires SoundBut(t, x) && d in t.entries && e in t.entries && ItemOk(item)
    ensures var known := if d == e then item.groups else t.entries[e].groups;
            var v := t.entries[d].(groups := item.groups, mainGroup := if known == [] then "" else First(item.groups));
            SoundBut(Queue(SetEntry(t, d, v), EntryChanged(d, Props(v))), if d == x then -1 else x)
  {
    hide InvBut;
    hide Agrees;
    var known := if d == e then item.groups else t.entries[e].groups;
    var v := t.entries[d].(groups := item.groups, mainGroup := if known == [] then "" else First(item.groups));
    KnownEntry(t, d);
    SetEntrySound(t, d, v, x);
    ReportEntrySound(SetEntry(t, d, v), d, x);
  }

  /** When the entry already has groups but the push names none, the bridge reads the first of no
      groups, unless the entry heads its contact's list. */
  predicate AdoptOk(s: Roster, account: int, item: Item) {
    var e := FindEntry(s, account, item.jid);
    e != -1 && !InList(s, s.entries[e].contact) && item.groups == [] ==>
      s.entries[e].groups == [] || (s.entries[e].contact in s.contacts && s.contacts[s.entries[e].contact].entries != []
                                    && s.contacts[s.entries[e].contact].entries[0] == e)
  }

  lemma EnsureGroupInv(s: Roster, item: Item)
    requires Inv(s) && ItemOk(item)
    ensures var t := EnsureGroup(s, item);
            Inv(t) && EnsuredGroup(s, item) in t.groups && GroupsOk(s.order, s.groups, s.nextGroup)
            && t.contacts == s.contacts && t.entries == s.entries
  {
    hide InvBut;
    GroupsFine(s);
    GroupAddInv(s, PushedGroup(item), -1);
  }

  lemma ContactAddInv(s: Roster, g: int, name: string, pos: int)
    requires Inv(s) && g in s.groups && name != ""
    ensures Inv(ContactAdd(s, g, name, pos))
  {
    hide InvBut;
    var c := FindContact(s, name, s.groups[g].name, s.groups[g].kind);
    if c == -1 {
      NewContactInv(s, g, name, pos);
    } else if ContactAddGroup(s, c, g) != s {
      KnownGroup(s, g, -1);
      LinkInv(s, c, g, -1);
      CommitEntriesInv(Link(s, c, g), s.contacts[c].entries, AddName(s.groups[g].name), -1);
      QueueInv(CommitEntries(Link(s, c, g), s.contacts[c].entries, AddName(s.groups[g].name)), ContactGroupAdded(c, g));
    }
  }

  lemma EmptyContactRemoveKeeps(s: Roster, c: int, toServer: bool)
    requires c in s.contacts && s.contacts[c].entries == []
    ensures ContactRemove(s, c, toServer).entries == s.entries
  {
    DropFromGroupsShape(s, c, s.contacts[c].groups);
  }

  /** Several entries take over the pushed groups and are reported; entry `e` is among them. */
  lemma {:induction false} AdoptGroupsSound(s: Roster, ids: seq<int>, e: int, item: Item)
    requires SoundBut(s, e) && e in s.entries && ItemOk(item)
    ensures var t := AdoptGroups(s, ids, e, item);
            SoundBut(t, if e in ids then -1 else e) && SamePlaces(s.entries, t.entries)
  {
    hide InvBut;
    hide Agrees;
    if ids != [] {
      var rest, d := ids[..|ids| - 1], ids[|ids| - 1];
      assert ids == rest + [d];
      AdoptGroupsSound(s, rest, e, item);
      var t := AdoptGroups(s, rest, e, item);
      var x := if e in rest then -1 else e;
      if d in t.entries {
        AdoptOneSound(t, d, e, item, x);
      }
    }
  }

  /** A hidden contact leaves the "not in list" group for the pushed one. */
  lemma UnhideSound(t: Roster, c: int, g: int)
    requires Sound(t) && c in t.contacts && g in t.groups && 1 in t.groups
    ensures Sound(Queue(Link(Unlink(t, c, 1), c, g), ContactGroupChanged(c, 1, g)))
  {
    hide InvBut;
    hide Agrees;
    hide Replay;
    hide Apply;
    hide Once;
    hide Without;
    UnlinkInv(t, c, 1);
    LinkInv(Unlink(t, c, 1), c, g, c);
    NoteChange(t, c, 1, g, -1);
    RegroupedAgrees(t, Link(Unlink(t, c, 1), c, g), c, Without(t.contacts[c].groups, 1) + [g], ContactGroupChanged(c, 1, g), -1);
    QueueInv(Link(Unlink(t, c, 1), c, g), ContactGroupChanged(c, 1, g));
  }

  lemma ItemAddedSound(s: Roster, account: int, item: Item)
    requires Sound(s) && ItemOk(item)
    ensures Sound(ItemAdded(s, account, item))
  {
    hide InvBut;
    hide Agrees;
    hide FindEntry;
    hide FindContact;
    hide ContactAdd;
    hide ContactAddId;
    hide EnsureGroup;
    hide EnsuredGroup;
    hide AdoptGroups;
    var e := FindEntry(s, account, item.jid);
    if !(e != -1 && InList(s, s.entries[e].contact)) {
      var t, g := EnsureGroup(s, item), EnsuredGroup(s, item);
      EnsureGroupSound(s, item, -1);
      if e != -1 {
        General(t, -1);
        KnownEntry(t, e);
        AdoptedSound(t, e, g, item);
      } else {
        var name := PushedEntry(account, item, 0).name;
        var found := FindContact(t, name, t.groups[g].name, t.groups[g].kind);
        ContactAddSound(t, g, name, -1, -1);
        var u := if found != -1 then t else ContactAdd(t, g, name, -1);
        var c := if found != -1 then found else ContactAddId(t, g, name);
        NotFound(s, PushedEntry(account, item, c));
        StillUnlisted(t.entries, u.entries, PushedEntry(account, item, c));
        NewEntrySound(u, PushedEntry(account, item, c), -1);
      }
    }
  }

  lemma AdoptedSound(t: Roster, e: int, g: int, item: Item)
    requires Sound(t) && e in t.entries && t.entries[e].contact in t.contacts && e in t.contacts[t.entries[e].contact].entries
    requires g in t.groups && 1 in t.groups && ItemOk(item)
    ensures var c := t.entries[e].contact;
            var u := Queue(Link(Unlink(t, c, 1), c, g), ContactGroupChanged(c, 1, g));
            var w := SetEntry(u, e, u.entries[e].(sub := item.sub, ask := item.ask));
            Sound(AdoptGroups(w, u.contacts[c].entries, e, item))
  {
    hide InvBut;
    hide Agrees;
    var c := t.entries[e].contact;
    UnhideSound(t, c, g);
    var u := Queue(Link(Unlink(t, c, 1), c, g), ContactGroupChanged(c, 1, g));
    var v := u.entries[e].(sub := item.sub, ask := item.ask);
    KnownEntry(u, e);
    Excepting(u, e);
    SetEntrySound(u, e, v, e);
    AdoptGroupsSound(SetEntry(u, e, v), u.contacts[c].entries, e, item);
  }

  lemma Excepting(s: Roster, e: int)
    requires Sound(s)
    ensures SoundBut(s, e)
  {
  }

  lemma StillUnlisted(a: map<int, Entry>, b: map<int, Entry>, v: Entry)
    requires Unlisted(a, v) && SamePlaces(a, b)
    ensures Unlisted(b, v)
  {
    forall e | e in b ensures !SameKey(b[e], v) {
      assert SamePlace(a[e], b[e]);
    }
  }

  lemma UpdatedEntryOk(v: Entry, item: Item)
    requires EntryTextsOk(v) && ItemOk(item)
    ensures EntryTextsOk(UpdatedEntry(v, item)) && SamePlace(v, UpdatedEntry(v, item))
  {
  }

  lemma RehomeSound(s: Roster, e: int, to: int, x: int)
    requires SoundBut(s, x) && e in s.entries && to in s.contacts
    ensures SoundBut(Rehome(s, e, to), x) && e in Rehome(s, e, to).entries && Rehome(s, e, to).entries[e].contact == to
  {
    hide InvBut;
    hide Agrees;
    var from := s.entries[e].contact;
    KnownEntry(s, e);
    if from != to {
      MoveEntrySound(s, e, to, x);
      var t := MoveEntry(s, e, to);
      if t.contacts[from].entries == [] {
        EmptyContactRemoveSound(t, from, true, x);
      }
    }
  }

  /** The bridge cannot make a contact without a name for the entry. */
  predicate UpdateOk(s: Roster, account: int, item: Item) {
    var e := FindEntry(s, account, item.jid);
    e != -1 && ChangesGroup(s.entries[e], item) ==> item.name != "" || s.entries[e].name != ""
  }

  lemma ItemUpdatedSound(s: Roster, account: int, item: Item)
    requires Sound(s) && ItemOk(item) && UpdateOk(s, account, item)
    ensures Sound(ItemUpdated(s, account, item))
  {
    hide InvBut;
    hide Agrees;
    var e := FindEntry(s, account, item.jid);
    if e != -1 {
      var v := UpdatedEntry(s.entries[e], item);
      KnownEntry(s, e);
      UpdatedEntryOk(s.entries[e], item);
      Excepting(s, e);
      SetEntrySound(s, e, v, e);
      var r := SetEntry(s, e, v);
      if !ChangesGroup(s.entries[e], item) {
        ReportEntrySound(r, e, e);
      } else {
        EnsureGroupSound(r, item, e);
        var t, g := EnsureGroup(r, item), EnsuredGroup(s, item);
        var found := FindContact(t, v.name, t.groups[g].name, t.groups[g].kind);
        ContactAddSound(t, g, v.name, -1, e);
        var u := if found != -1 then t else ContactAdd(t, g, v.name, -1);
        var to := if found != -1 then found else ContactAddId(t, g, v.name);
        RehomeSound(u, e, to, e);
        ReportEntrySound(Rehome(u, e, to), e, e);
      }
    }
  }

  lemma ItemRemovedSound(s: Roster, account: int, item: Item)
    requires Sound(s)
    ensures Sound(ItemRemoved(s, account, item))
  {
    hide InvBut;
    hide Agrees;
    var e := FindEntry(s, account, item.jid);
    if e != -1 {
      DeleteEntrySound(s, e);
      var c, t := s.entries[e].contact, DeleteEntry(s, e);
      if c in t.contacts && t.contacts[c].entries == [] {
        EmptyContactRemoveSound(t, c, true, -1);
      }
    }
  }

  lemma AddHiddenSound(s: Roster, account: int, jid: string, contactName: string, entryName: string)
    requires Sound(s) && jid != "" && contactName != "" && FindEntry(s, account, jid) == -1
    ensures var t := AddHidden(s, account, jid, contactName, entryName); Sound(t) && s.nextEntry in t.entries
  {
    hide InvBut;
    hide Agrees;
    General(s, -1);
    NewContactSound(s, 1, contactName, -1, -1);
    var v := Entry(account, jid, entryName, "none", false, [], "", s.nextContact);
    NotFound(s, v);
    NewEntrySound(NewContact(s, 1, contactName, -1), v, -1);
  }

  lemma AuthOne(s: Roster, e: int, n: Note)
    requires Sound(s) && e in s.entries && (n.AuthRequest? || n.AuthGranted? || n.AuthLost?) && n.e == e
    ensures Sound(Queue(s, n))
  {
    hide InvBut;
    hide GroupsAgree;
    hide ContactsAgree;
    hide EntriesAgree;
    QueueInv(s, n);
    ReplayNext(s.log, n);
    hide Replay;
    LineKnown(Replay(s.log).entries, s.entries, -1, e);
  }

  lemma AuthSound(s: Roster, e: int, nick: string, reason: string)
    requires Sound(s) && e in s.entries
    ensures Sound(Queue(s, AuthRequest(e, nick, reason))) && Sound(Queue(s, AuthGranted(e))) && Sound(Queue(s, AuthLost(e)))
  {
    hide SoundBut;
    AuthOne(s, e, AuthRequest(e, nick, reason));
    AuthOne(s, e, AuthGranted(e));
    AuthOne(s, e, AuthLost(e));
  }

  lemma SubscriptionSound(s: Roster, account: int, jid: string, kind: SubscriptionType, nick: string, reason: string)
    requires Sound(s) && jid != ""
    ensures Sound(Subscription(s, account, jid, kind, nick, reason))
  {
    hide InvBut;
    hide Agrees;
    var e := FindEntry(s, account, jid);
    var name := if nick == "" then jid else nick;
    if e == -1 {
      AddHiddenSound(s, account, jid, name, name);
    }
    var t := if e != -1 then s else AddHidden(s, account, jid, name, name);
    var id := if e != -1 then e else s.nextEntry;
    AuthSound(t, id, nick, reason);
  }

  lemma ChatFromSound(s: Roster, account: int, jid: string)
    requires Sound(s) && jid != ""
    ensures Sound(ChatFrom(s, account, jid))
  {
    hide InvBut;
    hide Agrees;
    if FindEntry(s, account, jid) == -1 {
      AddHiddenSound(s, account, jid, jid, "");
    }
  }

  // ---- metacontacts ---------------------------------------------------------------------------

  lemma {:induction false} ReportEntriesSound(s: Roster, es: seq<int>)
    requires Sound(s)
    ensures var t := ReportEntries(s, es); Sound(t) && t == s.(log := t.log)
  {
    hide InvBut;
    hide Agrees;
    if es != [] {
      ReportEntriesSound(s, es[..|es| - 1]);
      var t := ReportEntries(s, es[..|es| - 1]);
      if es[|es| - 1] in t.entries {
        ReportEntrySound(t, es[|es| - 1], -1);
      }
    }
  }

  lemma RetagSound(s: Roster, c: int, tag: string)
    requires Sound(s) && c in s.contacts && tag != "" && tag !in s.byTag
    ensures Sound(Retag(s, c, tag))
  {
    hide InvBut;
    RetagInv(s, c, tag);
    SameCards(Replay(s.log).contacts, s.contacts, Retag(s, c, tag).contacts);
  }

  /** A contact cannot be made for an entry without a name. */
  predicate TagOk(s: Roster, account: int, jid: string, tag: string) {
    var e := FindEntry(s, account, jid);
    e != -1 && s.entries[e].contact in s.contacts && tag != s.contacts[s.entries[e].contact].tag && TagTarget(s, e, tag) == -1
    ==> s.entries[e].name != ""
  }

  lemma TagTargetKnown(s: Roster, e: int, tag: string)
    requires Inv(s) && e in s.entries && s.entries[e].contact in s.contacts
    ensures TagTarget(s, e, tag) != -1 ==> TagTarget(s, e, tag) in s.contacts
    ensures TagTarget(s, e, tag) == -1 ==> tag !in s.byTag
  {
  }

  lemma TagChangedSound(s: Roster, account: int, jid: string, tag: string, changed: set<int>)
    requires Sound(s) && TagOk(s, account, jid, tag)
    ensures Sound(TagChanged(s, account, jid, tag, changed))
  {
    hide InvBut;
    hide Agrees;
    var e := FindEntry(s, account, jid);
    if e != -1 {
      var c := s.entries[e].contact;
      KnownEntry(s, e);
      KnownContact(s, c);
      if tag == s.contacts[c].tag {
        ReportEntrySound(s, e, -1);
      } else {
        TagTargetKnown(s, e, tag);
        TagHomeSound(s, e, tag, changed);
        RehomeSound(TagHome(s, e, tag, changed).0, e, TagHome(s, e, tag, changed).1, -1);
        ReportEntrySound(Rehome(TagHome(s, e, tag, changed).0, e, TagHome(s, e, tag, changed).1), e, -1);
      }
    }
  }

  /** The contact an entry with the new tag belongs to, with the roster in which it exists. */
  ghost function TagHome(s: Roster, e: int, tag: string, changed: set<int>): (Roster, int)
    requires e in s.entries && s.entries[e].contact in s.contacts && s.contacts[s.entries[e].contact].groups != []
  {
    var found := TagTarget(s, e, tag);
    var g, name := s.contacts[s.entries[e].contact].groups[0], s.entries[e].name;
    var t := if found != -1 then s else ContactAdd(s, g, name, -1);
    var to := if found != -1 then found else ContactAddId(s, g, name);
    if to !in t.contacts || found != -1 || tag == "" then (t, to)
    else (ReportEntries(Retag(t, to, tag), Changed(t.contacts[to].entries, changed)), to)
  }

  lemma TagChangedVia(s: Roster, account: int, jid: string, tag: string, changed: set<int>)
    requires Sound(s) && TagOk(s, account, jid, tag)
    requires FindEntry(s, account, jid) != -1 && s.entries[FindEntry(s, account, jid)].contact in s.contacts
    requires s.contacts[s.entries[FindEntry(s, account, jid)].contact].groups != []
    ensures var e := FindEntry(s, account, jid);
            tag != s.contacts[s.entries[e].contact].tag ==>
              var (u, to) := TagHome(s, e, tag, changed);
              e in u.entries && TagChanged(s, account, jid, tag, changed) == ReportEntry(Rehome(u, e, to), e)
  {
    hide InvBut;
    hide Agrees;
    hide Rehome;
    hide ReportEntry;
    var e := FindEntry(s, account, jid);
    if tag != s.contacts[s.entries[e].contact].tag {
      TagTargetKnown(s, e, tag);
      TagHomeSound(s, e, tag, changed);
    }
  }

  lemma TagHomeSound(s: Roster, e: int, tag: string, changed: set<int>)
    requires Sound(s) && e in s.entries && s.entries[e].contact in s.contacts && s.contacts[s.entries[e].contact].groups != []
    requires TagTarget(s, e, tag) == -1 ==> s.entries[e].name != "" && tag !in s.byTag
    requires TagTarget(s, e, tag) != -1 ==> TagTarget(s, e, tag) in s.contacts
    ensures var (u, to) := TagHome(s, e, tag, changed); Sound(u) && to in u.contacts && e in u.entries
    ensures TagTarget(s, e, tag) == -1 ==>
              var g, name := s.contacts[s.entries[e].contact].groups[0], s.entries[e].name;
              ContactAddId(s, g, name) in ContactAdd(s, g, name, -1).contacts && e in ContactAdd(s, g, name, -1).entries
  {
    hide InvBut;
    hide Agrees;
    var found := TagTarget(s, e, tag);
    var g, name := s.contacts[s.entries[e].contact].groups[0], s.entries[e].name;
    if found == -1 {
      KnownContact(s, s.entries[e].contact);
      ContactAddSound(s, g, name, -1, -1);
      ContactAddKeepsTags(s, g, name);
      var t, to := ContactAdd(s, g, name, -1), ContactAddId(s, g, name);
      if tag != "" {
        RetagSound(t, to, tag);
        ReportEntriesSound(Retag(t, to, tag), Changed(t.contacts[to].entries, changed));
      }
    }
  }

  lemma ContactAddKeepsTags(s: Roster, g: int, name: string)
    requires Inv(s)
    ensures ContactAdd(s, g, name, -1).byTag == s.byTag
  {
    if name != "" && g in s.groups {
      var c := FindContact(s, name, s.groups[g].name, s.groups[g].kind);
      if c != -1 && ContactAddGroup(s, c, g) != s {
        CommitEntriesShape(Link(s, c, g), s.contacts[c].entries, AddName(s.groups[g].name));
      }
    }
  }

  lemma MintTagSound(s: Roster, c: int, uuid: string, changed: set<int>)
    requires Sound(s) && uuid != "" && uuid !in s.byTag
    ensures Sound(MintTag(s, c, uuid, changed))
  {
    hide InvBut;
    hide Agrees;
    if c in s.contacts && s.contacts[c].tag == "" {
      RetagSound(s, c, uuid);
      ReportEntriesSound(Retag(s, c, uuid), Changed(s.contacts[c].entries, changed));
    }
  }

  // ---- accounts -------------------------------------------------------------------------------

  lemma ClearOutSound(s: Roster, e: int, gone: int, toServer: bool)
    requires Sound(s) && e in s.entries
    ensures Sound(ClearOut(s, e, gone, toServer))
  {
    hide InvBut;
    hide Agrees;
    var c := s.entries[e].contact;
    EntryRemoveSound(s, gone, toServer);
    var t := EntryRemove(s, gone, toServer);
    if c in t.contacts && t.contacts[c].entries == [] {
      EmptyContactRemoveSound(t, c, toServer, -1);
    }
    var u := if c in t.contacts && t.contacts[c].entries == [] then ContactRemove(t, c, toServer) else t;
    var main := s.entries[e].mainGroup;
    var g := if main == "" then -1 else FindGroup(s.order, s.groups, User, main);
    GroupRemoveSound(u, g);
  }

  lemma {:induction false} VisitAddressSound(s: Roster, account: int, jid: string, es: seq<int>)
    requires Sound(s)
    ensures Sound(VisitAddress(s, account, jid, es))
  {
    hide Sound;
    hide ClearOut;
    if es != [] {
      var t, e := VisitAddress(s, account, jid, es[..|es| - 1]), es[|es| - 1];
      VisitAddressSound(s, account, jid, es[..|es| - 1]);
      if e in t.entries && jid in t.byJid && t.byJid[jid] != [] {
        ClearOutSound(t, e, t.byJid[jid][0], true);
      }
    }
  }

  lemma {:induction false} VisitAddressesSound(s: Roster, account: int, host: string, js: seq<string>)
    requires Sound(s)
    ensures Sound(VisitAddresses(s, account, host, js))
  {
    hide Sound;
    if js != [] {
      var t, j := VisitAddresses(s, account, host, js[..|js| - 1]), js[|js| - 1];
      VisitAddressesSound(s, account, host, js[..|js| - 1]);
      if j in t.byJid {
        VisitAddressSound(t, account, j, t.byJid[j]);
      }
    }
  }

  lemma {:induction false} SweepSound(s: Roster, account: int, es: seq<int>)
    requires Sound(s)
    ensures Sound(Sweep(s, account, es))
  {
    hide InvBut;
    hide Agrees;
    if es != [] {
      SweepSound(s, account, es[..|es| - 1]);
      var t, e := Sweep(s, account, es[..|es| - 1]), es[|es| - 1];
      if e in t.entries {
        ClearOutSound(t, e, e, false);
      }
    }
  }

  lemma {:induction false} DropEmptyGroupsSound(s: Roster, gs: seq<int>)
    requires Sound(s)
    ensures Sound(DropEmptyGroups(s, gs))
  {
    hide InvBut;
    hide Agrees;
    if gs != [] {
      DropEmptyGroupsSound(s, gs[..|gs| - 1]);
      GroupRemoveSound(DropEmptyGroups(s, gs[..|gs| - 1]), gs[|gs| - 1]);
    }
  }
}
