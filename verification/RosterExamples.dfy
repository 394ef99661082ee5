/** Short runs that reach the rosters in which the bridge does not do what is expected of it. */
module RosterExamples {
  import opened Lists
  import opened RosterModel
  import opened RosterInvariant
  import opened RosterMirror
  import opened RosterOps
  import opened RosterRuns
  import opened RosterEffects
  import opened RosterTransport
  import opened RosterTags

  /** Some run ends in the roster. */
  ghost predicate Reachable(s: Roster) { exists states, events :: IsRun(states, events) && states[|events|] == s }

  lemma ReachableSound(s: Roster)
    requires Reachable(s)
    ensures Sound(s)
  {
    var states, events :| IsRun(states, events) && states[|events|] == s;
    RunSound(states, events);
  }

  lemma NextReachable(s: Roster, ev: Event)
    requires Reachable(s) && Legal(s, ev)
    ensures Reachable(Step(s, ev)) && Sound(Step(s, ev))
  {
    hide Step;
    hide SoundBut;
    var states, events :| IsRun(states, events) && states[|events|] == s;
    assert IsRun(states + [Step(s, ev)], events + [ev]) && (states + [Step(s, ev)])[|events + [ev]|] == Step(s, ev);
    ReachableSound(Step(s, ev));
  }

  /** The receiver has started, and nobody is in the roster. */
  lemma Started()
    ensures var s := RosterStart(INITIAL); s == INITIAL.(log := s.log) && Reachable(s) && Sound(s)
  {
    hide SoundBut;
    var s := RosterStart(INITIAL);
    StartSound();
    AnnounceQuiet(INITIAL, INITIAL.order);
    var none: seq<Event> := [];
    assert IsRun([s], none) && [s][|none|] == s;
  }

  lemma {:induction false} AnnounceQuiet(s: Roster, ids: seq<int>)
    ensures var t := Announce(s, ids); t == s.(log := t.log)
  {
    if ids != [] {
      AnnounceQuiet(s, ids[..|ids| - 1]);
    }
  }

  lemma NoEntry(s: Roster, account: int, jid: string)
    requires Inv(s) && forall e <- s.entries :: s.entries[e].account != account || s.entries[e].jid != jid
    ensures FindEntry(s, account, jid) == -1
  {
    FindEntryExact(s, account, jid);
  }

  lemma EntryFiled(s: Roster, v: Entry)
    requires v.contact in s.contacts
    ensures var t, n := NewEntry(s, v, -1), s.nextEntry;
            t == s.(entries := s.entries[n := v], nextEntry := n + 1, byJid := s.byJid[v.jid := [n] + Listed(s, v.jid)], log := t.log,
                    contacts := s.contacts[v.contact := s.contacts[v.contact].(entries := s.contacts[v.contact].entries + [n])])
  {
    assert Place(s.contacts[v.contact].entries, -1, s.nextEntry) == s.contacts[v.contact].entries + [s.nextEntry];
  }

  lemma EntryAddIs(s: Roster, c: int, account: int, jid: string)
    requires c in s.contacts && jid != "" && FindEntry(s, account, jid) == -1
    ensures var v, ask := FreshEntry(s, c, account, jid), Subscribe(account, jid, "", "");
            && v.contact == c && v.jid == jid
            && EntryAdd(s, c, account, jid, "", "", -1) == NewEntry(if InList(s, c) then Send(Send(s, Commit(v)), ask) else s, v, -1)
  {
    hide FindEntry;
    hide InList;
    hide NewEntry;
  }

  /** Adding an address that is not in the roster yet. */
  lemma AddressAdded(s: Roster, c: int, account: int, jid: string)
    requires Reachable(s) && c in s.contacts && jid != ""
    requires forall e <- s.entries :: s.entries[e].account != account || s.entries[e].jid != jid
    ensures var t, n := EntryAdd(s, c, account, jid, "", "", -1), s.nextEntry;
            && Reachable(t) && t == s.(entries := s.entries[n := FreshEntry(s, c, account, jid)], nextEntry := n + 1, byJid := s.byJid[jid := [n] + Listed(s, jid)],
                                       contacts := s.contacts[c := s.contacts[c].(entries := s.contacts[c].entries + [n])], log := t.log, sent := t.sent)
  {
    hide InvBut;
    hide Agrees;
    hide Reachable;
    hide FindEntry;
    hide FreshEntry;
    hide InList;
    hide NewEntry;
    hide EntryAdd;
    ReachableSound(s);
    NoEntry(s, account, jid);
    NextReachable(s, AddEntry(c, account, jid, "", "", -1));
    EntryAddIs(s, c, account, jid);
    var v, ask := FreshEntry(s, c, account, jid), Subscribe(account, jid, "", "");
    EntryFiled(if InList(s, c) then Send(Send(s, Commit(v)), ask) else s, v);
  }

  /** The first contact of a roster, in the general group. */
  lemma FirstContact(s: Roster, name: string)
    requires s == INITIAL.(log := s.log) && Reachable(s) && name != ""
    ensures var t := ContactAdd(s, 0, name, -1);
            && Reachable(t) && t == s.(contacts := map[0 := Contact(name, "", "", [0], [])], nextContact := 1,
                                       groups := s.groups[0 := Group(NoGroup, GENERAL, [0])], log := t.log)
  {
    hide Reachable;
    hide SoundBut;
    NextReachable(s, AddContact(0, name, -1));
    assert FindGroup([0, 1], s.groups, NoGroup, GENERAL) == 0;
    assert FindContact(s, name, GENERAL, NoGroup) == -1;
    assert Place([], -1, 0) == [0];
  }

  // ---- another account's entry is taken ---------------------------------------------------------------

  /** Two accounts have the same contact on a gateway; deleting the first one's gateway takes the second
      one's entry too. */
  lemma OtherAccountsEntryTaken() returns (s: Roster)
    ensures Reachable(s) && 1 in s.entries && s.entries[1].account == 8 && 1 !in RemoveTransport(s, 7, "gw").entries
  {
    hide Reachable;
    hide RosterStart;
    hide RemoveTransport;
    hide ContactAdd;
    hide EntryAdd;
    Started();
    s := RosterStart(INITIAL);
    FirstContact(s, "Ann");
    s := ContactAdd(s, 0, "Ann", -1);
    AddressAdded(s, 0, 7, "a@gw");
    s := EntryAdd(s, 0, 7, "a@gw", "", "", -1);
    AddressAdded(s, 0, 8, "a@gw");
    s := EntryAdd(s, 0, 8, "a@gw", "", "", -1);
    assert s.byJid["a@gw"] == [1, 0];
    Taken(s);
  }

  lemma Taken(s: Roster)
    requires Reachable(s) && 0 in s.entries && 1 in s.entries && s.entries[0].account == 7 && s.entries[0].jid == "a@gw"
    requires "a@gw" in s.byJid && s.byJid["a@gw"] == [1, 0]
    ensures 1 !in RemoveTransport(s, 7, "gw").entries
  {
    hide Reachable;
    hide InvBut;
    hide Agrees;
    hide RemoveTransport;
    hide ContactsKept;
    hide GroupsSwept;
    hide ContactsSwept;
    hide OwnFirst;
    hide Reached;
    ReachableSound(s);
    RemoveTransportEffect(s, 7, "gw");
    assert "a@gw"[1..] == "@" + "gw";
    FirstReached(s, 7, "gw", 0);
  }

  // ---- a push reads the first of no groups --------------------------------------------------------------

  /** A user group is made in an empty roster. */
  lemma FirstGroup(s: Roster, name: string)
    requires s == INITIAL.(log := s.log) && Reachable(s) && name != ""
    ensures var t := GroupAdd(s, name, -1);
            && Reachable(t) && t.contacts == map[] && t.entries == map[] && t.nextContact == 0 && t.nextEntry == 0
            && t.groups == s.groups[2 := Group(User, name, [])]
  {
    hide Reachable;
    hide SoundBut;
    NextReachable(s, AddGroup(name, -1));
    assert FindGroup([0, 1], s.groups, User, name) == -1;
  }

  lemma HiddenKinds(s: Roster, account: int, jid: string)
    requires Inv(s) && FindEntry(s, account, jid) == -1
    ensures var t := ChatFrom(s, account, jid);
            t.nextEntry == s.nextEntry + 1 && t.groups.Keys == s.groups.Keys && forall g <- s.groups :: t.groups[g].kind == s.groups[g].kind
  {
    hide InvBut;
    General(s, -1);
  }

  /** A stranger writes. */
  lemma StrangerAdded(s: Roster, account: int, jid: string)
    requires Reachable(s) && jid != "" && s.entries == map[] && s.nextContact == 0 && s.nextEntry == 0 && s.contacts == map[]
    ensures var t := ChatFrom(s, account, jid);
            && Reachable(t) && t.contacts == map[0 := Contact(jid, "", "", [1], [0])]
            && t.entries == map[0 := Entry(account, jid, "", "none", false, [], "", 0)] && t.nextEntry == 1
            && t.groups.Keys == s.groups.Keys && forall g <- s.groups :: t.groups[g].kind == s.groups[g].kind
  {
    hide Reachable;
    hide InvBut;
    hide Agrees;
    hide ChatFrom;
    ReachableSound(s);
    NoEntry(s, account, jid);
    NextReachable(s, ChatReceived(account, jid));
    ChatFromEffect(s, account, jid);
    HiddenKinds(s, account, jid);
  }

  /** A stranger's contact with a second entry is added to a user group. When the roster push of the second
      entry names no group, the bridge reads the first of none. */
  lemma PushReadsNone() returns (s: Roster, item: Item)
    ensures Reachable(s) && ItemOk(item) && FindEntry(s, 7, item.jid) == 1 && 1 in s.entries && !InList(s, s.entries[1].contact)
    ensures !AdoptOk(s, 7, item)
  {
    hide Reachable;
    hide RosterStart;
    hide GroupAdd;
    hide ChatFrom;
    hide EntryAdd;
    hide ContactAddGroup;
    Started();
    s := RosterStart(INITIAL);
    FirstGroup(s, "Friends");
    s := GroupAdd(s, "Friends", -1);
    StrangerAdded(s, 7, "a@x");
    s := ChatFrom(s, 7, "a@x");
    AddressAdded(s, 0, 7, "b@x");
    s := EntryAdd(s, 0, 7, "b@x", "", "", -1);
    assert s.contacts[0].entries == [0, 1];
    Grouped(s);
    s := ContactAddGroup(s, 0, 2);
    item := Item("b@x", "", [], "both", false);
  }

  /** A stranger has written, whose entry has no name. A roster push that puts it into a group without naming
      it makes the bridge go on without a contact. */
  lemma PushWithoutName() returns (s: Roster, item: Item)
    ensures Reachable(s) && ItemOk(item) && FindEntry(s, 7, item.jid) == 0 && !UpdateOk(s, 7, item)
  {
    hide Reachable;
    hide RosterStart;
    hide ChatFrom;
    Started();
    s := RosterStart(INITIAL);
    StrangerAdded(s, 7, "a@x");
    s := ChatFrom(s, 7, "a@x");
    item := Item("a@x", "", ["G"], "both", false);
    StrangerFound(s);
  }

  /** So does a tag nobody carries that is reported for that entry. */
  lemma TagWithoutName() returns (s: Roster)
    ensures Reachable(s) && FindEntry(s, 7, "a@x") == 0 && !TagOk(s, 7, "a@x", "T")
  {
    hide Reachable;
    hide RosterStart;
    hide ChatFrom;
    Started();
    s := RosterStart(INITIAL);
    StrangerAdded(s, 7, "a@x");
    s := ChatFrom(s, 7, "a@x");
    StrangerFound(s);
    Untagged(s);
  }

  lemma StrangerFound(s: Roster)
    requires Reachable(s) && s.entries == map[0 := Entry(7, "a@x", "", "none", false, [], "", 0)]
    ensures FindEntry(s, 7, "a@x") == 0
  {
    hide Reachable;
    hide InvBut;
    hide Agrees;
    ReachableSound(s);
    Findable(s, 0);
  }

  lemma Untagged(s: Roster)
    requires Reachable(s) && s.contacts == map[0 := Contact("a@x", "", "", [1], [0])]
    ensures "T" !in s.byTag
  {
    hide Reachable;
    hide InvBut;
    hide Agrees;
    ReachableSound(s);
    if "T" in s.byTag {
      TaggedContact(s, "T");
    }
  }

  lemma Grouped(s: Roster)
    requires Reachable(s) && 0 in s.contacts && s.contacts[0].groups == [1] && s.contacts[0].entries == [0, 1]
    requires 1 in s.groups && s.groups[1].kind == NotInList && 2 in s.groups && s.groups[2].kind == User
    requires 1 in s.entries && s.entries[1].account == 7 && s.entries[1].jid == "b@x" && s.entries[1].contact == 0
    ensures var t, item := ContactAddGroup(s, 0, 2), Item("b@x", "", [], "both", false);
            && Reachable(t) && 1 in t.entries && FindEntry(t, 7, "b@x") == 1 && !InList(t, t.entries[1].contact) && !AdoptOk(t, 7, item)
  {
    hide Reachable;
    hide InvBut;
    hide Agrees;
    hide ContactAddGroup;
    ReachableSound(s);
    KnownGroup(s, 2, -1);
    ContactAddGroupEffect(s, 0, 2);
    NextReachable(s, AddToGroup(0, 2));
    Findable(ContactAddGroup(s, 0, 2), 1);
  }

  // ---- an entry keeps its tagged contact ------------------------------------------------------------------

  /** A tagged contact has one entry of its name. When the entry's tag is cleared, it is only announced again:
      it stays with the tagged contact. */
  lemma StuckExample() returns (s: Roster)
    ensures Reachable(s) && 0 in s.entries && s.entries[0].contact in s.contacts && Stuck(s, 0, "")
    ensures TagChanged(s, 1, "b@x", "", {}) == ReportEntry(s, 0)
  {
    hide Reachable;
    hide RosterStart;
    hide ContactAdd;
    hide EntryAdd;
    hide MintTag;
    hide TagChanged;
    hide Stuck;
    Started();
    s := RosterStart(INITIAL);
    FirstContact(s, "Bob");
    s := ContactAdd(s, 0, "Bob", -1);
    AddressAdded(s, 0, 1, "b@x");
    s := EntryAdd(s, 0, 1, "b@x", "", "", -1);
    assert s.contacts[0].entries == [0];
    BobTagged(s);
    s := MintTag(s, 0, "T", {});
    BobStuck(s);
  }

  lemma BobTagged(s: Roster)
    requires Reachable(s) && 0 in s.contacts && s.contacts[0] == Contact("Bob", "", "", [0], [0]) && s.byTag == map[]
    ensures var t := MintTag(s, 0, "T", {});
            Reachable(t) && t == s.(contacts := s.contacts[0 := Contact("Bob", "", "T", [0], [0])], byTag := map["T" := 0])
  {
    hide Reachable;
    hide SoundBut;
    assert [0][..0] == [] && Changed([], {}) == [] && Changed([0], {}) == [];
    assert ReportEntries(Retag(s, 0, "T"), []) == Retag(s, 0, "T");
    NextReachable(s, TagMinted(0, "T", {}));
  }

  lemma BobStuck(s: Roster)
    requires Reachable(s) && 0 in s.contacts && s.contacts[0] == Contact("Bob", "", "T", [0], [0]) && s.order == [0, 1]
    requires 0 in s.groups && s.groups[0] == Group(NoGroup, GENERAL, [0])
    requires 0 in s.entries && s.entries[0].account == 1 && s.entries[0].jid == "b@x" && s.entries[0].name == "Bob" && s.entries[0].contact == 0
    ensures Stuck(s, 0, "") && TagChanged(s, 1, "b@x", "", {}) == ReportEntry(s, 0)
  {
    hide Reachable;
    hide InvBut;
    hide Agrees;
    ReachableSound(s);
    Findable(s, 0);
    assert FindGroup(s.order, s.groups, NoGroup, GENERAL) == 0;
    assert FindNamed([0], s.contacts, "Bob") == 0;
  }
}
