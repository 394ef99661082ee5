/** Which entries an event takes out of the roster, and what their servers hear of it. */
module RosterRemovals {
  import opened Lists
  import opened RosterModel
  import opened RosterInvariant
  import opened RosterMirror
  import opened RosterOps
  import opened RosterRuns
  import opened RosterEffects
  import opened RosterTransport
  import opened RosterServer

  /** The entry's account is connected, and its contact is not in the "not in list" group first. */
  predicate Reachable(s: Roster, e: int)
    requires e in s.entries
  {
    var c := s.entries[e].contact;
    s.entries[e].account in s.active && c in s.contacts && s.contacts[c].groups != [] && s.contacts[c].groups[0] != 1
  }

  /** An entry of that account and address is gone, whose server could be told. */
  ghost predicate TakenFrom(s: Roster, t: Roster, account: int, jid: string) {
    exists e :: e in s.entries && e !in t.entries && s.entries[e].account == account && s.entries[e].jid == jid && Reachable(s, e)
  }

  /** From `s` to `t` entries were only taken out, and exactly the removals that could be told were told. */
  ghost predicate Withdrawn(s: Roster, t: Roster) {
    && s.sent <= t.sent && t.active == s.active && KeptEntries(s, t)
    && (forall c <- t.contacts :: c in s.contacts && t.contacts[c].groups == s.contacts[c].groups)
    && forall account, jid ::
         LastAbout(t.sent[|s.sent|..], account, jid) == if TakenFrom(s, t, account, jid) then Said(RosterDelete(account, jid)) else Nothing
  }

  lemma ReachableLater(s: Roster, t: Roster, e: int)
    requires Inv(t) && Withdrawn(s, t) && e in t.entries
    ensures e in s.entries && (Reachable(t, e) <==> Reachable(s, e))
  {
    hide InvBut;
    KnownEntry(t, e);
  }

  lemma TakenTwice(s: Roster, t: Roster, u: Roster, account: int, jid: string)
    requires Inv(t) && Withdrawn(s, t) && Withdrawn(t, u)
    ensures TakenFrom(s, u, account, jid) <==> TakenFrom(s, t, account, jid) || TakenFrom(t, u, account, jid)
  {
    hide InvBut;
    forall e | e in t.entries ensures e in s.entries && (Reachable(t, e) <==> Reachable(s, e)) {
      ReachableLater(s, t, e);
    }
    if TakenFrom(s, t, account, jid) {
      var e :| e in s.entries && e !in t.entries && s.entries[e].account == account && s.entries[e].jid == jid && Reachable(s, e);
      assert e !in u.entries;
    } else if TakenFrom(t, u, account, jid) {
      var e :| e in t.entries && e !in u.entries && t.entries[e].account == account && t.entries[e].jid == jid && Reachable(t, e);
      assert e in s.entries && s.entries[e] == t.entries[e];
    }
  }

  lemma WithdrawnTwice(s: Roster, t: Roster, u: Roster)
    requires Inv(t) && Withdrawn(s, t) && Withdrawn(t, u)
    ensures Withdrawn(s, u)
  {
    hide InvBut;
    hide TakenFrom;
    hide LastAbout;
    var a, b := t.sent[|s.sent|..], u.sent[|t.sent|..];
    assert u.sent[|s.sent|..] == a + b;
    forall account, jid
      ensures LastAbout(a + b, account, jid) == if TakenFrom(s, u, account, jid) then Said(RosterDelete(account, jid)) else Nothing
    {
      TakenTwice(s, t, u, account, jid);
      LastAboutSplit(a, b, account, jid);
    }
  }

  /** Nothing is sent, and no entry goes. */
  lemma NothingWithdrawn(s: Roster, t: Roster)
    requires t.sent == s.sent && t.active == s.active && t.entries == s.entries
    requires forall c <- t.contacts :: c in s.contacts && t.contacts[c].groups == s.contacts[c].groups
    ensures Withdrawn(s, t)
  {
    assert t.sent[|s.sent|..] == [];
    forall account, jid ensures LastAbout([], account, jid) == Nothing && !TakenFrom(s, t, account, jid) {
    }
  }

  lemma InListIs(s: Roster, c: int)
    requires Inv(s) && c in s.contacts
    ensures s.contacts[c].groups != [] && (InList(s, c) <==> s.contacts[c].groups[0] != 1)
  {
    hide InvBut;
    KnownContact(s, c);
    KnownGroup(s, s.contacts[c].groups[0], -1);
  }

  // ---- one entry ----------------------------------------------------------------------------------

  /** The last thing said is that the entry is to be removed, if its server could be told and was to be. */
  lemma EntryWithdrawn(s: Roster, e: int, toServer: bool)
    requires Inv(s) && e in s.entries
    ensures var t := EntryRemove(s, e, toServer);
            && s.sent <= t.sent && t.active == s.active
            && t.sent[|s.sent|..] == (if toServer && Reachable(s, e) then [RosterDelete(s.entries[e].account, s.entries[e].jid)] else [])
  {
    hide InvBut;
    hide InList;
    KnownEntry(s, e);
    InListIs(s, s.entries[e].contact);
  }

  lemma OneWithdrawn(s: Roster, e: int)
    requires Inv(s) && e in s.entries
    ensures Inv(EntryRemove(s, e, true)) && Withdrawn(s, EntryRemove(s, e, true))
  {
    hide InvBut;
    hide EntryRemove;
    hide Reachable;
    var t, v := EntryRemove(s, e, true), s.entries[e];
    EntryRemoveInv(s, e, true);
    RosterEffects.EntryRemoveEffect(s, e, true);
    EntryWithdrawn(s, e, true);
    var x := RosterDelete(v.account, v.jid);
    forall account, jid
      ensures LastAbout(t.sent[|s.sent|..], account, jid) == if TakenFrom(s, t, account, jid) then Said(RosterDelete(account, jid)) else Nothing
    {
      assert [x][..0] == [] && LastAbout([], account, jid) == Nothing;
      assert TakenFrom(s, t, account, jid) <==> account == v.account && jid == v.jid && Reachable(s, e);
    }
  }

  // ---- contacts -------------------------------------------------------------------------------------

  lemma {:induction false} EntriesWithdrawn(s: Roster, es: seq<int>)
    requires Inv(s)
    ensures Inv(RemoveEntries(s, es, true)) && Withdrawn(s, RemoveEntries(s, es, true))
  {
    hide InvBut;
    hide Withdrawn;
    hide EntryRemove;
    if es == [] {
      NothingWithdrawn(s, s);
    } else {
      var t, e := RemoveEntries(s, es[..|es| - 1], true), es[|es| - 1];
      EntriesWithdrawn(s, es[..|es| - 1]);
      if e in t.entries {
        OneWithdrawn(t, e);
        WithdrawnTwice(s, t, EntryRemove(t, e, true));
      } else {
        NothingRemoved(t, e, true);
      }
    }
  }

  lemma {:induction false} EntriesUntold(s: Roster, es: seq<int>)
    ensures RemoveEntries(s, es, false).sent == s.sent && RemoveEntries(s, es, false).active == s.active
  {
    if es != [] {
      EntriesUntold(s, es[..|es| - 1]);
    }
  }

  lemma ContactDeletedQuiet(s: Roster, c: int)
    requires c in s.contacts
    ensures var t := DeleteContact(s, c);
            && t.sent == s.sent && t.active == s.active && t.entries == s.entries
            && forall d <- t.contacts :: d in s.contacts && t.contacts[d].groups == s.contacts[d].groups
  {
    DropFromGroupsShape(s, c, s.contacts[c].groups);
  }

  lemma ContactWithdrawn(s: Roster, c: int)
    requires Inv(s) && c in s.contacts
    ensures Withdrawn(s, ContactRemove(s, c, true))
  {
    hide InvBut;
    hide Withdrawn;
    hide RemoveEntries;
    hide DeleteContact;
    var t := RemoveEntries(s, s.contacts[c].entries, true);
    EntriesWithdrawn(s, s.contacts[c].entries);
    if c in t.contacts {
      ContactDeletedQuiet(t, c);
      NothingWithdrawn(t, DeleteContact(t, c));
      WithdrawnTwice(s, t, DeleteContact(t, c));
    }
  }

  lemma LastIs(s: Roster, t: Roster, e: int)
    requires Inv(s) && Withdrawn(s, t) && e in s.entries && e !in t.entries
    ensures var v := s.entries[e];
            LastAbout(t.sent[|s.sent|..], v.account, v.jid) == if Reachable(s, e) then Said(RosterDelete(v.account, v.jid)) else Nothing
  {
    hide InvBut;
    hide Reachable;
    var v := s.entries[e];
    OneOfKey(s, e);
    assert TakenFrom(s, t, v.account, v.jid) <==> Reachable(s, e);
  }

  lemma OneOfKey(s: Roster, e: int)
    requires Inv(s) && e in s.entries
    ensures forall f <- s.entries :: s.entries[f].account == s.entries[e].account && s.entries[f].jid == s.entries[e].jid ==> f == e
  {
    forall f | f in s.entries && s.entries[f].account == s.entries[e].account && s.entries[f].jid == s.entries[e].jid ensures f == e {
      assert SameKey(s.entries[f], s.entries[e]);
    }
  }

  /** When a contact is removed, the last thing the server of each of its entries hears about it is that it is
      to be removed, if the removal is to be told, the account is connected and the contact is in the list;
      otherwise it hears nothing. */
  lemma ContactRemovalTold(s: Roster, c: int, toServer: bool, e: int)
    requires Inv(s) && e in s.entries && s.entries[e].contact == c
    ensures var t, v := ContactRemove(s, c, toServer), s.entries[e];
            && s.sent <= t.sent && e !in t.entries
            && LastAbout(t.sent[|s.sent|..], v.account, v.jid) ==
               if toServer && v.account in s.active && s.contacts[c].groups[0] != 1 then Said(RosterDelete(v.account, v.jid)) else Nothing
  {
    hide InvBut;
    hide RemoveEntries;
    hide DeleteContact;
    KnownEntry(s, e);
    KnownContact(s, c);
    ContactRemoveEffect(s, c, toServer);
    if toServer {
      ContactWithdrawn(s, c);
      LastIs(s, ContactRemove(s, c, true), e);
    } else {
      var t := RemoveEntries(s, s.contacts[c].entries, false);
      EntriesUntold(s, s.contacts[c].entries);
      if c in t.contacts {
        ContactDeletedQuiet(t, c);
      }
      assert ContactRemove(s, c, false).sent[|s.sent|..] == [];
    }
  }

  // ---- gateways ---------------------------------------------------------------------------------------

  lemma EmptyContactQuiet(s: Roster, c: int)
    requires c in s.contacts && s.contacts[c].entries == []
    ensures var t := ContactRemove(s, c, true); t.sent == s.sent && t.entries == s.entries && t.active == s.active
  {
    assert RemoveEntries(s, [], true) == s;
    DropFromGroupsShape(s, c, s.contacts[c].groups);
  }

  lemma EmptyGroupQuiet(s: Roster, g: int)
    requires g in s.groups && s.groups[g].contacts == []
    ensures var t := GroupRemove(s, g); t.sent == s.sent && t.entries == s.entries && t.active == s.active
  {
    assert RemoveGroupFromAll(s, [], g) == s;
  }

  lemma ClearOutSent(s: Roster, e: int, gone: int)
    requires e in s.entries
    ensures var t, u := ClearOut(s, e, gone, true), EntryRemove(s, gone, true);
            t.sent == u.sent && t.entries == u.entries && t.active == u.active
  {
    hide EntryRemove;
    hide ContactRemove;
    hide GroupRemove;
    hide FindGroup;
    var t, c, main := EntryRemove(s, gone, true), s.entries[e].contact, s.entries[e].mainGroup;
    var g := if main == "" then -1 else FindGroup(s.order, s.groups, User, main);
    if c in t.contacts && t.contacts[c].entries == [] {
      EmptyContactQuiet(t, c);
    }
    var u := if c in t.contacts && t.contacts[c].entries == [] then ContactRemove(t, c, true) else t;
    if g != -1 && g in u.groups && u.groups[g].contacts == [] {
      EmptyGroupQuiet(u, g);
    }
  }

  lemma KeptContacts(s: Roster, t: Roster)
    requires ContactsKept(s, t)
    ensures forall c <- t.contacts :: c in s.contacts && t.contacts[c].groups == s.contacts[c].groups
  {
  }

  lemma SameWithdrawn(s: Roster, t: Roster, u: Roster)
    requires Withdrawn(s, t) && u.sent == t.sent && u.entries == t.entries && u.active == t.active
    requires forall c <- u.contacts :: c in s.contacts && u.contacts[c].groups == s.contacts[c].groups
    ensures Withdrawn(s, u)
  {
    assert forall account, jid :: TakenFrom(s, u, account, jid) <==> TakenFrom(s, t, account, jid);
  }

  lemma VisitWithdrawn(s: Roster, account: int, j: string)
    requires Inv(s)
    ensures Inv(Visited(s, account, j)) && Withdrawn(s, Visited(s, account, j))
  {
    hide InvBut;
    hide Withdrawn;
    hide ContactsKept;
    hide ContactsSwept;
    hide GroupsSwept;
    hide ClearOut;
    hide EntryRemove;
    hide FindEntry;
    NothingWithdrawn(s, s);
    var own := FindEntry(s, account, j);
    if own != -1 {
      FirstRemoved(s, account, j);
      var h := s.byJid[j][0];
      KeptContacts(s, Visited(s, account, j));
      ClearOutSent(s, own, h);
      OneWithdrawn(s, h);
      SameWithdrawn(s, EntryRemove(s, h, true), Visited(s, account, j));
    }
  }

  lemma {:induction false} VisitsWithdrawn(s: Roster, account: int, host: string, js: seq<string>)
    requires Inv(s)
    ensures var t := VisitAddresses(s, account, host, js); Inv(t) && Withdrawn(s, t)
  {
    hide InvBut;
    hide Withdrawn;
    hide Visited;
    if js == [] {
      NothingWithdrawn(s, s);
    } else {
      var rest, j := js[..|js| - 1], js[|js| - 1];
      assert js == rest + [j];
      var t := VisitAddresses(s, account, host, rest);
      VisitsWithdrawn(s, account, host, rest);
      VisitsNext(s, account, host, rest, j);
      VisitWithdrawn(t, account, j);
      WithdrawnTwice(s, t, Visited(t, account, j));
    }
  }

  // ---- everything else takes no entry out ---------------------------------------------------------------

  /** Every entry is still there. */
  ghost predicate AllStay(s: Roster, t: Roster) { forall e <- s.entries :: e in t.entries }

  lemma {:induction false} CommitsStay(s: Roster, ids: seq<int>, d: Edit)
    ensures AllStay(s, CommitEntries(s, ids, d))
  {
    hide Edited;
    if ids != [] {
      CommitsStay(s, ids[..|ids| - 1], d);
    }
  }

  lemma {:induction false} CommitContactsStay(s: Roster, cs: seq<int>, d: Edit)
    ensures AllStay(s, CommitContacts(s, cs, d))
  {
    hide CommitEntries;
    if cs != [] {
      var t, c := CommitContacts(s, cs[..|cs| - 1], d), cs[|cs| - 1];
      CommitContactsStay(s, cs[..|cs| - 1], d);
      if c in t.contacts {
        CommitsStay(t, t.contacts[c].entries, d);
      }
    }
  }

  lemma RemoveFromGroupStays(s: Roster, c: int, g: int)
    ensures AllStay(s, ContactRemoveGroup(s, c, g))
  {
    hide CommitEntries;
    hide FindGroup;
    if c in s.contacts && g in s.groups {
      CommitsStay(Unlink(s, c, g), s.contacts[c].entries, SwapNames(NamedIfUser(s.groups[g]), None));
    }
  }

  lemma {:induction false} RemoveFromAllStays(s: Roster, cs: seq<int>, g: int)
    ensures AllStay(s, RemoveGroupFromAll(s, cs, g))
  {
    hide ContactRemoveGroup;
    if cs != [] {
      RemoveFromAllStays(s, cs[..|cs| - 1], g);
      RemoveFromGroupStays(RemoveGroupFromAll(s, cs[..|cs| - 1], g), cs[|cs| - 1], g);
    }
  }

  lemma GroupRemoveStays(s: Roster, g: int)
    ensures AllStay(s, GroupRemove(s, g))
  {
    hide RemoveGroupFromAll;
    if g in s.groups {
      RemoveFromAllStays(s, s.groups[g].contacts, g);
    }
  }

  lemma {:induction false} DropGroupsStay(s: Roster, gs: seq<int>)
    ensures AllStay(s, DropEmptyGroups(s, gs))
  {
    hide GroupRemove;
    if gs != [] {
      DropGroupsStay(s, gs[..|gs| - 1]);
      GroupRemoveStays(DropEmptyGroups(s, gs[..|gs| - 1]), gs[|gs| - 1]);
    }
  }

  lemma AddToGroupStays(s: Roster, c: int, g: int)
    ensures AllStay(s, ContactAddGroup(s, c, g))
  {
    hide CommitEntries;
    if c in s.contacts && g in s.groups {
      CommitsStay(Link(s, c, g), s.contacts[c].entries, AddName(s.groups[g].name));
    }
  }

  lemma ContactAddStays(s: Roster, g: int, name: string, pos: int)
    ensures AllStay(s, ContactAdd(s, g, name, pos))
  {
    hide ContactAddGroup;
    hide FindContact;
    if name != "" && g in s.groups {
      AddToGroupStays(s, FindContact(s, name, s.groups[g].name, s.groups[g].kind), g);
    }
  }

  lemma GroupCommandStays(s: Roster, ev: Event)
    requires Legal(s, ev) && GroupCommand(ev)
    ensures AllStay(s, Step(s, ev))
  {
    hide CommitContacts;
    hide GroupRemove;
    hide FindGroup;
    match ev
    case Start => AnnounceQuiet(s, s.order);
    case AddGroup(name, pos) =>
    case RemoveGroup(g) => GroupRemoveStays(s, g);
    case RenameGroup(g, name) =>
      if g in s.groups {
        CommitContactsStay(SetGroup(s, g, s.groups[g].(name := name)), s.groups[g].contacts, RenameName(s.groups[g].name, name));
      }
    case MoveGroup(g, at) =>
      if g in s.order {
        ReportMovedKeeps(s.(order := Moved(s.order, IndexOf(s.order, g), at)), s.order, |s.order|);
      }
  }

  lemma ContactCommandStays(s: Roster, ev: Event)
    requires Legal(s, ev) && UserCommand(ev) && !GroupCommand(ev) && !ev.RemoveContact?
    ensures AllStay(s, Step(s, ev))
  {
    hide CommitEntries;
    hide ContactAdd;
    hide ContactAddGroup;
    hide ContactRemoveGroup;
    match ev
    case AddContact(g, name, pos) => ContactAddStays(s, g, name, pos);
    case RenameContact(c, name) =>
      if c in s.contacts {
        CommitsStay(SetContact(s, c, s.contacts[c].(name := name)), s.contacts[c].entries, SetName(name));
      }
    case SetAlt(c, name) =>
    case MoveContact(c, at) =>
      if c in s.contacts {
        var g := s.contacts[c].groups[0];
        var was := s.groups[g].contacts;
        var now := Moved(was, IndexOf(was, c), at);
        ReportContactsQuiet(SetGroup(s, g, s.groups[g].(contacts := now)), was, now, |was|);
      }
    case AddToGroup(c, g) => AddToGroupStays(s, c, g);
    case ChangeGroup(c, from, to) =>
      if TransferAllowed(s, c, from, to) {
        CommitsStay(Link(Unlink(s, c, from), c, to), s.contacts[c].entries, SwapNames(NamedIfUser(s.groups[from]), NamedIfUser(s.groups[to])));
      }
    case RemoveFromGroup(c, g) => RemoveFromGroupStays(s, c, g);
  }

  lemma EntryAddStays(s: Roster, c: int, account: int, jid: string, nick: string, reason: string, pos: int)
    ensures AllStay(s, EntryAdd(s, c, account, jid, nick, reason, pos))
  {
    hide FindEntry;
    hide ContactRemove;
    hide InList;
    var e := FindEntry(s, account, jid);
    if jid != "" && c in s.contacts && e != -1 {
      var from := s.entries[e].contact;
      var t := EntryChangeContact(s, e, from, c);
      if from in t.contacts && t.contacts[from].entries == [] {
        EmptyContactQuiet(t, from);
      }
    }
  }

  lemma RehomeStays(s: Roster, e: int, to: int)
    requires e in s.entries
    ensures AllStay(s, Rehome(s, e, to))
  {
    hide ContactRemove;
    var from := s.entries[e].contact;
    if from != to && from in s.contacts && to in s.contacts {
      var t := MoveEntry(s, e, to);
      if t.contacts[from].entries == [] {
        EmptyContactQuiet(t, from);
      }
    }
  }

  lemma TagChangedStays(s: Roster, account: int, jid: string, tag: string, changed: set<int>)
    ensures AllStay(s, TagChanged(s, account, jid, tag, changed))
  {
    hide FindEntry;
    hide TagTarget;
    hide ContactAdd;
    hide ContactAddId;
    hide ReportEntries;
    hide Changed;
    hide Rehome;
    var e := FindEntry(s, account, jid);
    if e != -1 && s.entries[e].contact in s.contacts {
      var c := s.entries[e].contact;
      if tag != s.contacts[c].tag && s.contacts[c].groups != [] {
        var found, g, name := TagTarget(s, e, tag), s.contacts[c].groups[0], s.entries[e].name;
        ContactAddStays(s, g, name, -1);
        var t := if found != -1 then s else ContactAdd(s, g, name, -1);
        var to := if found != -1 then found else ContactAddId(s, g, name);
        if to in t.contacts && e in t.entries {
          ReportsQuiet(Retag(t, to, tag), Changed(t.contacts[to].entries, changed));
          var u := if found != -1 || tag == "" then t
                   else ReportEntries(Retag(t, to, tag), Changed(t.contacts[to].entries, changed));
          RehomeStays(u, e, to);
        }
      }
    }
  }

  lemma PushStays(s: Roster, ev: Event)
    requires Inv(s) && Legal(s, ev) && (ev.PushAdded? || ev.PushUpdated?)
    ensures AllStay(s, Step(s, ev))
  {
    hide InvBut;
    hide FindEntry;
    hide ItemAdded;
    hide ItemUpdated;
    match ev
    case PushAdded(account, item) => ItemAddedEffect(s, account, item);
    case PushUpdated(account, item) =>
      if FindEntry(s, account, item.jid) != -1 {
        ItemUpdatedEffect(s, account, item);
      } else {
        UnknownUpdated(s, account, item);
      }
  }

  lemma SubscriptionStays(s: Roster, account: int, jid: string, kind: SubscriptionType, nick: string, reason: string)
    requires Inv(s)
    ensures AllStay(s, Subscription(s, account, jid, kind, nick, reason))
  {
    hide InvBut;
    hide FindEntry;
    hide AddHidden;
    var name := if nick == "" then jid else nick;
    AddHiddenEffect(s, account, jid, name, name);
  }

  lemma ChatStays(s: Roster, account: int, jid: string)
    requires Inv(s)
    ensures AllStay(s, ChatFrom(s, account, jid))
  {
    hide InvBut;
    hide FindEntry;
    hide AddHidden;
    AddHiddenEffect(s, account, jid, jid, "");
  }

  lemma ChangeContactStays(s: Roster, e: int, from: int, to: int)
    ensures AllStay(s, EntryChangeContact(s, e, from, to))
  {
  }

  lemma MintTagStays(s: Roster, c: int, uuid: string, changed: set<int>)
    ensures AllStay(s, MintTag(s, c, uuid, changed))
  {
    hide Changed;
    if c in s.contacts {
      ReportsQuiet(Retag(s, c, uuid), Changed(s.contacts[c].entries, changed));
    }
  }

  lemma OtherStays(s: Roster, ev: Event)
    requires Inv(s) && Legal(s, ev) && !UserCommand(ev) && !Removing(ev) && !ev.PushAdded? && !ev.PushUpdated?
    ensures AllStay(s, Step(s, ev))
  {
    hide InvBut;
    hide AllStay;
    hide EntryAdd;
    hide EntryChangeContact;
    hide MintTag;
    hide TagChanged;
    hide Subscription;
    hide ChatFrom;
    hide DropEmptyGroups;
    match ev
    case AddEntry(c, account, jid, nick, reason, pos) => EntryAddStays(s, c, account, jid, nick, reason, pos);
    case ChangeContact(e, from, to) => ChangeContactStays(s, e, from, to);
    case SubscriptionReceived(account, jid, kind, nick, reason) => SubscriptionStays(s, account, jid, kind, nick, reason);
    case ChatReceived(account, jid) => ChatStays(s, account, jid);
    case TagReported(account, jid, tag, changed) => TagChangedStays(s, account, jid, tag, changed);
    case TagMinted(c, uuid, changed) => MintTagStays(s, c, uuid, changed);
    case Connection(account, on) => SameStays(s, SetActive(s, account, on));
    case CleanUpGroups => DropGroupsStay(s, s.order);
  }

  lemma SameStays(s: Roster, t: Roster)
    requires t.entries == s.entries
    ensures AllStay(s, t)
  {
  }

  /** The events that may take entries out. */
  predicate Removing(ev: Event) {
    ev.RemoveContact? || ev.RemoveEntry? || ev.PushRemoved? || ev.DeleteAccount? || ev.DeleteTransport?
  }

  /** No other event takes an entry out. */
  lemma OnlyRemovalsRemove(s: Roster, ev: Event)
    requires Inv(s) && Legal(s, ev) && !Removing(ev)
    ensures forall e <- s.entries :: e in Step(s, ev).entries
  {
    hide Step;
    hide InvBut;
    if UserCommand(ev) {
      if GroupCommand(ev) { GroupCommandStays(s, ev); } else { ContactCommandStays(s, ev); }
    } else if ev.PushAdded? || ev.PushUpdated? {
      PushStays(s, ev);
    } else {
      OtherStays(s, ev);
    }
  }

  /** Whatever takes an entry out, other than its own server or the deletion of an account: the last its server
      hears about it is that it is to be removed, if the account is connected and the contact is in the list;
      otherwise it hears nothing. After the two exceptions it hears nothing. */
  lemma RemovalsTold(s: Roster, ev: Event, e: int)
    requires Inv(s) && Legal(s, ev) && e in s.entries && e !in Step(s, ev).entries
    ensures var t, v := Step(s, ev), s.entries[e];
            && s.sent <= t.sent
            && LastAbout(t.sent[|s.sent|..], v.account, v.jid) ==
               if ev.PushRemoved? || ev.DeleteAccount? then Nothing
               else if v.account in s.active && s.contacts[v.contact].groups[0] != 1 then Said(RosterDelete(v.account, v.jid))
               else Nothing
  {
    hide InvBut;
    hide ContactRemove;
    hide EntryRemove;
    hide VisitAddresses;
    hide RemoveAccount;
    hide ItemRemoved;
    KnownEntry(s, e);
    KnownContact(s, s.entries[e].contact);
    var t := Step(s, ev);
    if !Removing(ev) {
      OnlyRemovalsRemove(s, ev);
    } else if ev.PushRemoved? {
      ItemRemovedQuiet(s, ev.account, ev.item);
      assert t.sent[|s.sent|..] == [];
    } else if ev.DeleteAccount? {
      RemoveAccountExact(s, ev.account);
      assert t.sent[|s.sent|..] == [];
    } else {
      RemovingWithdraws(s, ev);
      LastIs(s, t, e);
    }
  }

  lemma RemovingWithdraws(s: Roster, ev: Event)
    requires Inv(s) && Legal(s, ev) && (ev.RemoveContact? || ev.RemoveEntry? || ev.DeleteTransport?)
    ensures Withdrawn(s, Step(s, ev))
  {
    hide InvBut;
    hide Withdrawn;
    hide VisitAddresses;
    hide EntryRemove;
    hide ContactRemove;
    NothingWithdrawn(s, s);
    match ev
    case RemoveContact(c) =>
      if c in s.contacts {
        ContactWithdrawn(s, c);
      } else {
        assert ContactRemove(s, c, true) == s by { NoContactRemoved(s, c); }
      }
    case RemoveEntry(e) =>
      if e in s.entries {
        OneWithdrawn(s, e);
      } else {
        NothingRemoved(s, e, true);
      }
    case DeleteTransport(account, host) => VisitsWithdrawn(s, account, host, KeyList(s.byJid, Alphabetic(s.byJid.Keys)));
  }

  lemma NoContactRemoved(s: Roster, c: int)
    requires c !in s.contacts
    ensures ContactRemove(s, c, true) == s
  {
  }
}
