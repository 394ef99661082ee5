/** Which accounts the bridge takes for connected: those whose last report said so. */
module RosterActive {
  import opened Lists
  import opened RosterModel
  import opened RosterInvariant
  import opened RosterMirror
  import opened RosterOps
  import opened RosterRuns
  import opened RosterEffects
  import opened RosterServer

  predicate Same(s: Roster, t: Roster) { t.active == s.active }

  lemma {:induction false} CommitContactsSame(s: Roster, cs: seq<int>, d: Edit)
    ensures Same(s, CommitContacts(s, cs, d))
  {
    if cs != [] {
      var t, c := CommitContacts(s, cs[..|cs| - 1], d), cs[|cs| - 1];
      CommitContactsSame(s, cs[..|cs| - 1], d);
      if c in t.contacts {
        CommitEntriesContacts(t, t.contacts[c].entries, d);
      }
    }
  }

  lemma AddGroupSame(s: Roster, c: int, g: int)
    ensures Same(s, ContactAddGroup(s, c, g))
  {
    if c in s.contacts && g in s.groups {
      CommitEntriesContacts(Link(s, c, g), s.contacts[c].entries, AddName(s.groups[g].name));
    }
  }

  lemma RemoveGroupSame(s: Roster, c: int, g: int)
    ensures Same(s, ContactRemoveGroup(s, c, g))
  {
    hide FindGroup;
    if c in s.contacts && g in s.groups {
      CommitEntriesContacts(Unlink(s, c, g), s.contacts[c].entries, SwapNames(NamedIfUser(s.groups[g]), None));
    }
  }

  lemma ChangeGroupSame(s: Roster, c: int, from: int, to: int)
    ensures Same(s, ContactChangeGroup(s, c, from, to))
  {
    if TransferAllowed(s, c, from, to) {
      CommitEntriesContacts(Link(Unlink(s, c, from), c, to), s.contacts[c].entries,
                            SwapNames(NamedIfUser(s.groups[from]), NamedIfUser(s.groups[to])));
    }
  }

  lemma {:induction false} RemoveFromAllSame(s: Roster, cs: seq<int>, g: int)
    ensures Same(s, RemoveGroupFromAll(s, cs, g))
  {
    hide ContactRemoveGroup;
    if cs != [] {
      RemoveFromAllSame(s, cs[..|cs| - 1], g);
      RemoveGroupSame(RemoveGroupFromAll(s, cs[..|cs| - 1], g), cs[|cs| - 1], g);
    }
  }

  lemma GroupRemoveSame(s: Roster, g: int)
    ensures Same(s, GroupRemove(s, g))
  {
    if g in s.groups {
      RemoveFromAllSame(s, s.groups[g].contacts, g);
    }
  }

  lemma ContactAddSame(s: Roster, g: int, name: string, pos: int)
    ensures Same(s, ContactAdd(s, g, name, pos))
  {
    hide FindContact;
    hide ContactAddGroup;
    if name != "" && g in s.groups {
      AddGroupSame(s, FindContact(s, name, s.groups[g].name, s.groups[g].kind), g);
    }
  }

  lemma {:induction false} RemoveEntriesSame(s: Roster, es: seq<int>, toServer: bool)
    ensures Same(s, RemoveEntries(s, es, toServer))
  {
    if es != [] {
      RemoveEntriesSame(s, es[..|es| - 1], toServer);
    }
  }

  lemma ContactRemoveSame(s: Roster, c: int, toServer: bool)
    ensures Same(s, ContactRemove(s, c, toServer))
  {
    hide RemoveEntries;
    if c in s.contacts {
      var t := RemoveEntries(s, s.contacts[c].entries, toServer);
      RemoveEntriesSame(s, s.contacts[c].entries, toServer);
      if c in t.contacts {
        DropFromGroupsShape(t, c, t.contacts[c].groups);
      }
    }
  }

  lemma ContactRenameSame(s: Roster, c: int, name: string)
    ensures Same(s, ContactRename(s, c, name))
  {
    if c in s.contacts {
      CommitEntriesContacts(SetContact(s, c, s.contacts[c].(name := name)), s.contacts[c].entries, SetName(name));
    }
  }

  lemma ContactMoveSame(s: Roster, c: int, at: nat)
    requires MoveOk(s, c, at)
    ensures Same(s, ContactMove(s, c, at))
  {
    if c in s.contacts {
      var g := s.contacts[c].groups[0];
      var was := s.groups[g].contacts;
      var now := Moved(was, IndexOf(was, c), at);
      ReportContactsQuiet(SetGroup(s, g, s.groups[g].(contacts := now)), was, now, |was|);
    }
  }

  lemma GroupCommandSame(s: Roster, ev: Event)
    requires Legal(s, ev) && GroupCommand(ev)
    ensures Same(s, Step(s, ev))
  {
    hide CommitContacts;
    hide GroupRemove;
    hide FindGroup;
    match ev
    case Start => AnnounceQuiet(s, s.order);
    case AddGroup(name, pos) =>
    case RemoveGroup(g) => GroupRemoveSame(s, g);
    case RenameGroup(g, name) =>
      if g in s.groups {
        CommitContactsSame(SetGroup(s, g, s.groups[g].(name := name)), s.groups[g].contacts, RenameName(s.groups[g].name, name));
      }
    case MoveGroup(g, at) =>
      if g in s.order {
        ReportMovedKeeps(s.(order := Moved(s.order, IndexOf(s.order, g), at)), s.order, |s.order|);
      }
  }

  lemma ContactCommandSame(s: Roster, ev: Event)
    requires Legal(s, ev) && UserCommand(ev) && !GroupCommand(ev)
    ensures Same(s, Step(s, ev))
  {
    hide ContactAdd;
    hide ContactRemove;
    hide ContactRename;
    hide ContactMove;
    hide ContactAddGroup;
    hide ContactChangeGroup;
    hide ContactRemoveGroup;
    match ev
    case AddContact(g, name, pos) => ContactAddSame(s, g, name, pos);
    case RemoveContact(c) => ContactRemoveSame(s, c, true);
    case RenameContact(c, name) => ContactRenameSame(s, c, name);
    case SetAlt(c, name) =>
    case MoveContact(c, at) => ContactMoveSame(s, c, at);
    case AddToGroup(c, g) => AddGroupSame(s, c, g);
    case ChangeGroup(c, from, to) => ChangeGroupSame(s, c, from, to);
    case RemoveFromGroup(c, g) => RemoveGroupSame(s, c, g);
  }

  lemma EntryAddSame(s: Roster, c: int, account: int, jid: string, nick: string, reason: string, pos: int)
    ensures Same(s, EntryAdd(s, c, account, jid, nick, reason, pos))
  {
    hide FindEntry;
    hide ContactRemove;
    hide InList;
    hide UserNames;
    var e := FindEntry(s, account, jid);
    if e != -1 {
      var from := s.entries[e].contact;
      ContactRemoveSame(EntryChangeContact(s, e, from, c), from, true);
    }
  }

  lemma RehomeSame(s: Roster, e: int, to: int)
    requires e in s.entries
    ensures Same(s, Rehome(s, e, to))
  {
    hide ContactRemove;
    var from := s.entries[e].contact;
    if from != to && from in s.contacts && to in s.contacts {
      ContactRemoveSame(MoveEntry(s, e, to), from, true);
    }
  }

  lemma {:induction false} AdoptSame(s: Roster, ids: seq<int>, e: int, item: Item)
    requires e in s.entries
    ensures Same(s, AdoptGroups(s, ids, e, item))
  {
    if ids != [] {
      AdoptSame(s, ids[..|ids| - 1], e, item);
    }
  }

  lemma ItemAddedSame(s: Roster, account: int, item: Item)
    ensures Same(s, ItemAdded(s, account, item))
  {
    hide FindEntry;
    hide FindGroup;
    hide FindContact;
    hide ContactAdd;
    hide ContactAddId;
    hide EnsuredGroup;
    hide AdoptGroups;
    hide InList;
    var e, g, t := FindEntry(s, account, item.jid), EnsuredGroup(s, item), EnsureGroup(s, item);
    ContactAddSame(t, g, PushedEntry(account, item, 0).name, -1);
    var hidden := FindGroup(t.order, t.groups, NotInList, NOT_IN_LIST);
    if e != -1 && g in t.groups && s.entries[e].contact in t.contacts && hidden != -1 {
      var c := s.entries[e].contact;
      var u := Queue(Link(Unlink(t, c, hidden), c, g), ContactGroupChanged(c, hidden, g));
      AdoptSame(SetEntry(u, e, u.entries[e].(sub := item.sub, ask := item.ask)), u.contacts[c].entries, e, item);
    }
  }

  lemma ItemUpdatedSame(s: Roster, account: int, item: Item)
    ensures Same(s, ItemUpdated(s, account, item))
  {
    hide FindEntry;
    hide FindContact;
    hide ContactAdd;
    hide ContactAddId;
    hide EnsuredGroup;
    hide Rehome;
    var e := FindEntry(s, account, item.jid);
    if e != -1 {
      var v := UpdatedEntry(s.entries[e], item);
      var t, g := EnsureGroup(SetEntry(s, e, v), item), EnsuredGroup(s, item);
      if g in t.groups {
        var found := FindContact(t, v.name, t.groups[g].name, t.groups[g].kind);
        var u := if found != -1 then t else ContactAdd(t, g, v.name, -1);
        ContactAddSame(t, g, v.name, -1);
        if e in u.entries {
          RehomeSame(u, e, if found != -1 then found else ContactAddId(t, g, v.name));
        }
      }
    }
  }

  lemma ItemRemovedSame(s: Roster, account: int, item: Item)
    ensures Same(s, ItemRemoved(s, account, item))
  {
    hide FindEntry;
    hide ContactRemove;
    var e := FindEntry(s, account, item.jid);
    if e != -1 {
      ContactRemoveSame(DeleteEntry(s, e), s.entries[e].contact, true);
    }
  }

  lemma TagChangedSame(s: Roster, account: int, jid: string, tag: string, changed: set<int>)
    ensures Same(s, TagChanged(s, account, jid, tag, changed))
  {
    hide FindEntry;
    hide TagTarget;
    hide ContactAdd;
    hide ContactAddId;
    hide ReportEntries;
    hide Changed;
    hide Rehome;
    var e := FindEntry(s, account, jid);
    if e != -1 && s.entries[e].contact in s.contacts && s.contacts[s.entries[e].contact].groups != [] {
      var found, g, name := TagTarget(s, e, tag), s.contacts[s.entries[e].contact].groups[0], s.entries[e].name;
      var t := if found != -1 then s else ContactAdd(s, g, name, -1);
      var to := if found != -1 then found else ContactAddId(s, g, name);
      ContactAddSame(s, g, name, -1);
      if to in t.contacts && e in t.entries {
        ReportsQuiet(Retag(t, to, tag), Changed(t.contacts[to].entries, changed));
        var u := if found != -1 || tag == "" then t
                 else ReportEntries(Retag(t, to, tag), Changed(t.contacts[to].entries, changed));
        RehomeSame(u, e, to);
      }
    }
  }

  lemma MintTagSame(s: Roster, c: int, uuid: string, changed: set<int>)
    ensures Same(s, MintTag(s, c, uuid, changed))
  {
    hide Changed;
    if c in s.contacts {
      ReportsQuiet(Retag(s, c, uuid), Changed(s.contacts[c].entries, changed));
    }
  }

  lemma ClearOutSame(s: Roster, e: int, gone: int, toServer: bool)
    requires e in s.entries
    ensures Same(s, ClearOut(s, e, gone, toServer))
  {
    hide EntryRemove;
    hide ContactRemove;
    hide GroupRemove;
    hide FindGroup;
    EntryRemoveSame(s, gone, toServer);
    var c, main := s.entries[e].contact, s.entries[e].mainGroup;
    var g := if main == "" then -1 else FindGroup(s.order, s.groups, User, main);
    var t := EntryRemove(s, gone, toServer);
    var u := if c in t.contacts && t.contacts[c].entries == [] then ContactRemove(t, c, toServer) else t;
    ContactRemoveSame(t, c, toServer);
    GroupRemoveSame(u, g);
  }

  lemma {:induction false} SweepSame(s: Roster, account: int, es: seq<int>)
    ensures Same(s, Sweep(s, account, es))
  {
    hide ClearOut;
    if es != [] {
      var t, e := Sweep(s, account, es[..|es| - 1]), es[|es| - 1];
      SweepSame(s, account, es[..|es| - 1]);
      if e in t.entries {
        ClearOutSame(t, e, e, false);
      }
    }
  }

  lemma {:induction false} VisitSame(s: Roster, account: int, jid: string, es: seq<int>)
    ensures Same(s, VisitAddress(s, account, jid, es))
  {
    hide ClearOut;
    if es != [] {
      var t, e := VisitAddress(s, account, jid, es[..|es| - 1]), es[|es| - 1];
      VisitSame(s, account, jid, es[..|es| - 1]);
      if e in t.entries && jid in t.byJid && t.byJid[jid] != [] {
        ClearOutSame(t, e, t.byJid[jid][0], true);
      }
    }
  }

  lemma {:induction false} VisitsSame(s: Roster, account: int, host: string, js: seq<string>)
    ensures Same(s, VisitAddresses(s, account, host, js))
  {
    hide VisitAddress;
    if js != [] {
      var t, j := VisitAddresses(s, account, host, js[..|js| - 1]), js[|js| - 1];
      VisitsSame(s, account, host, js[..|js| - 1]);
      if j in t.byJid {
        VisitSame(t, account, j, t.byJid[j]);
      }
    }
  }

  lemma {:induction false} DropGroupsSame(s: Roster, gs: seq<int>)
    ensures Same(s, DropEmptyGroups(s, gs))
  {
    hide GroupRemove;
    if gs != [] {
      DropGroupsSame(s, gs[..|gs| - 1]);
      GroupRemoveSame(DropEmptyGroups(s, gs[..|gs| - 1]), gs[|gs| - 1]);
    }
  }

  lemma SubscriptionSame(s: Roster, account: int, jid: string, kind: SubscriptionType, nick: string, reason: string)
    ensures Same(s, Subscription(s, account, jid, kind, nick, reason))
  {
    hide FindEntry;
    hide FindGroup;
  }

  lemma ChatSame(s: Roster, account: int, jid: string)
    ensures Same(s, ChatFrom(s, account, jid))
  {
    hide FindEntry;
    hide FindGroup;
  }

  lemma ChangeContactSame(s: Roster, e: int, from: int, to: int)
    ensures Same(s, EntryChangeContact(s, e, from, to))
  {
  }

  lemma EntryRemoveSame(s: Roster, e: int, toServer: bool)
    ensures Same(s, EntryRemove(s, e, toServer))
  {
  }

  lemma OtherSame(s: Roster, ev: Event)
    requires Legal(s, ev) && !UserCommand(ev) && !ev.Connection?
    ensures Same(s, Step(s, ev))
  {
    hide EntryAdd;
    hide EntryRemove;
    hide EntryChangeContact;
    hide ItemAdded;
    hide ItemUpdated;
    hide ItemRemoved;
    hide Subscription;
    hide ChatFrom;
    hide TagChanged;
    hide MintTag;
    hide Sweep;
    hide VisitAddresses;
    hide DropEmptyGroups;
    match ev
    case AddEntry(c, account, jid, nick, reason, pos) => EntryAddSame(s, c, account, jid, nick, reason, pos);
    case RemoveEntry(e) => EntryRemoveSame(s, e, true);
    case ChangeContact(e, from, to) => ChangeContactSame(s, e, from, to);
    case PushAdded(account, item) => ItemAddedSame(s, account, item);
    case PushUpdated(account, item) => ItemUpdatedSame(s, account, item);
    case PushRemoved(account, item) => ItemRemovedSame(s, account, item);
    case SubscriptionReceived(account, jid, kind, nick, reason) => SubscriptionSame(s, account, jid, kind, nick, reason);
    case ChatReceived(account, jid) => ChatSame(s, account, jid);
    case TagReported(account, jid, tag, changed) => TagChangedSame(s, account, jid, tag, changed);
    case TagMinted(c, uuid, changed) => MintTagSame(s, c, uuid, changed);
    case DeleteAccount(account) => SweepSame(s, account, Ascending(s.entries.Keys));
    case DeleteTransport(account, host) => VisitsSame(s, account, host, KeyList(s.byJid, Alphabetic(s.byJid.Keys)));
    case CleanUpGroups => DropGroupsSame(s, s.order);
  }

  /** Only a connection report changes what is known of an account, and of that account alone. */
  lemma StepActive(s: Roster, ev: Event, account: int)
    requires Legal(s, ev)
    ensures account in Step(s, ev).active <==> if ev.Connection? && ev.account == account then ev.on else account in s.active
  {
    hide Step;
    if UserCommand(ev) {
      if GroupCommand(ev) { GroupCommandSame(s, ev); } else { ContactCommandSame(s, ev); }
    } else if ev.Connection? {
      StepConnection(s, ev);
    } else {
      OtherSame(s, ev);
    }
  }

  lemma StepConnection(s: Roster, ev: Event)
    requires ev.Connection?
    ensures Step(s, ev).active == if ev.on then s.active + {ev.account} else s.active - {ev.account}
  {
  }

  predicate Reports(ev: Event, account: int) { ev.Connection? && ev.account == account }

  /** The last report about the account in the run said that it is connected. */
  ghost predicate LastSaidOn(events: seq<Event>, account: int) {
    exists i :: 0 <= i < |events| && Reports(events[i], account) && events[i].on && forall k :: i < k < |events| ==> !Reports(events[k], account)
  }

  lemma LastSaidNext(events: seq<Event>, ev: Event, account: int)
    ensures LastSaidOn(events + [ev], account) <==> if Reports(ev, account) then ev.on else LastSaidOn(events, account)
  {
    var all, n := events + [ev], |events|;
    assert all[n] == ev;
    if !Reports(ev, account) {
      if LastSaidOn(events, account) {
        var i :| 0 <= i < n && Reports(events[i], account) && events[i].on && forall k :: i < k < n ==> !Reports(events[k], account);
        assert all[i] == events[i];
      }
      if LastSaidOn(all, account) {
        var i :| 0 <= i < n + 1 && Reports(all[i], account) && all[i].on && forall k :: i < k < n + 1 ==> !Reports(all[k], account);
        assert events[i] == all[i] && forall k :: i < k < n ==> events[k] == all[k];
      }
    }
  }

  /** After every run, exactly those accounts count as connected whose last report said so. */
  lemma {:induction false} ConnectedAsReported(states: seq<Roster>, events: seq<Event>, account: int)
    requires IsRun(states, events)
    ensures account in states[|events|].active <==> LastSaidOn(events, account)
  {
    hide Step;
    hide LastSaidOn;
    hide Reports;
    if events == [] {
      NothingSaid(account);
      AnnounceQuiet(INITIAL, INITIAL.order);
    } else {
      var n := |events| - 1;
      assert events == events[..n] + [events[n]];
      ConnectedAsReported(states[..n + 1], events[..n], account);
      LastSaidNext(events[..n], events[n], account);
      StepActive(states[n], events[n], account);
      ReportIs(events[n], account);
    }
  }

  lemma ReportIs(ev: Event, account: int)
    ensures Reports(ev, account) <==> ev.Connection? && ev.account == account
  {
  }

  lemma NothingSaid(account: int)
    ensures !LastSaidOn([], account)
  {
  }
}
