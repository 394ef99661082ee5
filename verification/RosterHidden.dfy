/** A contact shown under "not in list" stays there until it is removed or a roster push adopts it. */
module RosterHidden {
  import opened Lists
  import opened RosterModel
  import opened RosterInvariant
  import opened RosterMirror
  import opened RosterOps
  import opened RosterRuns

  /** Contact `c` has "not in list" as its first group, or is gone for good. */
  ghost predicate Hidden(s: Roster, c: int) {
    && c < s.nextContact
    && 1 in s.groups && s.groups[1].kind == NotInList
    && (c in s.contacts ==> s.contacts[c].groups != [] && s.contacts[c].groups[0] == 1)
  }

  /** The parts `Hidden` looks at did not change. */
  ghost predicate SamePlaces(s: Roster, t: Roster) {
    t.contacts == s.contacts && t.groups == s.groups && t.nextContact == s.nextContact
  }

  lemma CommitKeeps(s: Roster, es: seq<int>, d: Edit)
    ensures SamePlaces(s, CommitEntries(s, es, d))
  {
    CommitEntriesContacts(s, es, d);
  }

  lemma {:induction false} CommitContactsKeeps(s: Roster, cs: seq<int>, d: Edit)
    ensures SamePlaces(s, CommitContacts(s, cs, d))
  {
    if cs != [] {
      var t := CommitContacts(s, cs[..|cs| - 1], d);
      CommitContactsKeeps(s, cs[..|cs| - 1], d);
      if cs[|cs| - 1] in t.contacts {
        CommitKeeps(t, t.contacts[cs[|cs| - 1]].entries, d);
      }
    }
  }

  lemma {:induction false} AnnounceKeeps(s: Roster, ids: seq<int>)
    ensures SamePlaces(s, Announce(s, ids))
  {
    if ids != [] {
      AnnounceKeeps(s, ids[..|ids| - 1]);
    }
  }

  lemma {:induction false} ReportContactsKeeps(s: Roster, was: seq<int>, now: seq<int>, n: nat)
    requires n <= |was| == |now|
    ensures SamePlaces(s, ReportMovedContacts(s, was, now, n))
  {
    if n > 0 {
      ReportContactsKeeps(s, was, now, n - 1);
    }
  }

  lemma {:induction false} ReportEntriesKeeps(s: Roster, es: seq<int>)
    ensures SamePlaces(s, ReportEntries(s, es)) && ReportEntries(s, es).byTag == s.byTag && ReportEntries(s, es).entries == s.entries
  {
    if es != [] {
      ReportEntriesKeeps(s, es[..|es| - 1]);
    }
  }

  lemma {:induction false} AdoptKeeps(s: Roster, ids: seq<int>, e: int, item: Item)
    requires e in s.entries
    ensures SamePlaces(s, AdoptGroups(s, ids, e, item))
  {
    if ids != [] {
      AdoptKeeps(s, ids[..|ids| - 1], e, item);
    }
  }

  // ---- operations -------------------------------------------------------------------------------

  lemma WithoutKeepsHead(s: seq<int>, x: int)
    requires s != [] && s[0] != x
    ensures Without(s, x) != [] && Without(s, x)[0] == s[0]
  {
  }

  lemma AddGroupHidden(s: Roster, d: int, g: int, c: int)
    requires Hidden(s, c)
    ensures Hidden(ContactAddGroup(s, d, g), c)
  {
    if d in s.contacts && g in s.groups {
      CommitKeeps(Link(s, d, g), s.contacts[d].entries, AddName(s.groups[g].name));
    }
  }

  lemma UnlinkHidden(s: Roster, d: int, g: int, c: int)
    requires Hidden(s, c) && d in s.contacts && g in s.groups && s.groups[g].kind != NotInList
    ensures Hidden(Unlink(s, d, g), c)
  {
    if d == c {
      WithoutKeepsHead(s.contacts[c].groups, g);
    }
  }

  lemma RemoveGroupHidden(s: Roster, d: int, g: int, c: int)
    requires Hidden(s, c)
    ensures Hidden(ContactRemoveGroup(s, d, g), c)
  {
    hide Unlink;
    hide CommitEntries;
    if d in s.contacts && g in s.groups && s.groups[g].kind != NotInList {
      UnlinkHidden(s, d, g, c);
      CommitKeeps(Unlink(s, d, g), s.contacts[d].entries, SwapNames(NamedIfUser(s.groups[g]), None));
    }
  }

  lemma ChangeGroupHidden(s: Roster, d: int, from: int, to: int, c: int)
    requires Hidden(s, c)
    ensures Hidden(ContactChangeGroup(s, d, from, to), c)
  {
    if TransferAllowed(s, d, from, to) {
      CommitKeeps(Link(Unlink(s, d, from), d, to), s.contacts[d].entries,
                  SwapNames(NamedIfUser(s.groups[from]), NamedIfUser(s.groups[to])));
    }
  }

  lemma {:induction false} RemoveFromAllHidden(s: Roster, cs: seq<int>, g: int, c: int)
    requires Hidden(s, c) && g in s.groups && s.groups[g].kind == User
    ensures Hidden(RemoveGroupFromAll(s, cs, g), c)
    ensures g in RemoveGroupFromAll(s, cs, g).groups ==> RemoveGroupFromAll(s, cs, g).groups[g].kind == User
  {
    if cs != [] {
      RemoveFromAllHidden(s, cs[..|cs| - 1], g, c);
      var t, d := RemoveGroupFromAll(s, cs[..|cs| - 1], g), cs[|cs| - 1];
      RemoveGroupHidden(t, d, g, c);
      if d in t.contacts && g in t.groups {
        CommitKeeps(Unlink(t, d, g), t.contacts[d].entries, SwapNames(NamedIfUser(t.groups[g]), None));
      }
    }
  }

  lemma GroupRemoveHidden(s: Roster, g: int, c: int)
    requires Hidden(s, c)
    ensures Hidden(GroupRemove(s, g), c)
  {
    if g in s.groups && s.groups[g].kind == User {
      RemoveFromAllHidden(s, s.groups[g].contacts, g, c);
    }
  }

  lemma GroupAddHidden(s: Roster, name: string, pos: int, c: int)
    requires Hidden(s, c) && s.nextGroup > 1
    ensures Hidden(GroupAdd(s, name, pos), c)
  {
  }

  lemma ContactAddHidden(s: Roster, g: int, name: string, pos: int, c: int)
    requires Hidden(s, c)
    ensures Hidden(ContactAdd(s, g, name, pos), c)
  {
    if name != "" && g in s.groups {
      var d := FindContact(s, name, s.groups[g].name, s.groups[g].kind);
      if d != -1 {
        AddGroupHidden(s, d, g, c);
      }
    }
  }

  lemma {:induction false} DropHidden(s: Roster, d: int, gs: seq<int>, c: int)
    requires Hidden(s, c)
    ensures Hidden(DropFromGroups(s, d, gs), c) && DropFromGroups(s, d, gs).contacts == s.contacts
  {
    if gs != [] {
      DropHidden(s, d, gs[..|gs| - 1], c);
    }
  }

  lemma {:induction false} RemoveEntriesHidden(s: Roster, es: seq<int>, toServer: bool, c: int)
    requires Hidden(s, c)
    ensures Hidden(RemoveEntries(s, es, toServer), c)
  {
    if es != [] {
      RemoveEntriesHidden(s, es[..|es| - 1], toServer, c);
    }
  }

  lemma ContactRemoveHidden(s: Roster, d: int, toServer: bool, c: int)
    requires Hidden(s, c)
    ensures Hidden(ContactRemove(s, d, toServer), c)
  {
    if d in s.contacts {
      var t := RemoveEntries(s, s.contacts[d].entries, toServer);
      RemoveEntriesHidden(s, s.contacts[d].entries, toServer, c);
      if d in t.contacts {
        DropHidden(t, d, t.contacts[d].groups, c);
      }
    }
  }

  lemma RehomeHidden(s: Roster, e: int, to: int, c: int)
    requires Hidden(s, c) && e in s.entries
    ensures Hidden(Rehome(s, e, to), c)
  {
    var from := s.entries[e].contact;
    if from != to && from in s.contacts && to in s.contacts {
      ContactRemoveHidden(MoveEntry(s, e, to), from, true, c);
    }
  }

  lemma ChangeContactHidden(s: Roster, e: int, from: int, to: int, c: int)
    requires Hidden(s, c)
    ensures Hidden(EntryChangeContact(s, e, from, to), c)
  {
  }

  lemma FreshHidden(s: Roster, v: Entry, x: Stanza, y: Stanza, pos: int, c: int)
    requires Hidden(s, c) && v.contact in s.contacts
    ensures Hidden(NewEntry(Send(Send(s, x), y), v, pos), c) && Hidden(NewEntry(s, v, pos), c)
  {
  }

  lemma SendHidden(s: Roster, x: Stanza, c: int)
    requires Hidden(s, c)
    ensures Hidden(Send(s, x), c)
  {
  }

  lemma EntryAddHidden(s: Roster, d: int, account: int, jid: string, nick: string, reason: string, pos: int, c: int)
    requires Hidden(s, c)
    ensures Hidden(EntryAdd(s, d, account, jid, nick, reason, pos), c)
  {
    hide Hidden;
    hide FindEntry;
    hide InList;
    hide NewEntry;
    hide EntryChangeContact;
    hide ContactRemove;
    var e := FindEntry(s, account, jid);
    if jid != "" && d in s.contacts {
      if e == -1 {
        var v := FreshEntry(s, d, account, jid);
        FreshHidden(s, v, Commit(v), Subscribe(account, jid, nick, reason), pos, c);
      } else if s.entries[e].contact in s.contacts && s.entries[e].contact != d {
        var from := s.entries[e].contact;
        var t := EntryChangeContact(s, e, from, d);
        ChangeContactHidden(s, e, from, d, c);
        ContactRemoveHidden(t, from, true, c);
        var u := if from in t.contacts && t.contacts[from].entries == [] then ContactRemove(t, from, true) else t;
        SendHidden(u, Subscribe(account, s.entries[e].jid, nick, reason), c);
      }
    }
  }

  lemma PushUpdatedHidden(s: Roster, account: int, item: Item, c: int)
    requires Hidden(s, c) && s.nextGroup > 1
    ensures Hidden(ItemUpdated(s, account, item), c)
  {
    var e := FindEntry(s, account, item.jid);
    if e != -1 && ChangesGroup(s.entries[e], item) {
      var v := UpdatedEntry(s.entries[e], item);
      GroupAddHidden(SetEntry(s, e, v), PushedGroup(item), -1, c);
      var t, g := EnsureGroup(SetEntry(s, e, v), item), EnsuredGroup(s, item);
      if g in t.groups {
        ContactAddHidden(t, g, v.name, -1, c);
        var found := FindContact(t, v.name, t.groups[g].name, t.groups[g].kind);
        var u := if found != -1 then t else ContactAdd(t, g, v.name, -1);
        var to := if found != -1 then found else ContactAddId(t, g, v.name);
        if e in u.entries {
          RehomeHidden(u, e, to, c);
        }
      }
    }
  }

  /** A push adopting contact `d` leaves another one hidden. */
  lemma AdoptHidden(t: Roster, d: int, g: int, e: int, item: Item, c: int)
    requires Hidden(t, c) && d in t.contacts && g in t.groups && e in t.entries && d != c
    ensures var u := Queue(Link(Unlink(t, d, 1), d, g), ContactGroupChanged(d, 1, g));
            Hidden(AdoptGroups(SetEntry(u, e, u.entries[e].(sub := item.sub, ask := item.ask)), u.contacts[d].entries, e, item), c)
  {
    var u := Queue(Link(Unlink(t, d, 1), d, g), ContactGroupChanged(d, 1, g));
    var w := SetEntry(u, e, u.entries[e].(sub := item.sub, ask := item.ask));
    assert Hidden(w, c);
    AdoptKeeps(w, u.contacts[d].entries, e, item);
  }

  lemma EnsureGroupKeeps(s: Roster, item: Item, c: int)
    requires Hidden(s, c) && s.nextGroup > 1
    ensures Hidden(EnsureGroup(s, item), c) && EnsureGroup(s, item).entries == s.entries
  {
    GroupAddHidden(s, PushedGroup(item), -1, c);
  }

  lemma NewEntryHidden(s: Roster, v: Entry, c: int)
    requires Hidden(s, c) && v.contact in s.contacts
    ensures Hidden(NewEntry(s, v, -1), c)
  {
  }

  /** A push that adopts a hidden contact other than `c`, or none. */
  lemma PushAddedHidden(s: Roster, account: int, item: Item, c: int)
    requires Inv(s) && ItemOk(item) && Hidden(s, c) && s.nextGroup > 1 && 0 <= c
    requires FindEntry(s, account, item.jid) != -1 ==> s.entries[FindEntry(s, account, item.jid)].contact != c
    ensures Hidden(ItemAdded(s, account, item), c)
  {
    hide Hidden;
    hide InvBut;
    hide AdoptGroups;
    hide NewEntry;
    hide ContactAdd;
    hide EnsureGroup;
    hide FindEntry;
    hide EnsuredGroup;
    var e := FindEntry(s, account, item.jid);
    if e == -1 || !InList(s, s.entries[e].contact) {
      EnsureGroupKeeps(s, item, c);
      EnsureGroupInv(s, item);
      var g, t := EnsuredGroup(s, item), EnsureGroup(s, item);
      if g in t.groups {
        if e != -1 {
          var d := s.entries[e].contact;
          General(t, -1);
          if d in t.contacts && e in t.entries {
            AdoptHidden(t, d, g, e, item, c);
          }
        } else {
          var name := PushedEntry(account, item, 0).name;
          ContactAddHidden(t, g, name, -1, c);
          var found := FindContact(t, name, t.groups[g].name, t.groups[g].kind);
          var u := if found != -1 then t else ContactAdd(t, g, name, -1);
          var to := if found != -1 then found else ContactAddId(t, g, name);
          if to in u.contacts {
            NewEntryHidden(u, PushedEntry(account, item, to), c);
          }
        }
      }
    }
  }

  lemma RetagHidden(s: Roster, d: int, tag: string, es: seq<int>, c: int)
    requires Hidden(s, c) && d in s.contacts
    ensures Hidden(ReportEntries(Retag(s, d, tag), es), c)
  {
    ReportEntriesKeeps(Retag(s, d, tag), es);
  }

  lemma ReportHidden(s: Roster, e: int, c: int)
    requires Hidden(s, c)
    ensures Hidden(ReportEntry(s, e), c)
  {
  }

  lemma TagChangedHidden(s: Roster, account: int, jid: string, tag: string, changed: set<int>, c: int)
    requires Hidden(s, c)
    ensures Hidden(TagChanged(s, account, jid, tag, changed), c)
  {
    hide Hidden;
    hide ReportEntry;
    hide ReportEntries;
    hide ContactAdd;
    hide ContactAddId;
    hide Rehome;
    hide FindEntry;
    hide TagTarget;
    hide Retag;
    var e := FindEntry(s, account, jid);
    if e != -1 && s.entries[e].contact in s.contacts {
      ReportHidden(s, e, c);
      if s.contacts[s.entries[e].contact].groups != [] {
        var g, name := s.contacts[s.entries[e].contact].groups[0], s.entries[e].name;
        var found := TagTarget(s, e, tag);
        ContactAddHidden(s, g, name, -1, c);
        var t := if found != -1 then s else ContactAdd(s, g, name, -1);
        var to := if found != -1 then found else ContactAddId(s, g, name);
        if to in t.contacts && e in t.entries {
          RetagHidden(t, to, tag, Changed(t.contacts[to].entries, changed), c);
          var u := if found != -1 || tag == "" then t
                   else ReportEntries(Retag(t, to, tag), Changed(t.contacts[to].entries, changed));
          if e in u.entries {
            RehomeHidden(u, e, to, c);
            ReportHidden(Rehome(u, e, to), e, c);
          }
        }
      }
    }
  }

  lemma EntryRemoveHidden(s: Roster, e: int, toServer: bool, c: int)
    requires Hidden(s, c)
    ensures Hidden(EntryRemove(s, e, toServer), c)
  {
  }

  lemma ClearOutHidden(s: Roster, e: int, gone: int, toServer: bool, c: int)
    requires Hidden(s, c) && e in s.entries
    ensures Hidden(ClearOut(s, e, gone, toServer), c)
  {
    hide Hidden;
    hide GroupRemove;
    hide ContactRemove;
    hide EntryRemove;
    hide FindGroup;
    var d, main := s.entries[e].contact, s.entries[e].mainGroup;
    EntryRemoveHidden(s, gone, toServer, c);
    var t := EntryRemove(s, gone, toServer);
    var u := if d in t.contacts && t.contacts[d].entries == [] then ContactRemove(t, d, toServer) else t;
    ContactRemoveHidden(t, d, toServer, c);
    GroupRemoveHidden(u, if main == "" then -1 else FindGroup(s.order, s.groups, User, main), c);
  }

  lemma {:induction false} VisitAddressHidden(s: Roster, account: int, jid: string, es: seq<int>, c: int)
    requires Hidden(s, c)
    ensures Hidden(VisitAddress(s, account, jid, es), c)
  {
    hide ClearOut;
    if es != [] {
      var t, e := VisitAddress(s, account, jid, es[..|es| - 1]), es[|es| - 1];
      VisitAddressHidden(s, account, jid, es[..|es| - 1], c);
      if e in t.entries && jid in t.byJid && t.byJid[jid] != [] {
        ClearOutHidden(t, e, t.byJid[jid][0], true, c);
      }
    }
  }

  lemma {:induction false} VisitAddressesHidden(s: Roster, account: int, host: string, js: seq<string>, c: int)
    requires Hidden(s, c)
    ensures Hidden(VisitAddresses(s, account, host, js), c)
  {
    if js != [] {
      var t, j := VisitAddresses(s, account, host, js[..|js| - 1]), js[|js| - 1];
      VisitAddressesHidden(s, account, host, js[..|js| - 1], c);
      if j in t.byJid {
        VisitAddressHidden(t, account, j, t.byJid[j], c);
      }
    }
  }

  lemma {:induction false} SweepHidden(s: Roster, account: int, es: seq<int>, c: int)
    requires Hidden(s, c)
    ensures Hidden(Sweep(s, account, es), c)
  {
    if es != [] {
      SweepHidden(s, account, es[..|es| - 1], c);
      var t, e := Sweep(s, account, es[..|es| - 1]), es[|es| - 1];
      if e in t.entries {
        ClearOutHidden(t, e, e, false, c);
      }
    }
  }

  lemma {:induction false} DropGroupsHidden(s: Roster, gs: seq<int>, c: int)
    requires Hidden(s, c)
    ensures Hidden(DropEmptyGroups(s, gs), c)
  {
    if gs != [] {
      DropGroupsHidden(s, gs[..|gs| - 1], c);
      GroupRemoveHidden(DropEmptyGroups(s, gs[..|gs| - 1]), gs[|gs| - 1], c);
    }
  }

  // ---- events and runs --------------------------------------------------------------------------

  /** The event is a push adding an entry that contact `c` holds. */
  predicate Adopts(s: Roster, ev: Event, c: int) {
    ev.PushAdded? &&
    var e := FindEntry(s, ev.account, ev.item.jid);
    e != -1 && s.entries[e].contact == c
  }

  lemma RenameGroupHidden(s: Roster, g: int, name: string, c: int)
    requires Hidden(s, c)
    ensures Hidden(GroupRename(s, g, name), c)
  {
    if g in s.groups {
      var t := SetGroup(s, g, s.groups[g].(name := name));
      CommitContactsKeeps(t, s.groups[g].contacts, RenameName(s.groups[g].name, name));
    }
  }

  lemma MoveGroupHidden(s: Roster, g: int, at: nat, c: int)
    requires Hidden(s, c) && at < |s.order|
    ensures Hidden(GroupMove(s, g, at), c)
  {
    if g in s.order {
      ReportMovedKeeps(s.(order := Moved(s.order, IndexOf(s.order, g), at)), s.order, |s.order|);
    }
  }

  lemma RenameContactHidden(s: Roster, d: int, name: string, c: int)
    requires Hidden(s, c)
    ensures Hidden(ContactRename(s, d, name), c) && Hidden(ContactSetAlt(s, d, name), c)
  {
    if d in s.contacts {
      CommitKeeps(SetContact(s, d, s.contacts[d].(name := name)), s.contacts[d].entries, SetName(name));
    }
  }

  lemma MoveContactHidden(s: Roster, d: int, at: nat, c: int)
    requires Hidden(s, c) && MoveOk(s, d, at)
    ensures Hidden(ContactMove(s, d, at), c)
  {
    if d in s.contacts {
      var g := s.contacts[d].groups[0];
      var was := s.groups[g].contacts;
      var now := Moved(was, IndexOf(was, d), at);
      ReportContactsKeeps(SetGroup(s, g, s.groups[g].(contacts := now)), was, now, |was|);
    }
  }

  lemma CommandHidden(s: Roster, ev: Event, c: int)
    requires Hidden(s, c) && Legal(s, ev) && UserCommand(ev) && s.nextGroup > 1
    ensures Hidden(Step(s, ev), c)
  {
    hide GroupAdd;
    hide GroupRemove;
    hide GroupRename;
    hide GroupMove;
    hide ContactAdd;
    hide ContactRemove;
    hide ContactRename;
    hide ContactMove;
    hide ContactAddGroup;
    hide ContactChangeGroup;
    hide ContactRemoveGroup;
    hide Hidden;
    match ev
    case Start =>
      AnnounceKeeps(s, s.order);
      SameHidden(s, RosterStart(s), c);
    case AddGroup(name, pos) => GroupAddHidden(s, name, pos, c);
    case RemoveGroup(g) => GroupRemoveHidden(s, g, c);
    case RenameGroup(g, name) => RenameGroupHidden(s, g, name, c);
    case MoveGroup(g, at) => MoveGroupHidden(s, g, at, c);
    case AddContact(g, name, pos) => ContactAddHidden(s, g, name, pos, c);
    case RemoveContact(d) => ContactRemoveHidden(s, d, true, c);
    case RenameContact(d, name) => RenameContactHidden(s, d, name, c);
    case SetAlt(d, name) => RenameContactHidden(s, d, name, c);
    case MoveContact(d, at) => MoveContactHidden(s, d, at, c);
    case AddToGroup(d, g) => AddGroupHidden(s, d, g, c);
    case ChangeGroup(d, from, to) => ChangeGroupHidden(s, d, from, to, c);
    case RemoveFromGroup(d, g) => RemoveGroupHidden(s, d, g, c);
  }

  lemma SameHidden(s: Roster, t: Roster, c: int)
    requires Hidden(s, c) && SamePlaces(s, t)
    ensures Hidden(t, c)
  {
  }

  lemma PushRemovedHidden(s: Roster, account: int, item: Item, c: int)
    requires Hidden(s, c)
    ensures Hidden(ItemRemoved(s, account, item), c)
  {
    hide FindEntry;
    hide ContactRemove;
    var e := FindEntry(s, account, item.jid);
    if e != -1 {
      ContactRemoveHidden(DeleteEntry(s, e), s.entries[e].contact, true, c);
    }
  }

  lemma AddedHidden(s: Roster, account: int, jid: string, contactName: string, entryName: string, c: int)
    requires Hidden(s, c)
    ensures Hidden(AddHidden(s, account, jid, contactName, entryName), c)
  {
  }

  lemma MintHidden(s: Roster, d: int, uuid: string, changed: set<int>, c: int)
    requires Hidden(s, c)
    ensures Hidden(MintTag(s, d, uuid, changed), c)
  {
    if d in s.contacts {
      RetagHidden(s, d, uuid, Changed(s.contacts[d].entries, changed), c);
    }
  }

  lemma EntryCommandHidden(s: Roster, ev: Event, c: int)
    requires Hidden(s, c) && (ev.AddEntry? || ev.RemoveEntry? || ev.ChangeContact?)
    ensures Hidden(Step(s, ev), c)
  {
    hide Hidden;
    hide EntryAdd;
    hide EntryRemove;
    hide EntryChangeContact;
    match ev
    case AddEntry(d, account, jid, nick, reason, pos) => EntryAddHidden(s, d, account, jid, nick, reason, pos, c);
    case RemoveEntry(e) => EntryRemoveHidden(s, e, true, c);
    case ChangeContact(e, from, to) => ChangeContactHidden(s, e, from, to, c);
  }

  lemma QueueHidden(s: Roster, n: Note, c: int)
    requires Hidden(s, c)
    ensures Hidden(Queue(s, n), c)
  {
  }

  lemma SubscriptionHidden(s: Roster, account: int, jid: string, kind: SubscriptionType, nick: string, reason: string, c: int)
    requires Hidden(s, c)
    ensures Hidden(Subscription(s, account, jid, kind, nick, reason), c)
  {
    hide FindEntry;
    hide AddHidden;
    hide Hidden;
    hide Queue;
    var e := FindEntry(s, account, jid);
    var name := if nick == "" then jid else nick;
    AddedHidden(s, account, jid, name, name, c);
    var t := if e != -1 then s else AddHidden(s, account, jid, name, name);
    var id := if e != -1 then e else s.nextEntry;
    QueueHidden(t, AuthRequest(id, nick, reason), c);
    QueueHidden(t, AuthGranted(id), c);
    QueueHidden(t, AuthLost(id), c);
  }

  lemma RequestHidden(s: Roster, ev: Event, c: int)
    requires Hidden(s, c) && Legal(s, ev) && (ev.SubscriptionReceived? || ev.ChatReceived? || ev.Connection?)
    ensures Hidden(Step(s, ev), c)
  {
    hide FindEntry;
    hide AddHidden;
    hide Subscription;
    match ev
    case SubscriptionReceived(account, jid, kind, nick, reason) => SubscriptionHidden(s, account, jid, kind, nick, reason, c);
    case ChatReceived(account, jid) => AddedHidden(s, account, jid, jid, "", c);
    case Connection(account, on) =>
  }

  lemma StepHidden(s: Roster, ev: Event, c: int)
    requires Inv(s) && Hidden(s, c) && Legal(s, ev) && s.nextGroup > 1 && 0 <= c && !Adopts(s, ev, c)
    ensures Hidden(Step(s, ev), c)
  {
    hide Hidden;
    hide InvBut;
    if UserCommand(ev) {
      CommandHidden(s, ev, c);
    } else if ev.AddEntry? || ev.RemoveEntry? || ev.ChangeContact? {
      EntryCommandHidden(s, ev, c);
    } else if ev.SubscriptionReceived? || ev.ChatReceived? || ev.Connection? {
      RequestHidden(s, ev, c);
    } else {
      match ev
      case PushAdded(account, item) => PushAddedHidden(s, account, item, c);
      case PushUpdated(account, item) => PushUpdatedHidden(s, account, item, c);
      case PushRemoved(account, item) => PushRemovedHidden(s, account, item, c);
      case TagReported(account, jid, tag, changed) => TagChangedHidden(s, account, jid, tag, changed, c);
      case TagMinted(d, uuid, changed) => MintHidden(s, d, uuid, changed, c);
      case DeleteAccount(account) => SweepHidden(s, account, Ascending(s.entries.Keys), c);
      case DeleteTransport(account, host) => VisitAddressesHidden(s, account, host, KeyList(s.byJid, Alphabetic(s.byJid.Keys)), c);
      case CleanUpGroups => DropGroupsHidden(s, s.order, c);
    }
  }

  predicate FirstIsHidden(v: Contact) { v.groups != [] && v.groups[0] == 1 }

  /** Once a contact's first group is "not in list", that stays so as long as the contact exists and
      no roster push adds one of its entries, whatever else happens. */
  lemma {:induction false} HiddenUntilAdopted(states: seq<Roster>, events: seq<Event>, i: nat, c: int)
    requires IsRun(states, events) && i <= |events|
    requires c in states[i].contacts && FirstIsHidden(states[i].contacts[c])
    requires forall k :: i <= k < |events| ==> !Adopts(states[k], events[k], c)
    ensures c in states[|events|].contacts ==> FirstIsHidden(states[|events|].contacts[c])
  {
    StaysHidden(states, events, i, c);
  }

  lemma {:induction false} StaysHidden(states: seq<Roster>, events: seq<Event>, i: nat, c: int)
    requires IsRun(states, events) && i <= |events|
    requires c in states[i].contacts && FirstIsHidden(states[i].contacts[c])
    requires forall k :: i <= k < |events| ==> !Adopts(states[k], events[k], c)
    ensures Hidden(states[|events|], c) && 0 <= c
  {
    hide Step;
    hide Hidden;
    hide SoundBut;
    var n := |events| - 1;
    if i == |events| {
      RunSound(states, events);
      SoundHidden(states[i], c);
    } else {
      StaysHidden(states[..n + 1], events[..n], i, c);
      RunSound(states[..n + 1], events[..n]);
      SoundCounts(states[n]);
      StepHidden(states[n], events[n], c);
    }
  }

  lemma SoundCounts(s: Roster)
    requires Sound(s)
    ensures s.nextGroup > 1 && Inv(s)
  {
  }

  lemma SoundHidden(s: Roster, c: int)
    requires Sound(s) && c in s.contacts && FirstIsHidden(s.contacts[c])
    ensures Hidden(s, c) && 0 <= c
  {
  }
}
