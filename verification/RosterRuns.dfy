/** Runs of the roster: what holds after every sequence of events, and what single events promise. */
module RosterRuns {
  import opened Lists
  import opened RosterModel
  import opened RosterInvariant
  import opened RosterMirror
  import opened RosterOps

  // ---- deleting an account ----------------------------------------------------------------------

  /** `t` is `s` after some entries of the account, listed in `done`, were swept out. */
  ghost predicate Swept(s: Roster, t: Roster, account: int, done: seq<int>) {
    && t.sent == s.sent
    && (forall e :: e in t.entries <==> e in s.entries && !(s.entries[e].account == account && e in done))
    && (forall e <- t.entries :: t.entries[e] == s.entries[e])
    && ContactsSwept(s, t)
    && GroupsSwept(s, t)
  }

  /** Exactly the contacts that lost their last entry are gone, and the others keep all but entries. */
  ghost predicate ContactsSwept(s: Roster, t: Roster) {
    && (forall c <- t.contacts :: c in s.contacts && t.contacts[c] == s.contacts[c].(entries := t.contacts[c].entries))
    && (forall c <- s.contacts :: c !in t.contacts <==> LostAll(s, t, c))
  }

  predicate LostAll(s: Roster, t: Roster, c: int)
    requires c in s.contacts
  {
    s.contacts[c].entries != [] && forall e <- s.contacts[c].entries :: e !in t.entries
  }

  /** Only user groups all of whose contacts are gone may be gone, and the others keep kind and name. */
  ghost predicate GroupsSwept(s: Roster, t: Roster) {
    && (forall g <- t.groups :: g in s.groups && t.groups[g].kind == s.groups[g].kind && t.groups[g].name == s.groups[g].name)
    && (forall g <- s.groups :: g !in t.groups ==> s.groups[g].kind == User && forall c <- s.groups[g].contacts :: c !in t.contacts)
    && (forall g, c :: g in t.groups && c in t.groups[g].contacts ==> c in s.groups[g].contacts)
    && (forall g, c :: g in t.groups && c in s.groups[g].contacts && c in t.contacts ==> c in t.groups[g].contacts)
  }

  /** What sweeping one entry does, step by step. */
  lemma SweepEntryEffect(s: Roster, account: int, e: int)
    requires Inv(s) && e in s.entries && s.entries[e].account == account
    ensures var t := SweepEntry(s, account, e);
            Inv(t) && t.sent == s.sent && t.entries == s.entries - {e} && t.byJid == DropIndexed(s.byJid, s.entries[e].jid, e)
            && ContactsSwept(s, t) && GroupsSwept(s, t)
  {
    hide InvBut;
    var c, main := s.entries[e].contact, s.entries[e].mainGroup;
    var g := if main == "" then -1 else FindGroup(s.order, s.groups, User, main);
    KnownEntry(s, e);
    DeleteEntryInv(s, e);
    var t := DeleteEntry(s, e);
    EntryDeleted(s, e);
    if t.contacts[c].entries == [] {
      DeleteContactInv(t, c);
      ContactDeleted(s, t, e, c);
    }
    var u := if t.contacts[c].entries == [] then DeleteContact(t, c) else t;
    assert u.sent == s.sent && u.entries == s.entries - {e} && u.byJid == t.byJid;
    assert RemoveEntries(t, [], false) == t;
    if g != -1 && g in u.groups && u.groups[g].contacts == [] && u.groups[g].kind == User {
      KnownGroup(u, g, -1);
      DeleteGroupInv(u, g);
      GroupDeleted(s, u, g);
    }
  }

  lemma EntryDeleted(s: Roster, e: int)
    requires Inv(s) && e in s.entries
    ensures var t := DeleteEntry(s, e); var c := s.entries[e].contact;
            c in t.contacts && GroupsSwept(s, t) && (t.contacts[c].entries != [] ==> ContactsSwept(s, t))
  {
    hide InvBut;
    var t, c := DeleteEntry(s, e), s.entries[e].contact;
    KnownEntry(s, e);
    if t.contacts[c].entries != [] {
      forall d | d in s.contacts ensures d in t.contacts && !LostAll(s, t, d) {
        if d == c {
          var f := Head(t.contacts[c].entries);
          KnownContact(s, c);
          assert f in s.contacts[c].entries && f != e;
        } else if s.contacts[d].entries != [] {
          var f := Head(s.contacts[d].entries);
          KnownContact(s, d);
          assert f in t.entries;
        }
      }
    }
  }

  lemma OnlyMember(s: seq<int>, x: int)
    requires Without(s, x) == []
    ensures forall f <- s :: f == x
  {
  }

  lemma ContactDeleted(s: Roster, t: Roster, e: int, c: int)
    requires Inv(s) && e in s.entries && c == s.entries[e].contact && t == DeleteEntry(s, e)
    requires c in t.contacts && t.contacts[c].entries == []
    ensures ContactsSwept(s, DeleteContact(t, c)) && GroupsSwept(s, DeleteContact(t, c))
    ensures DeleteContact(t, c).entries == t.entries && DeleteContact(t, c).sent == t.sent && DeleteContact(t, c).byJid == t.byJid
  {
    hide InvBut;
    var u := DeleteContact(t, c);
    DropFromGroupsShape(t, c, t.contacts[c].groups);
    KnownEntry(s, e);
    forall d | d in s.contacts ensures d !in u.contacts <==> LostAll(s, u, d) {
      if d == c {
        OnlyMember(s.contacts[c].entries, e);
      } else if s.contacts[d].entries != [] {
        var f := Head(s.contacts[d].entries);
        KnownContact(s, d);
        assert f in u.entries;
      }
    }
  }

  lemma GroupDeleted(s: Roster, u: Roster, g: int)
    requires Inv(u) && ContactsSwept(s, u) && GroupsSwept(s, u) && g in u.groups && u.groups[g].contacts == [] && u.groups[g].kind == User
    ensures GroupRemove(u, g) == DeleteGroup(u, g)
    ensures ContactsSwept(s, DeleteGroup(u, g)) && GroupsSwept(s, DeleteGroup(u, g))
  {
    hide InvBut;
    assert RemoveGroupFromAll(u, [], g) == u;
    var t := DeleteGroup(u, g);
    forall d | d in s.contacts ensures d !in t.contacts <==> LostAll(s, t, d) {
      assert LostAll(s, t, d) <==> LostAll(s, u, d);
    }
  }

  lemma ContactsSweptTwice(s: Roster, t: Roster, u: Roster)
    requires ContactsSwept(s, t) && ContactsSwept(t, u)
    requires EntriesOk(s.contacts, s.entries) && EntriesOk(t.contacts, t.entries)
    requires (forall e <- t.entries :: e in s.entries && t.entries[e] == s.entries[e]) && (forall e <- u.entries :: e in t.entries)
    ensures ContactsSwept(s, u)
  {
    forall c | c in s.contacts ensures c !in u.contacts <==> LostAll(s, u, c) {
      if c in t.contacts {
        forall e | e in s.contacts[c].entries && e in t.entries ensures e in t.contacts[c].entries {
          assert t.entries[e].contact == c;
          assert Mult(t.contacts[c].entries, e) == 1;
        }
        if t.contacts[c].entries != [] {
          var f := Head(t.contacts[c].entries);
          assert f in t.entries && t.entries[f].contact == c;
          assert Mult(s.contacts[c].entries, f) == 1;
          assert f in s.contacts[c].entries;
        }
        if LostAll(t, u, c) {
          assert LostAll(s, u, c);
        }
        if LostAll(s, u, c) {
          forall f | f in t.contacts[c].entries ensures f !in u.entries {
            assert Mult(s.contacts[c].entries, f) == 1;
          }
        }
      }
    }
  }

  lemma GroupsSweptTwice(s: Roster, t: Roster, u: Roster)
    requires GroupsSwept(s, t) && GroupsSwept(t, u) && forall c <- u.contacts :: c in t.contacts
    ensures GroupsSwept(s, u)
  {
  }

  lemma SweepOneMore(s: Roster, t: Roster, account: int, done: seq<int>, e: int)
    requires Inv(s) && Inv(t) && Swept(s, t, account, done) && e in t.entries && t.entries[e].account == account
    ensures Inv(SweepEntry(t, account, e)) && Swept(s, SweepEntry(t, account, e), account, done + [e])
  {
    hide InvBut;
    hide SweepEntry;
    SweepEntryEffect(t, account, e);
    var u := SweepEntry(t, account, e);
    ListsOk(s);
    ListsOk(t);
    ContactsSweptTwice(s, t, u);
    GroupsSweptTwice(s, t, u);
  }

  lemma {:induction false} SweepEffect(s: Roster, account: int, es: seq<int>)
    requires Inv(s)
    ensures Inv(Sweep(s, account, es)) && Swept(s, Sweep(s, account, es), account, es)
  {
    hide InvBut;
    hide ContactsSwept;
    hide GroupsSwept;
    if es != [] {
      var rest, e := es[..|es| - 1], es[|es| - 1];
      assert es == rest + [e];
      SweepEffect(s, account, rest);
      var t := Sweep(s, account, rest);
      if e in t.entries && t.entries[e].account == account {
        SweepOneMore(s, t, account, rest, e);
      }
    } else {
      NothingSwept(s);
    }
  }

  lemma ListsOk(s: Roster)
    requires Inv(s)
    ensures EntriesOk(s.contacts, s.entries)
  {
  }

  lemma NothingSwept(s: Roster)
    requires Inv(s)
    ensures ContactsSwept(s, s) && GroupsSwept(s, s)
  {
    hide InvBut;
    forall c | c in s.contacts ensures !LostAll(s, s, c) {
      KnownContact(s, c);
      if s.contacts[c].entries != [] {
        var f := Head(s.contacts[c].entries);
      }
    }
  }

  /** Contact `c` has entries, and all of them belong to the account. */
  predicate OnlyOf(s: Roster, c: int, account: int)
    requires c in s.contacts
  {
    s.contacts[c].entries != [] && forall e <- s.contacts[c].entries :: e in s.entries && s.entries[e].account == account
  }

  /** Deleting an account removes all its entries and no other, tells no server, deletes exactly the
      contacts that had entries of that account only, and of the groups only user groups none of
      whose contacts is left. Every other entry stays what it was, in the list of the same contact
      and in both indexes. */
  lemma RemoveAccountExact(s: Roster, account: int)
    requires Inv(s)
    ensures var t := RemoveAccount(s, account);
            && (forall e :: e in t.entries <==> e in s.entries && s.entries[e].account != account)
            && (forall e <- t.entries :: t.entries[e] == s.entries[e] && t.entries[e].contact in t.contacts
                  && e in t.contacts[t.entries[e].contact].entries && FindEntry(t, t.entries[e].account, t.entries[e].jid) == e)
            && (forall c <- s.contacts :: c !in t.contacts <==>
                  OnlyOf(s, c, account))
            && (forall g <- s.groups :: g !in t.groups ==> s.groups[g].kind == User && forall c <- s.groups[g].contacts :: c !in t.contacts)
            && t.sent == s.sent && Inv(t)
  {
    hide InvBut;
    var t := RemoveAccount(s, account);
    SweepEffect(s, account, Ascending(s.entries.Keys));
    forall e | e in t.entries
      ensures t.entries[e].contact in t.contacts && e in t.contacts[t.entries[e].contact].entries
      ensures FindEntry(t, t.entries[e].account, t.entries[e].jid) == e
    {
      KnownEntry(t, e);
      Findable(t, e);
    }
    forall c | c in s.contacts ensures LostAll(s, t, c) <==> OnlyOf(s, c, account) {
      KnownContact(s, c);
    }
  }

  lemma Findable(s: Roster, e: int)
    requires Inv(s) && e in s.entries
    ensures FindEntry(s, s.entries[e].account, s.entries[e].jid) == e
  {
    FindEntryExact(s, s.entries[e].account, s.entries[e].jid);
  }

  // ---- events and runs --------------------------------------------------------------------------

  datatype Event =
    | Start
    | AddGroup(name: string, pos: int)
    | RemoveGroup(g: int)
    | RenameGroup(g: int, name: string)
    | MoveGroup(g: int, at: nat)
    | AddContact(g: int, name: string, pos: int)
    | RemoveContact(c: int)
    | RenameContact(c: int, name: string)
    | SetAlt(c: int, name: string)
    | MoveContact(c: int, at: nat)
    | AddToGroup(c: int, g: int)
    | ChangeGroup(c: int, from: int, to: int)
    | RemoveFromGroup(c: int, g: int)
    | AddEntry(c: int, account: int, jid: string, nick: string, reason: string, pos: int)
    | RemoveEntry(e: int)
    | ChangeContact(e: int, from: int, to: int)
    | PushAdded(account: int, item: Item)
    | PushUpdated(account: int, item: Item)
    | PushRemoved(account: int, item: Item)
    | SubscriptionReceived(account: int, jid: string, kind: SubscriptionType, nick: string, reason: string)
    | ChatReceived(account: int, jid: string)
    | TagReported(account: int, jid: string, tag: string, changed: set<int>)
    | TagMinted(c: int, uuid: string, changed: set<int>)
    | Connection(account: int, on: bool)
    | DeleteAccount(account: int)
    | DeleteTransport(account: int, host: string)
    | CleanUpGroups

  /** What the code relies on without checking it. */
  predicate Legal(s: Roster, ev: Event) {
    match ev
    case MoveGroup(g, at) => at < |s.order|
    case MoveContact(c, at) => MoveOk(s, c, at)
    case PushAdded(account, item) => ItemOk(item) && AdoptOk(s, account, item)
    case PushUpdated(account, item) => ItemOk(item) && UpdateOk(s, account, item)
    case SubscriptionReceived(account, jid, kind, nick, reason) => jid != ""
    case ChatReceived(account, jid) => jid != ""
    case TagReported(account, jid, tag, changed) => TagOk(s, account, jid, tag)
    case TagMinted(c, uuid, changed) => uuid != "" && uuid !in s.byTag
    case _ => true
  }

  function Step(s: Roster, ev: Event): Roster
    requires Legal(s, ev)
  {
    match ev
    case Start => RosterStart(s)
    case AddGroup(name, pos) => GroupAdd(s, name, pos)
    case RemoveGroup(g) => GroupRemove(s, g)
    case RenameGroup(g, name) => GroupRename(s, g, name)
    case MoveGroup(g, at) => GroupMove(s, g, at)
    case AddContact(g, name, pos) => ContactAdd(s, g, name, pos)
    case RemoveContact(c) => ContactRemove(s, c, true)
    case RenameContact(c, name) => ContactRename(s, c, name)
    case SetAlt(c, name) => ContactSetAlt(s, c, name)
    case MoveContact(c, at) => ContactMove(s, c, at)
    case AddToGroup(c, g) => ContactAddGroup(s, c, g)
    case ChangeGroup(c, from, to) => ContactChangeGroup(s, c, from, to)
    case RemoveFromGroup(c, g) => ContactRemoveGroup(s, c, g)
    case AddEntry(c, account, jid, nick, reason, pos) => EntryAdd(s, c, account, jid, nick, reason, pos)
    case RemoveEntry(e) => EntryRemove(s, e, true)
    case ChangeContact(e, from, to) => EntryChangeContact(s, e, from, to)
    case PushAdded(account, item) => ItemAdded(s, account, item)
    case PushUpdated(account, item) => ItemUpdated(s, account, item)
    case PushRemoved(account, item) => ItemRemoved(s, account, item)
    case SubscriptionReceived(account, jid, kind, nick, reason) => Subscription(s, account, jid, kind, nick, reason)
    case ChatReceived(account, jid) => ChatFrom(s, account, jid)
    case TagReported(account, jid, tag, changed) => TagChanged(s, account, jid, tag, changed)
    case TagMinted(c, uuid, changed) => MintTag(s, c, uuid, changed)
    case Connection(account, on) => SetActive(s, account, on)
    case DeleteAccount(account) => RemoveAccount(s, account)
    case DeleteTransport(account, host) => RemoveTransport(s, account, host)
    case CleanUpGroups => DeleteEmptyGroups(s)
  }

  predicate UserCommand(ev: Event) {
    ev.Start? || ev.AddGroup? || ev.RemoveGroup? || ev.RenameGroup? || ev.MoveGroup? || ev.AddContact? || ev.RemoveContact?
    || ev.RenameContact? || ev.SetAlt? || ev.MoveContact? || ev.AddToGroup? || ev.ChangeGroup? || ev.RemoveFromGroup?
  }

  predicate GroupCommand(ev: Event) { ev.Start? || ev.AddGroup? || ev.RemoveGroup? || ev.RenameGroup? || ev.MoveGroup? }

  lemma GroupCommandSound(s: Roster, ev: Event)
    requires Sound(s) && Legal(s, ev) && GroupCommand(ev)
    ensures Sound(Step(s, ev))
  {
    hide SoundBut;
    hide GroupAdd;
    hide GroupRemove;
    hide GroupRename;
    hide GroupMove;
    match ev
    case Start => AnnounceSound(s, s.order);
    case AddGroup(name, pos) => GroupAddSound(s, name, pos, -1);
    case RemoveGroup(g) => GroupRemoveSound(s, g);
    case RenameGroup(g, name) => GroupRenameSound(s, g, name);
    case MoveGroup(g, at) => GroupMoveSound(s, g, at);
  }

  lemma CommandSound(s: Roster, ev: Event)
    requires Sound(s) && Legal(s, ev) && UserCommand(ev)
    ensures Sound(Step(s, ev))
  {
    hide SoundBut;
    hide ContactAdd;
    hide ContactRemove;
    hide ContactRename;
    hide ContactSetAlt;
    hide ContactMove;
    hide ContactAddGroup;
    hide ContactChangeGroup;
    hide ContactRemoveGroup;
    if GroupCommand(ev) {
      GroupCommandSound(s, ev);
    } else {
      match ev
      case AddContact(g, name, pos) => ContactAddSound(s, g, name, pos, -1);
      case RemoveContact(c) => ContactRemoveSound(s, c, true);
      case RenameContact(c, name) => ContactRenameSound(s, c, name);
      case SetAlt(c, name) => ContactSetAltSound(s, c, name);
      case MoveContact(c, at) => ContactMoveSound(s, c, at);
      case AddToGroup(c, g) => ContactAddGroupSound(s, c, g, -1);
      case ChangeGroup(c, from, to) => ContactChangeGroupSound(s, c, from, to);
      case RemoveFromGroup(c, g) => ContactRemoveGroupSound(s, c, g);
    }
  }

  lemma StepSound(s: Roster, ev: Event)
    requires Sound(s) && Legal(s, ev)
    ensures Sound(Step(s, ev))
  {
    hide EntryAdd;
    hide EntryRemove;
    hide EntryChangeContact;
    hide ItemAdded;
    hide ItemUpdated;
    hide ItemRemoved;
    hide Subscription;
    hide ChatFrom;
    hide TagChanged;
    hide MintTag;
    hide Sweep;
    hide VisitAddresses;
    hide DropEmptyGroups;
    hide InvBut;
    hide Agrees;
    if UserCommand(ev) {
      CommandSound(s, ev);
    } else {
      match ev
      case AddEntry(c, account, jid, nick, reason, pos) => EntryAddSound(s, c, account, jid, nick, reason, pos);
      case RemoveEntry(e) => EntryRemoveSound(s, e, true);
      case ChangeContact(e, from, to) => EntryChangeContactSound(s, e, from, to);
      case PushAdded(account, item) => ItemAddedSound(s, account, item);
      case PushUpdated(account, item) => ItemUpdatedSound(s, account, item);
      case PushRemoved(account, item) => ItemRemovedSound(s, account, item);
      case SubscriptionReceived(account, jid, kind, nick, reason) => SubscriptionSound(s, account, jid, kind, nick, reason);
      case ChatReceived(account, jid) => ChatFromSound(s, account, jid);
      case TagReported(account, jid, tag, changed) => TagChangedSound(s, account, jid, tag, changed);
      case TagMinted(c, uuid, changed) => MintTagSound(s, c, uuid, changed);
      case Connection(account, on) => ConnectionSound(s, account, on);
      case DeleteAccount(account) => SweepSound(s, account, Ascending(s.entries.Keys));
      case DeleteTransport(account, host) => VisitAddressesSound(s, account, host, KeyList(s.byJid, Alphabetic(s.byJid.Keys)));
      case CleanUpGroups => DropEmptyGroupsSound(s, s.order);
    }
  }

  lemma ConnectionSound(s: Roster, account: int, on: bool)
    requires Sound(s)
    ensures Sound(SetActive(s, account, on))
  {
  }

  /** A run lists its events, each with the roster it leads to; the receiver's start comes first. */
  ghost predicate IsRun(states: seq<Roster>, events: seq<Event>) {
    && |states| == |events| + 1
    && states[0] == RosterStart(INITIAL)
    && forall i :: 0 <= i < |events| ==> Legal(states[i], events[i]) && states[i + 1] == Step(states[i], events[i])
  }

  lemma {:induction false} RunSound(states: seq<Roster>, events: seq<Event>)
    requires IsRun(states, events)
    ensures Sound(states[|events|])
  {
    hide SoundBut;
    if events == [] {
      StartSound();
    } else {
      var n := |events| - 1;
      RunSound(states[..n + 1], events[..n]);
      StepSound(states[n], events[n]);
    }
  }

  // ---- what the soundness of a run says in full ---------------------------------------------------

  /** In every reachable roster a contact is as often in a group as the group is on the contact, and
      every contact is in some group. */
  lemma MembershipBothWays(states: seq<Roster>, events: seq<Event>, g: int, c: int)
    requires IsRun(states, events)
    ensures var s := states[|events|];
            && (g in s.groups && c in s.contacts ==> multiset(s.groups[g].contacts)[c] == multiset(s.contacts[c].groups)[g])
            && (g in s.groups && c in s.groups[g].contacts ==> c in s.contacts)
            && (c in s.contacts ==> s.contacts[c].groups != [] && forall h <- s.contacts[c].groups :: h in s.groups)
  {
    RunSound(states, events);
    var s := states[|events|];
    assert LinksOk(s.groups, s.contacts, -1);
    if g in s.groups && c in s.contacts {
      assert Mult(s.groups[g].contacts, c) == Mult(s.contacts[c].groups, g);
    }
  }

  /** In every reachable roster an entry is in exactly one contact's list, once; it is what a look-up
      of its account and address finds; and no other entry has that account and address. */
  lemma EntryOnceEverywhere(states: seq<Roster>, events: seq<Event>, e: int)
    requires IsRun(states, events) && e in states[|events|].entries
    ensures var s := states[|events|]; var v := s.entries[e];
            && v.contact in s.contacts && multiset(s.contacts[v.contact].entries)[e] == 1
            && (forall c <- s.contacts :: c != v.contact ==> e !in s.contacts[c].entries)
            && v.jid in s.byJid && multiset(s.byJid[v.jid])[e] == 1 && (forall j <- s.byJid :: j != v.jid ==> e !in s.byJid[j])
            && FindEntry(s, v.account, v.jid) == e
            && (forall f <- s.entries :: s.entries[f].account == v.account && s.entries[f].jid == v.jid ==> f == e)
            && (v.mainGroup == "" || v.mainGroup in v.groups)
  {
    RunSound(states, events);
    var s := states[|events|];
    Findable(s, e);
    assert Mult(s.contacts[s.entries[e].contact].entries, e) == 1;
    assert Mult(s.byJid[s.entries[e].jid], e) == 1;
    forall f | f in s.entries && s.entries[f].account == s.entries[e].account && s.entries[f].jid == s.entries[e].jid ensures f == e {
      assert SameKey(s.entries[f], s.entries[e]);
    }
  }

  /** In every reachable roster the list of groups, the address index and the tag index hold exactly what
      there is: every group once, every listed entry under its present address, every tag with the one
      contact that carries it. */
  lemma IndexesExact(states: seq<Roster>, events: seq<Event>)
    requires IsRun(states, events)
    ensures var s := states[|events|];
            && (forall g :: g in s.order <==> g in s.groups) && NoDup(s.order)
            && (forall j, e :: j in s.byJid && e in s.byJid[j] ==> e in s.entries && s.entries[e].jid == j)
            && (forall e <- s.entries :: s.entries[e].jid in s.byJid && multiset(s.byJid[s.entries[e].jid])[e] == 1)
            && (forall t :: t in s.byTag ==> t != "" && s.byTag[t] in s.contacts && s.contacts[s.byTag[t]].tag == t)
            && (forall c <- s.contacts :: s.contacts[c].tag != "" ==> s.contacts[c].tag in s.byTag && s.byTag[s.contacts[c].tag] == c)
  {
    RunSound(states, events);
    var s := states[|events|];
    forall g | g in s.groups ensures g in s.order {
      assert Mult(s.order, g) == 1;
    }
    forall g | g in s.order ensures multiset(s.order)[g] == 1 {
      assert Mult(s.order, g) == 1;
    }
    NoDupIsMultOne(s.order);
    forall e | e in s.entries ensures s.entries[e].jid in s.byJid && multiset(s.byJid[s.entries[e].jid])[e] == 1 {
      assert Mult(s.byJid[s.entries[e].jid], e) == 1;
    }
    forall c | c in s.contacts && s.contacts[c].tag != "" ensures s.contacts[c].tag in s.byTag && s.byTag[s.contacts[c].tag] == c {
      assert TagsOk(s.contacts, s.byTag);
    }
  }

  lemma SameMembers(a: set<int>, b: set<int>)
    requires forall x :: x in a <==> x in b
    ensures a == b
  {
    forall x | x in a ensures x in b {}
    forall x | x in b ensures x in a {}
  }

  lemma SameGroups(mine: map<int, Face>, groups: map<int, Group>)
    requires GroupsAgree(mine, groups)
    ensures mine == (map g <- groups :: Face(groups[g].kind, groups[g].name))
  {
    SameMembers(mine.Keys, groups.Keys);
    forall g | g in groups ensures mine[g] == Face(groups[g].kind, groups[g].name) {
    }
  }

  lemma SameContacts(mine: map<int, Card>, contacts: map<int, Contact>)
    requires ContactsAgree(mine, contacts)
    ensures mine == (map c <- contacts :: Card(contacts[c].name, contacts[c].alt, Once(contacts[c].groups)))
  {
    SameMembers(mine.Keys, contacts.Keys);
    forall c | c in contacts ensures mine[c] == Card(contacts[c].name, contacts[c].alt, Once(contacts[c].groups)) {
      assert CardOf(mine[c], contacts[c]);
    }
  }

  lemma SameEntries(mine: map<int, Line>, entries: map<int, Entry>)
    requires EntriesAgree(mine, entries, -1) && -1 !in entries
    ensures mine == (map e <- entries :: Line(Props(entries[e]), entries[e].contact))
  {
    SameMembers(mine.Keys, entries.Keys);
    forall e | e in entries ensures mine[e] == Line(Props(entries[e]), entries[e].contact) {
      assert LineOf(mine[e], entries[e], e == -1);
    }
  }

  /** The receiver, fed nothing but the notifications in order, never meets an unknown identifier and
      ends up with the core's groups, contacts, memberships, entries and subscription states. */
  lemma ReplayRebuildsRoster(states: seq<Roster>, events: seq<Event>)
    requires IsRun(states, events)
    ensures var s, m := states[|events|], Replay(states[|events|].log);
            && m.ok
            && m.groups == (map g <- s.groups :: Face(s.groups[g].kind, s.groups[g].name))
            && m.contacts == (map c <- s.contacts :: Card(s.contacts[c].name, s.contacts[c].alt, Once(s.contacts[c].groups)))
            && m.entries == (map e <- s.entries :: Line(Props(s.entries[e]), s.entries[e].contact))
  {
    RunSound(states, events);
    var s := states[|events|];
    SameGroups(Replay(s.log).groups, s.groups);
    SameContacts(Replay(s.log).contacts, s.contacts);
    SameEntries(Replay(s.log).entries, s.entries);
  }

  /** There is always exactly one general group and one group for people not in the list. */
  lemma BuiltInGroupsStay(states: seq<Roster>, events: seq<Event>)
    requires IsRun(states, events)
    ensures var s := states[|events|];
            && (forall g :: g in s.groups && s.groups[g].kind == NoGroup <==> g == 0)
            && (forall g :: g in s.groups && s.groups[g].kind == NotInList <==> g == 1)
            && s.groups[0].name == GENERAL && s.groups[1].name == NOT_IN_LIST
            && multiset(s.order)[0] == 1 && multiset(s.order)[1] == 1
  {
    RunSound(states, events);
    hide SoundBut;
    TwoBuiltIns(states[|events|]);
  }

  lemma TwoBuiltIns(s: Roster)
    requires Sound(s)
    ensures (forall g :: g in s.groups && s.groups[g].kind == NoGroup <==> g == 0)
    ensures (forall g :: g in s.groups && s.groups[g].kind == NotInList <==> g == 1)
    ensures s.groups[0].name == GENERAL && s.groups[1].name == NOT_IN_LIST
    ensures multiset(s.order)[0] == 1 && multiset(s.order)[1] == 1
  {
    hide Agrees;
    hide LinksOk;
    hide EntriesOk;
    hide IndexOk;
    hide TagsOk;
    assert Mult(s.order, 0) == 1 && Mult(s.order, 1) == 1;
    forall g | g in s.groups ensures g >= 0 {
    }
  }
}
