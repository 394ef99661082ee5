/** Where commands put groups and contacts, and what is announced of it, told from the values before and after. */
module RosterPlaces {
  import opened Lists
  import opened RosterModel
  import opened RosterInvariant
  import opened RosterMirror
  import opened RosterOps
  import opened RosterRuns
  import opened RosterEffects
  import opened RosterServer
  import opened RosterTexts

  // ---- groups -----------------------------------------------------------------------------------

  /** All groups are announced, in list order, and nothing else happens. */
  lemma {:induction false} AnnounceEffect(s: Roster, ids: seq<int>)
    requires forall g <- ids :: g in s.groups
    ensures var t := Announce(s, ids);
            && t == s.(log := t.log) && |t.log| == |s.log| + |ids| && s.log <= t.log
            && forall i :: 0 <= i < |ids| ==> ids[i] in s.groups && t.log[|s.log| + i] == GroupAdded(ids[i], s.groups[ids[i]].kind, s.groups[ids[i]].name)
  {
    if ids != [] {
      AnnounceEffect(s, ids[..|ids| - 1]);
    }
  }

  lemma RosterStartEffect(s: Roster)
    requires Inv(s)
    ensures var t := RosterStart(s);
            && t == s.(log := t.log) && |t.log| == |s.log| + |s.order| && s.log <= t.log
            && forall i :: 0 <= i < |s.order| ==>
                 s.order[i] in s.groups && t.log[|s.log| + i] == GroupAdded(s.order[i], s.groups[s.order[i]].kind, s.groups[s.order[i]].name)
  {
    AnnounceEffect(s, s.order);
  }

  /** A name new to the user's groups makes an empty one where it is wanted in the list; a known name is given
      its first group, and no name none. */
  lemma GroupAddEffect(s: Roster, name: string, pos: int)
    requires Inv(s)
    ensures var t, g := GroupAdd(s, name, pos), GroupAddId(s, name);
            if name == "" then g == -1 && t == s
            else if exists h <- s.order :: Is(s.groups, h, User, name) then t == s && FirstOf(s.order, s.groups, User, name, g)
            else
              && g !in s.groups && PutIn(s.order, t.order, pos, g)
              && t == s.(order := t.order, groups := s.groups[g := Group(User, name, [])], nextGroup := t.nextGroup,
                         log := s.log + [GroupAdded(g, User, name)])
  {
    hide FindGroup;
    hide Place;
    KnownIds(s);
    FindGroupFirst(s.order, s.groups, User, name);
    PlacePutsIn(s.order, pos, s.nextGroup);
    if FindGroup(s.order, s.groups, User, name) != -1 {
      FirstIsOne(s.order, s.groups, User, name, FindGroup(s.order, s.groups, User, name));
    }
  }

  lemma FirstIsOne(order: seq<int>, groups: map<int, Group>, kind: GroupKind, name: string, g: int)
    requires FirstOf(order, groups, kind, name, g)
    ensures g in order && Is(groups, g, kind, name)
  {
  }

  /** `now` is `was` with `x` at position `pos` and everything else in its order. */
  predicate MovedTo(was: seq<int>, now: seq<int>, x: int, pos: nat) {
    |now| == |was| && pos < |now| && now[pos] == x && Without(now, x) == Without(was, x)
  }

  lemma WithoutAround(a: seq<int>, x: int, b: seq<int>)
    ensures Without(a + [x] + b, x) == Without(a + b, x)
  {
    WithoutSum(a + [x], b, x);
    WithoutSum(a, [x], x);
    WithoutSum(a, b, x);
  }

  lemma MovedIs(was: seq<int>, x: int, pos: nat)
    requires x in was && pos < |was|
    ensures MovedTo(was, Moved(was, IndexOf(was, x), pos), x, pos)
  {
    hide Without;
    hide Moved;
    hide IndexOf;
    var from := IndexOf(was, x);
    var a, b := was[..from], was[from + 1..];
    var rest := a + b;
    WithoutAround(a, x, b);
    WithoutAround(rest[..pos], x, rest[pos..]);
    assert was == a + [x] + b;
    assert rest == rest[..pos] + rest[pos..];
    MovedParts(was, from, pos);
  }

  lemma MovedParts(was: seq<int>, from: nat, pos: nat)
    requires from < |was| && pos < |was|
    ensures var rest := was[..from] + was[from + 1..];
            Moved(was, from, pos) == rest[..pos] + [was[from]] + rest[pos..]
  {
  }

  /** Another group or contact now stands in the `i`th place. */
  predicate Displaced(was: seq<int>, now: seq<int>, i: int) {
    0 <= i < |was| == |now| && now[i] != was[i]
  }

  function GroupNote(s: Roster, g: int): Note
    requires g in s.groups
  {
    GroupChanged(g, s.groups[g].kind, s.groups[g].name)
  }

  /** Of exactly the displaced groups among the first `n` it is noted that they have changed. */
  ghost predicate GroupsNoted(s: Roster, notes: seq<Note>, was: seq<int>, now: seq<int>, n: nat)
    requires forall g <- was :: g in s.groups
  {
    forall x :: x in notes <==> exists i :: i < n && Displaced(was, now, i) && x == GroupNote(s, was[i])
  }

  lemma GroupsNotedNext(s: Roster, notes: seq<Note>, was: seq<int>, now: seq<int>, n: nat)
    requires n < |was| == |now| && (forall g <- was :: g in s.groups) && GroupsNoted(s, notes, was, now, n)
    ensures GroupsNoted(s, notes + (if now[n] == was[n] then [] else [GroupNote(s, was[n])]), was, now, n + 1)
  {
    var more := notes + (if now[n] == was[n] then [] else [GroupNote(s, was[n])]);
    forall x ensures x in more <==> exists i :: i < n + 1 && Displaced(was, now, i) && x == GroupNote(s, was[i]) {
      if x == GroupNote(s, was[n]) && now[n] != was[n] {
        assert Displaced(was, now, n);
      }
      assert x in more <==> x in notes || (now[n] != was[n] && x == GroupNote(s, was[n]));
    }
  }

  lemma {:induction false} ReportMovedEffect(s: Roster, was: seq<int>, n: nat)
    requires n <= |was| == |s.order| && forall g <- was :: g in s.groups
    ensures var t := ReportMoved(s, was, n);
            t == s.(log := t.log) && s.log <= t.log && GroupsNoted(s, t.log[|s.log|..], was, s.order, n)
  {
    hide GroupsNoted;
    if n > 0 {
      ReportMovedEffect(s, was, n - 1);
      var t, u := ReportMoved(s, was, n - 1), ReportMoved(s, was, n);
      GroupsNotedNext(s, t.log[|s.log|..], was, s.order, n - 1);
      assert u.log[|s.log|..] == t.log[|s.log|..] + if s.order[n - 1] == was[n - 1] then [] else [GroupNote(s, was[n - 1])];
    } else {
      NoGroupsNoted(s, was);
      assert s.log[|s.log|..] == [];
    }
  }

  lemma NoGroupsNoted(s: Roster, was: seq<int>)
    requires forall g <- was :: g in s.groups
    ensures GroupsNoted(s, [], was, s.order, 0)
  {
  }

  /** A user group is moved to its new place; of it and every group displaced it is reported that they have
      changed. Other groups stay where they are. */
  lemma GroupMoveEffect(s: Roster, g: int, pos: nat)
    requires Inv(s) && g in s.groups && pos < |s.order|
    ensures forall h <- s.order :: h in s.groups
    ensures var t := GroupMove(s, g, pos);
            if s.groups[g].kind != User then t == s
            else
              && t == s.(order := t.order, log := t.log) && MovedTo(s.order, t.order, g, pos)
              && s.log <= t.log && GroupsNoted(s, t.log[|s.log|..], s.order, t.order, |s.order|)
  {
    hide InvBut;
    hide MovedTo;
    hide ReportMoved;
    hide Moved;
    hide GroupsNoted;
    KnownGroup(s, g, -1);
    KnownIds(s);
    if s.groups[g].kind == User {
      var u := s.(order := Moved(s.order, IndexOf(s.order, g), pos));
      MovedIs(s.order, g, pos);
      ReportMovedEffect(u, s.order, |s.order|);
      SameNotes(s, u, ReportMoved(u, s.order, |s.order|).log[|s.log|..], s.order, u.order, |s.order|);
    }
  }

  lemma SameNotes(s: Roster, u: Roster, notes: seq<Note>, was: seq<int>, now: seq<int>, n: nat)
    requires (forall g <- was :: g in s.groups) && u.groups == s.groups && GroupsNoted(u, notes, was, now, n)
    ensures GroupsNoted(s, notes, was, now, n)
  {
    assert forall g <- was :: GroupNote(u, g) == GroupNote(s, g);
  }

  // ---- contacts -----------------------------------------------------------------------------------

  /** The other name of a contact is set and announced; nothing else changes. */
  lemma ContactSetAltEffect(s: Roster, c: int, alt: string)
    requires c in s.contacts
    ensures var t, v := ContactSetAlt(s, c, alt), s.contacts[c];
            t == s.(contacts := s.contacts[c := Contact(v.name, alt, v.tag, v.groups, v.entries)], log := s.log + [ContactChanged(c, v.name, alt)])
  {
  }

  /** A contact called as asked in the first group named like `g` is put in `g` too; if there is none, a new one
      without entries is listed where it is wanted in `g` only. */
  lemma ContactAddEffect(s: Roster, g: int, name: string, pos: int)
    requires Inv(s) && g in s.groups
    ensures var t, n := ContactAdd(s, g, name, pos), ContactAddId(s, g, name);
            if name == "" then n == -1 && t == s
            else
              var found := FindContact(s, name, s.groups[g].name, s.groups[g].kind);
              if found != -1 then n == found && found in s.contacts && t == ContactAddGroup(s, found, g)
              else
                && n !in s.contacts && g in t.groups && PutIn(s.groups[g].contacts, t.groups[g].contacts, pos, n)
                && t == s.(contacts := s.contacts[n := Contact(name, "", "", [g], [])],
                           groups := s.groups[g := s.groups[g].(contacts := t.groups[g].contacts)], nextContact := t.nextContact,
                           log := s.log + [ContactAdded(g, n, name, "")])
  {
    hide InvBut;
    hide FindContact;
    hide Place;
    NextIsNew(s);
    PlacePutsIn(s.groups[g].contacts, pos, s.nextContact);
    NextUsable(s.contacts, s.nextContact) by { ContactsFine(s); }
  }

  function ContactNote(s: Roster, c: int): Note
    requires c in s.contacts
  {
    ContactChanged(c, s.contacts[c].name, s.contacts[c].alt)
  }

  /** Of exactly the displaced contacts among the first `n` it is noted that they have changed. */
  ghost predicate ContactsNoted(s: Roster, notes: seq<Note>, was: seq<int>, now: seq<int>, n: nat)
    requires forall c <- was :: c in s.contacts
  {
    forall x :: x in notes <==> exists i :: i < n && Displaced(was, now, i) && x == ContactNote(s, was[i])
  }

  lemma ContactsNotedNext(s: Roster, notes: seq<Note>, was: seq<int>, now: seq<int>, n: nat)
    requires n < |was| == |now| && (forall c <- was :: c in s.contacts) && ContactsNoted(s, notes, was, now, n)
    ensures ContactsNoted(s, notes + (if now[n] == was[n] then [] else [ContactNote(s, was[n])]), was, now, n + 1)
  {
    var more := notes + (if now[n] == was[n] then [] else [ContactNote(s, was[n])]);
    forall x ensures x in more <==> exists i :: i < n + 1 && Displaced(was, now, i) && x == ContactNote(s, was[i]) {
      if x == ContactNote(s, was[n]) && now[n] != was[n] {
        assert Displaced(was, now, n);
      }
      assert x in more <==> x in notes || (now[n] != was[n] && x == ContactNote(s, was[n]));
    }
  }

  lemma {:induction false} ReportContactsEffect(s: Roster, was: seq<int>, now: seq<int>, n: nat)
    requires n <= |was| == |now| && forall c <- was :: c in s.contacts
    ensures var t := ReportMovedContacts(s, was, now, n);
            t == s.(log := t.log) && s.log <= t.log && ContactsNoted(s, t.log[|s.log|..], was, now, n)
  {
    hide ContactsNoted;
    if n > 0 {
      ReportContactsEffect(s, was, now, n - 1);
      var t, u := ReportMovedContacts(s, was, now, n - 1), ReportMovedContacts(s, was, now, n);
      ContactsNotedNext(s, t.log[|s.log|..], was, now, n - 1);
      assert u.log[|s.log|..] == t.log[|s.log|..] + if now[n - 1] == was[n - 1] then [] else [ContactNote(s, was[n - 1])];
    } else {
      NoContactsNoted(s, was, now);
      assert s.log[|s.log|..] == [];
    }
  }

  lemma NoContactsNoted(s: Roster, was: seq<int>, now: seq<int>)
    requires forall c <- was :: c in s.contacts
    ensures ContactsNoted(s, [], was, now, 0)
  {
  }

  lemma SameContactNotes(s: Roster, u: Roster, notes: seq<Note>, was: seq<int>, now: seq<int>, n: nat)
    requires (forall c <- was :: c in s.contacts) && u.contacts == s.contacts && ContactsNoted(u, notes, was, now, n)
    ensures ContactsNoted(s, notes, was, now, n)
  {
    assert forall c <- was :: ContactNote(u, c) == ContactNote(s, c);
  }

  /** A contact is moved to its new place in its first group; of it and every contact displaced it is reported
      that they have changed. Nothing else happens. */
  lemma ContactMoveEffect(s: Roster, c: int, pos: nat)
    requires Inv(s) && c in s.contacts && MoveOk(s, c, pos)
    ensures var t, g := ContactMove(s, c, pos), s.contacts[c].groups[0];
            && g in t.groups && s.log <= t.log && (forall d <- s.groups[g].contacts :: d in s.contacts)
            && var was, now := s.groups[g].contacts, t.groups[g].contacts;
            && t == s.(groups := s.groups[g := s.groups[g].(contacts := now)], log := t.log) && MovedTo(was, now, c, pos)
            && ContactsNoted(s, t.log[|s.log|..], was, now, |was|)
  {
    hide InvBut;
    hide MovedTo;
    hide ReportMovedContacts;
    hide Moved;
    hide ContactsNoted;
    var g := s.contacts[c].groups[0];
    KnownContact(s, c);
    KnownGroup(s, g, -1);
    var was := s.groups[g].contacts;
    MovedIs(was, c, pos);
    var now := Moved(was, IndexOf(was, c), pos);
    var u := SetGroup(s, g, s.groups[g].(contacts := now));
    ReportContactsEffect(u, was, now, |was|);
    SameContactNotes(s, u, ReportMovedContacts(u, was, now, |was|).log[|s.log|..], was, now, |was|);
  }

  // ---- empty groups -------------------------------------------------------------------------------

  /** The groups of the list that are still there, in its order. */
  function StillThere(order: seq<int>, groups: map<int, Group>): seq<int> {
    if order == [] then []
    else (if order[0] in groups then [order[0]] else []) + StillThere(order[1..], groups)
  }

  lemma {:induction false} StillWithout(order: seq<int>, groups: map<int, Group>, g: int)
    ensures StillThere(order, groups - {g}) == Without(StillThere(order, groups), g)
  {
    if order != [] {
      StillWithout(order[1..], groups, g);
      WithoutSum(if order[0] in groups then [order[0]] else [], StillThere(order[1..], groups), g);
    }
  }

  lemma {:induction false} AllThere(order: seq<int>, groups: map<int, Group>)
    requires forall g <- order :: g in groups
    ensures StillThere(order, groups) == order
  {
    if order != [] {
      AllThere(order[1..], groups);
      var g := order[0];
      assert g in order;
      assert order == [order[0]] + order[1..];
    }
  }

  lemma EmptyGroupRemoved(s: Roster, g: int)
    requires g in s.groups && s.groups[g].contacts == []
    ensures GroupRemove(s, g) == if s.groups[g].kind == User then DeleteGroup(s, g) else s
  {
    assert RemoveGroupFromAll(s, [], g) == s;
  }

  lemma {:induction false} DropEmptyEffect(s: Roster, gs: seq<int>)
    requires Inv(s)
    ensures var t := DropEmptyGroups(s, gs);
            && t == s.(order := t.order, groups := t.groups, log := t.log) && t.order == StillThere(s.order, t.groups)
            && (forall g :: g in t.groups <==> g in s.groups && !(g in gs && s.groups[g].kind == User && s.groups[g].contacts == []))
            && forall g <- t.groups :: t.groups[g] == s.groups[g]
  {
    hide InvBut;
    hide GroupRemove;
    if gs == [] {
      KnownIds(s);
      AllThere(s.order, s.groups);
    } else {
      var rest, g := gs[..|gs| - 1], gs[|gs| - 1];
      assert gs == rest + [g];
      DropEmptyEffect(s, rest);
      var t := DropEmptyGroups(s, rest);
      if g in t.groups && t.groups[g].contacts == [] {
        EmptyGroupRemoved(t, g);
        StillWithout(s.order, t.groups, g);
      }
    }
  }

  /** Exactly the user's groups without contacts are removed, and the others keep lists and order; no contact and
      no entry changes and no server is told anything. */
  lemma CleanUpEffect(s: Roster)
    requires Inv(s)
    ensures var t := DeleteEmptyGroups(s);
            && t == s.(order := t.order, groups := t.groups, log := t.log) && t.order == StillThere(s.order, t.groups)
            && (forall g :: g in t.groups <==> g in s.groups && !(s.groups[g].kind == User && s.groups[g].contacts == []))
            && forall g <- t.groups :: t.groups[g] == s.groups[g]
  {
    hide InvBut;
    DropEmptyEffect(s, s.order);
    forall g | g in s.groups ensures g in s.order {
      KnownGroup(s, g, -1);
    }
  }

  // ---- what removing an entry of an account or a gateway leaves behind ------------------------------

  /** All entries the contact has are `gone`. */
  predicate LeftEmpty(s: Roster, c: int, gone: int) {
    c in s.contacts && forall d <- s.contacts[c].entries :: d == gone
  }

  /** Removing `gone` on account of entry `e` takes exactly that entry, then the contact of `e` if it is left without
      entries, then the first of the user's groups called like the main group of `e` if none of its contacts is left. */
  lemma ClearOutEffect(s: Roster, e: int, gone: int, toServer: bool)
    requires Inv(s) && e in s.entries
    ensures var t := ClearOut(s, e, gone, toServer);
            && t.entries == s.entries - {gone}
            && (forall c :: c in t.contacts <==> c in s.contacts && !(c == s.entries[e].contact && LeftEmpty(s, c, gone)))
            && (forall g :: g in t.groups <==> (g in s.groups && !(FirstOf(s.order, s.groups, User, s.entries[e].mainGroup, g)
                                                                   && forall c <- s.groups[g].contacts :: c !in t.contacts)))
  {
    hide InvBut;
    hide EntryRemove;
    hide ContactRemove;
    hide GroupRemove;
    hide FindGroup;
    hide FirstOf;
    var c, main := s.entries[e].contact, s.entries[e].mainGroup;
    var t := EntryRemove(s, gone, toServer);
    KnownEntry(s, e);
    OneGone(s, gone, toServer, c);
    var u := if t.contacts[c].entries == [] then ContactRemove(t, c, toServer) else t;
    if t.contacts[c].entries == [] {
      ContactGone(t, c, toServer);
    }
    MainGroup(s, main);
    var g := if main == "" then -1 else FindGroup(s.order, s.groups, User, main);
    if g != -1 {
      KnownGroup(s, g, -1);
      ListLeft(s, u, g, c);
      if u.groups[g].contacts == [] {
        EmptyGroupRemoved(u, g);
      }
    }
  }

  lemma OneGone(s: Roster, gone: int, toServer: bool, c: int)
    requires Inv(s) && c in s.contacts
    ensures var t := EntryRemove(s, gone, toServer);
            && Inv(t) && t.entries == s.entries - {gone} && t.groups == s.groups && t.order == s.order && t.contacts.Keys == s.contacts.Keys
            && (t.contacts[c].entries == [] <==> LeftEmpty(s, c, gone))
  {
    hide InvBut;
    EntryRemoveInv(s, gone, toServer);
    if gone in s.entries {
      RosterEffects.EntryRemoveEffect(s, gone, toServer);
      OrderKept(s, gone, toServer);
      var rest := Without(s.contacts[c].entries, gone);
      if rest != [] {
        var d := Head(rest);
      }
    } else {
      NothingRemoved(s, gone, toServer);
      if s.contacts[c].entries != [] {
        var d := Head(s.contacts[c].entries);
        KnownContact(s, c);
      }
    }
  }

  lemma OrderKept(s: Roster, e: int, toServer: bool)
    requires e in s.entries
    ensures EntryRemove(s, e, toServer).order == s.order
  {
    hide InList;
    hide DropIndexed;
  }

  lemma ContactGone(t: Roster, c: int, toServer: bool)
    requires Inv(t) && c in t.contacts && t.contacts[c].entries == []
    ensures var u := ContactRemove(t, c, toServer);
            && Inv(u) && u.entries == t.entries && u.contacts == t.contacts - {c} && u.order == t.order
            && (forall g :: g in u.groups <==> g in t.groups)
            && forall g <- u.groups :: u.groups[g] == t.groups[g].(contacts := Without(t.groups[g].contacts, c))
  {
    hide InvBut;
    assert RemoveEntries(t, [], toServer) == t;
    DeleteContactInv(t, c);
    ContactDeletedEffect(t, c);
    DropFromGroupsShape(t, c, t.contacts[c].groups);
    SameKeys(t.groups, DeleteContact(t, c).groups);
  }

  lemma ListLeft(s: Roster, u: Roster, g: int, c: int)
    requires g in s.groups && g in u.groups && (forall d <- s.groups[g].contacts :: d in s.contacts)
    requires (u.groups == s.groups && u.contacts.Keys == s.contacts.Keys)
             || (u.groups[g].contacts == Without(s.groups[g].contacts, c) && u.contacts.Keys == s.contacts.Keys - {c})
    ensures u.groups[g].contacts == [] <==> forall d <- s.groups[g].contacts :: d !in u.contacts
  {
    if u.groups[g].contacts != [] {
      var d := Head(u.groups[g].contacts);
      assert d in s.groups[g].contacts;
    }
  }

  /** The group looked for, if there is a name, is the only first one of that name. */
  lemma MainGroup(s: Roster, main: string)
    requires Inv(s)
    ensures var g := if main == "" then -1 else FindGroup(s.order, s.groups, User, main);
            && (g != -1 ==> g in s.groups && s.groups[g].kind == User)
            && forall h :: FirstOf(s.order, s.groups, User, main, h) <==> h == g != -1
  {
    hide InvBut;
    hide FindGroup;
    hide FirstOf;
    KnownIds(s);
    FindGroupFirst(s.order, s.groups, User, main);
    var f := FindGroup(s.order, s.groups, User, main);
    forall h | FirstOf(s.order, s.groups, User, main, h) ensures h == f != -1 && main != "" {
      OneFirst(s.order, s.groups, User, main, h, f);
      FirstIsOne(s.order, s.groups, User, main, h);
      KnownGroup(s, h, -1);
    }
    if f != -1 {
      FirstIsOne(s.order, s.groups, User, main, f);
    }
  }

  // ---- tags ---------------------------------------------------------------------------------------

  lemma {:induction false} ChangedAre(es: seq<int>, changed: set<int>)
    ensures forall e :: e in Changed(es, changed) <==> e in es && e in changed
  {
    if es != [] {
      assert es == es[..|es| - 1] + [es[|es| - 1]];
      ChangedAre(es[..|es| - 1], changed);
    }
  }

  lemma {:induction false} ReportsEffect(s: Roster, es: seq<int>)
    requires forall e <- es :: e in s.entries
    ensures var t := ReportEntries(s, es);
            && t == s.(log := t.log) && s.log <= t.log
            && forall x :: x in t.log[|s.log|..] <==> exists e <- es :: x == EntryChanged(e, Props(s.entries[e]))
  {
    if es != [] {
      var rest, e := es[..|es| - 1], es[|es| - 1];
      assert es == rest + [e];
      ReportsEffect(s, rest);
      var t, u := ReportEntries(s, rest), ReportEntries(s, es);
      assert u.log[|s.log|..] == t.log[|s.log|..] + [EntryChanged(e, Props(s.entries[e]))];
    } else {
      assert s.log[|s.log|..] == [];
    }
  }

  /** A contact without a tag gets the new one and is found under it; those of its entries are announced whose
      directories report a change. A tagged contact keeps its tag. */
  lemma MintTagEffect(s: Roster, c: int, uuid: string, changed: set<int>)
    requires Inv(s) && c in s.contacts
    ensures var t := MintTag(s, c, uuid, changed);
            if s.contacts[c].tag != "" then t == s
            else
              && t == s.(contacts := s.contacts[c := s.contacts[c].(tag := uuid)], byTag := s.byTag[uuid := c], log := t.log)
              && s.log <= t.log
              && forall x :: x in t.log[|s.log|..] <==>
                   exists e <- s.entries :: s.entries[e].contact == c && e in changed && x == EntryChanged(e, Props(s.entries[e]))
  {
    hide InvBut;
    hide Changed;
    hide ReportEntries;
    if s.contacts[c].tag == "" {
      var es := Changed(s.contacts[c].entries, changed);
      ListedEntries(s, c);
      ChangedAre(s.contacts[c].entries, changed);
      ReportsEffect(Retag(s, c, uuid), es);
    }
  }
}
