/** What the roster operations bring about, told from the roster before and after. */
module RosterEffects {
  import opened Lists
  import opened RosterModel
  import opened RosterInvariant
  import opened RosterMirror
  import opened RosterOps

  // ---- groups ---------------------------------------------------------------------------------

  /** A contact's groups without one of them; the general group takes the place of the last. */
  function Regrouped(gs: seq<int>, g: int): seq<int> {
    if g !in gs then gs else if Without(gs, g) == [] then [0] else Without(gs, g)
  }

  lemma TextsChanged(s: Roster, c: int, g: int)
    requires Inv(s) && c in s.contacts && g in s.groups
    ensures var u := Unlink(s, c, g);
            var v := CommitEntries(u, s.contacts[c].entries, SwapNames(NamedIfUser(s.groups[g]), None));
            && v.contacts == u.contacts && v.groups == u.groups && 0 in v.groups && FindGroup(v.order, v.groups, NoGroup, GENERAL) == 0
  {
    hide InvBut;
    hide FindGroup;
    var u, d := Unlink(s, c, g), SwapNames(NamedIfUser(s.groups[g]), None);
    UnlinkInv(s, c, g);
    CommitEntriesInv(u, s.contacts[c].entries, d, c);
    General(CommitEntries(u, s.contacts[c].entries, d), c);
  }

  /** Taking a contact out of a group other than the hidden one changes nothing else of any contact. */
  lemma ContactRemoveGroupEffect(s: Roster, c: int, g: int)
    requires Inv(s) && c in s.contacts && g in s.groups && s.groups[g].kind != NotInList
    ensures var t := ContactRemoveGroup(s, c, g);
            && t.contacts == s.contacts[c := s.contacts[c].(groups := Regrouped(s.contacts[c].groups, g))]
            && t.groups.Keys == s.groups.Keys && Inv(t)
  {
    hide InvBut;
    hide FindGroup;
    hide CommitEntries;
    hide Without;
    RemoveGroupInv(s, c, g);
    if g in s.contacts[c].groups {
      TextsChanged(s, c, g);
      var gs := Without(s.contacts[c].groups, g);
      assert gs == [] ==> gs + [0] == [0];
      assert ContactRemoveGroup(s, c, g).contacts[c] == s.contacts[c].(groups := Regrouped(s.contacts[c].groups, g));
    } else {
      assert s.contacts[c := s.contacts[c]] == s.contacts;
    }
  }

  lemma {:induction false} RemoveFromAllEffect(s: Roster, cs: seq<int>, g: int)
    requires Inv(s) && g in s.groups && g > 1 && forall c <- cs :: c in s.contacts
    ensures var t := RemoveGroupFromAll(s, cs, g);
            && Inv(t) && t.groups.Keys == s.groups.Keys && t.contacts.Keys == s.contacts.Keys
            && forall c <- s.contacts ::
                 t.contacts[c] == s.contacts[c].(groups := if c in cs then Regrouped(s.contacts[c].groups, g) else s.contacts[c].groups)
  {
    hide InvBut;
    hide ContactRemoveGroup;
    if cs != [] {
      var rest, c := cs[..|cs| - 1], cs[|cs| - 1];
      assert cs == rest + [c];
      RemoveFromAllEffect(s, rest, g);
      var t := RemoveGroupFromAll(s, rest, g);
      KnownGroup(t, g, -1);
      ContactRemoveGroupEffect(t, c, g);
      RegroupedTwice(s.contacts[c].groups, g);
    }
  }

  lemma RegroupedTwice(gs: seq<int>, g: int)
    requires g > 0
    ensures Regrouped(Regrouped(gs, g), g) == Regrouped(gs, g)
  {
  }

  /** Removing a user group leaves every contact there, in its other groups or, without any, in the general
      one, and no other group is lost or made. */
  lemma GroupRemoveEffect(s: Roster, g: int)
    requires Inv(s) && g in s.groups && s.groups[g].kind == User
    ensures var t := GroupRemove(s, g);
            && t.groups.Keys == s.groups.Keys - {g} && t.contacts.Keys == s.contacts.Keys
            && forall c <- s.contacts :: t.contacts[c] == s.contacts[c].(groups := Regrouped(s.contacts[c].groups, g))
  {
    hide InvBut;
    KnownGroup(s, g, -1);
    var cs := s.groups[g].contacts;
    RemoveFromAllEffect(s, cs, g);
    forall c | c in s.contacts && c !in cs ensures g !in s.contacts[c].groups {
      KnownContact(s, c);
    }
  }

  /** The entry has lost the group name `out` and gained `into` as its last one, "" meaning none; with its main
      group lost, or without any, the gained name is its main group. Nothing else of it has changed. */
  predicate Exchanged(v: Entry, w: Entry, out: string, into: string) {
    && w == v.(groups := w.groups, mainGroup := w.mainGroup)
    && w.groups == Without(v.groups, out) + (if into == "" then [] else [into])
    && w.mainGroup == if v.mainGroup != "" && v.mainGroup != out then v.mainGroup else into
  }

  /** The name by which a group is stored with entries; only user groups have one. */
  function StoredName(s: Roster, g: int): string
    requires g in s.groups
  {
    if s.groups[g].kind == User then s.groups[g].name else ""
  }

  /** Exactly the entries of contact `c` have lost and gained these group names. */
  ghost predicate TextsExchanged(s: Roster, t: Roster, c: int, out: string, into: string) {
    && t.entries.Keys == s.entries.Keys
    && forall e <- s.entries ::
         if s.entries[e].contact == c then Exchanged(s.entries[e], t.entries[e], out, into) else t.entries[e] == s.entries[e]
  }

  lemma AddedExchanged(v: Entry, name: string)
    requires "" !in v.groups && name != ""
    ensures Exchanged(v, Edited(v, AddName(name)), "", name)
  {
    WithoutMissing(v.groups, "");
  }

  lemma SwapExchanged(v: Entry, drop: Option, add: Option)
    requires "" !in v.groups && (drop.Some? ==> drop.name != "") && (add.Some? ==> add.name != "")
    ensures Exchanged(v, Edited(v, SwapNames(drop, add)), if drop.Some? then drop.name else "", if add.Some? then add.name else "")
  {
    WithoutMissing(v.groups, "");
    assert Without(v.groups, "") + [] == v.groups;
    if drop.Some? {
      assert Without(v.groups, drop.name) + [] == Without(v.groups, drop.name);
    }
  }

  /** Giving one contact's entries new group names, whatever happens to contacts and groups beside it. */
  lemma ExchangeOnce(s: Roster, u: Roster, c: int, drop: Option, add: Option)
    requires Inv(s) && c in s.contacts && u.entries == s.entries && (drop.Some? ==> drop.name != "") && (add.Some? ==> add.name != "")
    ensures TextsExchanged(s, CommitEntries(u, s.contacts[c].entries, SwapNames(drop, add)), c,
                           if drop.Some? then drop.name else "", if add.Some? then add.name else "")
  {
    hide InvBut;
    hide Exchanged;
    hide Edited;
    ListedEntries(s, c);
    CommitOnce(u, s.contacts[c].entries, SwapNames(drop, add));
    forall e | e in s.entries
      ensures Exchanged(s.entries[e], Edited(s.entries[e], SwapNames(drop, add)), if drop.Some? then drop.name else "", if add.Some? then add.name else "")
    {
      KnownEntry(s, e);
      SwapExchanged(s.entries[e], drop, add);
    }
  }

  /** A contact added to a user group is listed there, last, and by the contact; the group's name is added to
      the names of each of its entries. A group it is in already, or none of the user's, changes nothing. */
  lemma ContactAddGroupEffect(s: Roster, c: int, g: int)
    requires Inv(s) && c in s.contacts && g in s.groups
    ensures var t := ContactAddGroup(s, c, g);
            if s.groups[g].kind != User || g in s.contacts[c].groups then t == s
            else
              && t.contacts == s.contacts[c := s.contacts[c].(groups := s.contacts[c].groups + [g])]
              && t.groups == s.groups[g := s.groups[g].(contacts := s.groups[g].contacts + [c])]
              && TextsExchanged(s, t, c, "", s.groups[g].name)
  {
    hide InvBut;
    hide Exchanged;
    hide Edited;
    if s.groups[g].kind == User && g !in s.contacts[c].groups {
      var u, d := Link(s, c, g), AddName(s.groups[g].name);
      CommitEntriesContacts(u, s.contacts[c].entries, d);
      ListedEntries(s, c);
      CommitOnce(u, s.contacts[c].entries, d);
      KnownGroup(s, g, -1);
      forall e | e in s.entries ensures Exchanged(s.entries[e], Edited(s.entries[e], d), "", s.groups[g].name) {
        KnownEntry(s, e);
        AddedExchanged(s.entries[e], s.groups[g].name);
      }
    }
  }

  lemma ListedEntries(s: Roster, c: int)
    requires Inv(s) && c in s.contacts
    ensures NoDup(s.contacts[c].entries) && forall e :: e in s.contacts[c].entries <==> e in s.entries && s.entries[e].contact == c
  {
    var es := s.contacts[c].entries;
    forall e | e in es ensures multiset(es)[e] == 1 {
      assert Mult(s.contacts[s.entries[e].contact].entries, e) == 1;
    }
    NoDupIsMultOne(es);
    forall e | e in s.entries && s.entries[e].contact == c ensures e in es {
      assert Mult(s.contacts[s.entries[e].contact].entries, e) == 1;
    }
  }

  /** Each listed entry is edited once. */
  lemma {:induction false} CommitOnce(s: Roster, es: seq<int>, d: Edit)
    requires NoDup(es) && forall e <- es :: e in s.entries
    ensures var t := CommitEntries(s, es, d);
            t.entries.Keys == s.entries.Keys && forall e <- s.entries :: t.entries[e] == if e in es then Edited(s.entries[e], d) else s.entries[e]
  {
    hide Edited;
    if es != [] {
      var rest, e := es[..|es| - 1], es[|es| - 1];
      assert es == rest + [e];
      assert e !in rest;
      CommitOnce(s, rest, d);
    }
  }

  // ---- contacts and entries ---------------------------------------------------------------------

  /** Exactly the entry is gone, from all lists and indexes. */
  lemma EntryRemoveEffect(s: Roster, e: int, toServer: bool)
    requires Inv(s) && e in s.entries
    ensures var t := EntryRemove(s, e, toServer);
            && t.entries == s.entries - {e} && t.contacts.Keys == s.contacts.Keys && t.groups == s.groups
            && (forall c <- t.contacts :: t.contacts[c] == s.contacts[c].(entries := Without(s.contacts[c].entries, e)))
            && (forall j :: Under(t.byJid, j) == if j == s.entries[e].jid then Without(Under(s.byJid, j), e) else Under(s.byJid, j))
  {
    hide InvBut;
    hide Without;
    hide EntryRemove;
    hide Under;
    KnownEntry(s, e);
    RemovedShape(s, e, toServer);
    Unfiled(s, e, toServer);
    WithoutElsewhere(s, e);
  }

  lemma RemovedShape(s: Roster, e: int, toServer: bool)
    requires e in s.entries && s.entries[e].contact in s.contacts
    ensures var t, c := EntryRemove(s, e, toServer), s.entries[e].contact;
            && t.entries == s.entries - {e} && t.groups == s.groups
            && t.contacts == s.contacts[c := s.contacts[c].(entries := Without(s.contacts[c].entries, e))]
  {
    hide InList;
    hide Without;
    hide DropIndexed;
  }

  /** The entries filed under the address, the newest first. */
  function Under(byJid: map<string, seq<int>>, j: string): seq<int> { if j in byJid then byJid[j] else [] }

  /** The entry is taken out from among those of its address, which keep their order. */
  lemma Unfiled(s: Roster, e: int, toServer: bool)
    requires Inv(s) && e in s.entries
    ensures var t := EntryRemove(s, e, toServer);
            forall j :: Under(t.byJid, j) == if j == s.entries[e].jid then Without(Under(s.byJid, j), e) else Under(s.byJid, j)
  {
    hide InvBut;
    hide InList;
    hide Without;
    assert EntryRemove(s, e, toServer).byJid == DropIndexed(s.byJid, s.entries[e].jid, e);
    assert Without([], e) == [] by { NothingWithout(e); }
  }

  lemma NothingWithout(e: int)
    ensures Without([], e) == []
  {
  }

  lemma WithoutElsewhere(s: Roster, e: int)
    requires Inv(s) && e in s.entries
    ensures forall c <- s.contacts :: c != s.entries[e].contact ==> Without(s.contacts[c].entries, e) == s.contacts[c].entries
  {
    hide InvBut;
    forall c | c in s.contacts && c != s.entries[e].contact ensures Without(s.contacts[c].entries, e) == s.contacts[c].entries {
      KnownContact(s, c);
      WithoutMissing(s.contacts[c].entries, e);
    }
  }

  lemma {:induction false} RemoveEntriesEffect(s: Roster, es: seq<int>, toServer: bool)
    requires Inv(s)
    ensures var t := RemoveEntries(s, es, toServer);
            && Inv(t) && t.contacts.Keys == s.contacts.Keys && t.groups == s.groups
            && (forall e :: e in t.entries <==> e in s.entries && e !in es)
            && (forall e <- t.entries :: t.entries[e] == s.entries[e])
            && (forall c <- t.contacts :: t.contacts[c] == s.contacts[c].(entries := t.contacts[c].entries))
            && (forall c <- t.contacts :: (forall e <- es :: e !in s.contacts[c].entries) ==> t.contacts[c] == s.contacts[c])
  {
    hide InvBut;
    hide EntryRemove;
    if es != [] {
      var rest, e := es[..|es| - 1], es[|es| - 1];
      assert es == rest + [e];
      RemoveEntriesEffect(s, rest, toServer);
      var t := RemoveEntries(s, rest, toServer);
      EntryRemoveInv(t, e, toServer);
      if e in t.entries {
        EntryRemoveEffect(t, e, toServer);
        forall c | c in s.contacts && forall f <- es :: f !in s.contacts[c].entries ensures EntryRemove(t, e, toServer).contacts[c] == s.contacts[c] {
          assert t.contacts[c] == s.contacts[c] && e in es;
          WithoutMissing(t.contacts[c].entries, e);
        }
      } else {
        NothingRemoved(t, e, toServer);
      }
    }
  }

  lemma NothingRemoved(s: Roster, e: int, toServer: bool)
    requires e !in s.entries
    ensures EntryRemove(s, e, toServer) == s
  {
  }

  /** The contact is gone, from all groups too, and exactly its entries with it. */
  lemma ContactRemoveEffect(s: Roster, c: int, toServer: bool)
    requires Inv(s) && c in s.contacts
    ensures var t := ContactRemove(s, c, toServer);
            && t.contacts == s.contacts - {c} && t.groups.Keys == s.groups.Keys
            && (forall g <- t.groups :: t.groups[g] == s.groups[g].(contacts := Without(s.groups[g].contacts, c)))
            && (forall e :: e in t.entries <==> e in s.entries && s.entries[e].contact != c)
            && (forall e <- t.entries :: t.entries[e] == s.entries[e])
  {
    hide InvBut;
    hide DeleteContact;
    hide RemoveEntries;
    var es := s.contacts[c].entries;
    ListedEntries(s, c);
    RemoveEntriesEffect(s, es, toServer);
    RemoveEntriesEmpties(s, c, toServer);
    var t := RemoveEntries(s, es, toServer);
    ContactDeletedEffect(t, c);
    forall d | d in s.contacts && d != c ensures t.contacts[d] == s.contacts[d] {
      KnownContact(s, d);
    }
  }

  lemma SameKeys<T, U>(a: map<int, T>, b: map<int, U>)
    requires forall x :: x in a <==> x in b
    ensures a.Keys == b.Keys
  {
    forall x | x in a ensures x in b {}
    forall x | x in b ensures x in a {}
  }

  lemma ContactDeletedEffect(s: Roster, c: int)
    requires Inv(s) && c in s.contacts && s.contacts[c].entries == []
    ensures var t := DeleteContact(s, c);
            && t.contacts == s.contacts - {c} && t.groups.Keys == s.groups.Keys && t.entries == s.entries
            && forall g <- t.groups :: t.groups[g] == s.groups[g].(contacts := Without(s.groups[g].contacts, c))
  {
    hide InvBut;
    DeleteContactInv(s, c);
    DropFromGroupsShape(s, c, s.contacts[c].groups);
    var t := DeleteContact(s, c);
    SameKeys(t.groups, s.groups);
    forall g | g in t.groups && g !in s.contacts[c].groups ensures Without(s.groups[g].contacts, c) == s.groups[g].contacts {
      BothSides(s, c, g);
      WithoutMissing(s.groups[g].contacts, c);
    }
  }

  // ---- roster pushes ------------------------------------------------------------------------------

  /** The push adds an entry of the hidden contact that entry `d` belongs to. */
  predicate Adopted(s: Roster, account: int, item: Item, d: int)
    requires d in s.entries
  {
    var e := FindEntry(s, account, item.jid);
    e != -1 && !InList(s, s.entries[e].contact) && s.entries[d].contact == s.entries[e].contact
  }

  /** The group is the one the push asks for: the user's of the first name in it, or the general one. */
  predicate IsPushed(v: Group, item: Item) {
    if item.groups == [] then v.kind == NoGroup && v.name == "General" else v.kind == User && v.name == item.groups[0]
  }

  /** The contact is in the group the push asks for. */
  predicate InPushed(t: Roster, c: int, item: Item) {
    c in t.contacts && exists h <- t.contacts[c].groups :: h in t.groups && IsPushed(t.groups[h], item)
  }

  /** What the push names, and the first of its groups. */
  function NameIn(item: Item): string { if item.name == "" then item.jid else item.name }
  function MainIn(item: Item): string { if item.groups == [] then "" else item.groups[0] }

  lemma AdoptNext(s: Roster, ids: seq<int>, d: int, e: int, item: Item)
    requires e in s.entries && d in s.entries
    ensures var t, u := AdoptGroups(s, ids, e, item), AdoptGroups(s, ids + [d], e, item);
            var known := if d == e then item.groups else t.entries[e].groups;
            && u == t.(entries := u.entries, log := u.log)
            && u.entries == t.entries[d := t.entries[d].(groups := item.groups, mainGroup := if known == [] then "" else First(item.groups))]
  {
    assert (ids + [d])[..|ids|] == ids;
  }

  /** Every listed entry takes over the pushed groups, and no other. */
  lemma {:induction false} AdoptGroupsEffect(s: Roster, ids: seq<int>, e: int, item: Item)
    requires e in s.entries && forall d <- ids :: d in s.entries
    ensures var t := AdoptGroups(s, ids, e, item);
            && t.contacts == s.contacts && t.groups == s.groups && t.order == s.order && t.sent == s.sent
            && (forall d <- s.entries :: d in ids ==> t.entries[d] == s.entries[d].(groups := item.groups, mainGroup := t.entries[d].mainGroup))
            && (forall d <- s.entries :: d !in ids ==> t.entries[d] == s.entries[d])
  {
    hide AdoptGroups;
    if ids == [] {
      AdoptNone(s, e, item);
    } else {
      var rest, d := ids[..|ids| - 1], ids[|ids| - 1];
      assert ids == rest + [d];
      AdoptGroupsEffect(s, rest, e, item);
      AdoptNext(s, rest, d, e, item);
      var t, u := AdoptGroups(s, rest, e, item), AdoptGroups(s, ids, e, item);
      forall f | f in s.entries
        ensures u.entries[f] == if f in ids then s.entries[f].(groups := item.groups, mainGroup := u.entries[f].mainGroup) else s.entries[f]
      {
        assert f in ids <==> f in rest || f == d;
      }
    }
  }

  lemma AdoptNone(s: Roster, e: int, item: Item)
    requires e in s.entries
    ensures AdoptGroups(s, [], e, item) == s
  {
  }

  /** A contact that was looked up by a pushed name, or made for it, is in the pushed group. */
  lemma FoundPushed(t: Roster, g: int, name: string, item: Item)
    requires Inv(t) && g in t.groups && IsPushed(t.groups[g], item) && name != ""
    ensures var found := FindContact(t, name, t.groups[g].name, t.groups[g].kind);
            var u := if found != -1 then t else ContactAdd(t, g, name, -1);
            var c := if found != -1 then found else ContactAddId(t, g, name);
            && Inv(u) && InPushed(u, c, item) && u.contacts[c].name == name && u.entries == t.entries && u.byJid == t.byJid
            && u.nextEntry == t.nextEntry && u.order == t.order && (forall d <- t.contacts :: d in u.contacts && u.contacts[d] == t.contacts[d])
            && u.contacts == (if found != -1 then t.contacts else t.contacts[c := Contact(name, "", "", [g], [])])
            && (found == -1 ==> c !in t.contacts)
            && forall h :: (h in u.groups <==> h in t.groups) && (h in t.groups ==> u.groups[h].kind == t.groups[h].kind && u.groups[h].name == t.groups[h].name)
  {
    hide InvBut;
    var found := FindContact(t, name, t.groups[g].name, t.groups[g].kind);
    if found != -1 {
      assert found in t.contacts;
      var h := FindGroup(t.order, t.groups, t.groups[g].kind, t.groups[g].name);
      BothSides(t, found, h);
      assert h in t.contacts[found].groups;
    } else {
      NewContactInv(t, g, name, -1);
      var u := NewContact(t, g, name, -1);
      NextIsNew(t);
      assert u.contacts[t.nextContact].groups == [g] && g in u.contacts[t.nextContact].groups && g in u.groups;
    }
  }

  lemma NextIsNew(s: Roster)
    requires Inv(s)
    ensures s.nextContact !in s.contacts && s.nextEntry !in s.entries
  {
  }

  /** The address index with the entry filed in front of the others of its address. */
  function Filed(byJid: map<string, seq<int>>, j: string, e: int): map<string, seq<int>> { byJid[j := [e] + Under(byJid, j)] }

  /** After a push that adds an item: entries of an adopted contact have exactly the pushed groups, no other
      entry changed, nothing left, and an address that was new has one entry, in the pushed group. */
  lemma ItemAddedEffect(s: Roster, account: int, item: Item)
    requires Inv(s) && ItemOk(item)
    ensures var t, e := ItemAdded(s, account, item), FindEntry(s, account, item.jid);
            && (forall d <- s.entries :: d in t.entries && t.entries[d].contact == s.entries[d].contact && t.entries[d].name == s.entries[d].name
                  && t.entries[d].groups == if Adopted(s, account, item, d) then item.groups else s.entries[d].groups)
            && (forall d <- s.entries :: !Adopted(s, account, item, d) ==> t.entries[d] == s.entries[d])
            && (e != -1 && !InList(s, s.entries[e].contact) ==>
                  InPushed(t, s.entries[e].contact, item) && t.entries[e].sub == item.sub && t.entries[e].ask == item.ask)
            && (e == -1 ==> s.nextEntry in t.entries && t.entries.Keys == s.entries.Keys + {s.nextEntry}
                            && t.entries[s.nextEntry] == Entry(account, item.jid, NameIn(item), item.sub, item.ask, item.groups, MainIn(item),
                                                                t.entries[s.nextEntry].contact)
                            && t.byJid == Filed(s.byJid, item.jid, s.nextEntry) && InPushed(t, t.entries[s.nextEntry].contact, item))
  {
    hide InvBut;
    hide FindEntry;
    hide InList;
    var e := FindEntry(s, account, item.jid);
    if e == -1 {
      NewItem(s, account, item);
    } else if !InList(s, s.entries[e].contact) {
      AdoptedItem(s, account, item);
    }
  }

  /** What the push makes of the `i`th entry of the list: with no main group if the push names no group, or if
      its own entry had none and comes later in the list; otherwise with the first of the pushed ones. */
  function AdoptedAt(s: Roster, ids: seq<int>, e: int, item: Item, i: nat): Entry
    requires e in s.entries && i < |ids| && ids[i] in s.entries
  {
    s.entries[ids[i]].(groups := item.groups, mainGroup := if e !in ids[..i + 1] && s.entries[e].groups == [] then "" else MainIn(item))
  }

  lemma AdoptedLast(s: Roster, rest: seq<int>, d: int, e: int, item: Item)
    requires e in s.entries && d in s.entries && (forall f <- rest :: f in s.entries) && d !in rest
    ensures AdoptGroups(s, rest + [d], e, item).entries[d] == AdoptedAt(s, rest + [d], e, item, |rest|)
  {
    hide AdoptGroups;
    AdoptNext(s, rest, d, e, item);
    AdoptGroupsEffect(s, rest, e, item);
    assert (rest + [d])[..|rest| + 1] == rest + [d];
  }

  lemma {:induction false} AdoptedMain(s: Roster, ids: seq<int>, e: int, item: Item, i: nat)
    requires e in s.entries && (forall d <- ids :: d in s.entries) && i < |ids| && ids[i] !in ids[..i] && ids[i] !in ids[i + 1..]
    ensures ids[i] in s.entries && AdoptGroups(s, ids, e, item).entries[ids[i]] == AdoptedAt(s, ids, e, item, i)
  {
    hide AdoptGroups;
    var rest, x, d := ids[..|ids| - 1], ids[i], ids[|ids| - 1];
    assert x in ids && d in ids && ids == rest + [d];
    if i < |rest| {
      assert ids[i + 1..] == rest[i + 1..] + [d] && rest[..i] == ids[..i] && rest[..i + 1] == ids[..i + 1];
      AdoptedMain(s, rest, e, item, i);
      AdoptNext(s, rest, d, e, item);
    } else {
      assert rest == ids[..i];
      AdoptedLast(s, rest, d, e, item);
    }
  }

  lemma OnceThere(s: seq<int>, i: nat)
    requires NoDup(s) && i < |s|
    ensures s[i] !in s[..i] && s[i] !in s[i + 1..]
  {
  }

  /** When a push adopts a hidden contact, its own entry has the pushed subscription, and each entry of the contact
      the pushed groups and, as its main group, the first of them; but entries listed before the push's own
      have none if that had no groups before. */
  lemma AdoptedEntries(s: Roster, account: int, item: Item, i: nat)
    requires Inv(s) && ItemOk(item) && FindEntry(s, account, item.jid) != -1 && !InList(s, s.entries[FindEntry(s, account, item.jid)].contact)
    requires var c := s.entries[FindEntry(s, account, item.jid)].contact; c in s.contacts ==> i < |s.contacts[c].entries|
    ensures var t, e := ItemAdded(s, account, item), FindEntry(s, account, item.jid);
            s.entries[e].contact in s.contacts &&
            var es := s.contacts[s.entries[e].contact].entries;
            es[i] in s.entries && es[i] in t.entries &&
            var v := AdoptedAt(s, es, e, item, i);
            t.entries[es[i]] == if es[i] == e then v.(sub := item.sub, ask := item.ask) else v
  {
    hide InvBut;
    hide FindEntry;
    hide InList;
    hide EnsureGroup;
    hide EnsuredGroup;
    hide AdoptGroups;
    hide ItemAdded;
    hide Shown;
    AdoptedIs(s, account, item);
    var t, g, e := EnsureGroup(s, item), EnsuredGroup(s, item), FindEntry(s, account, item.jid);
    var c := s.entries[e].contact;
    var es := s.contacts[c].entries;
    ListedEntries(s, c);
    assert es[i] in es;
    ShownEffect(t, c, g, e, item);
    OnceThere(es, i);
    AdoptedMain(Shown(t, c, g, e, item), es, e, item, i);
  }

  /** All groups stay, with place, kind and name, and none is made but the pushed one, last, if there was none. */
  ghost predicate GroupsBut(s: Roster, t: Roster, item: Item) {
    t.order == s.order + (if exists k <- s.groups :: IsPushed(s.groups[k], item) then [] else [s.nextGroup]) &&
    (forall h <- s.groups :: h in t.groups && t.groups[h].kind == s.groups[h].kind && t.groups[h].name == s.groups[h].name)
    && forall h <- t.groups :: h in s.groups || (IsPushed(t.groups[h], item) && forall k <- s.groups :: !IsPushed(s.groups[k], item))
  }

  /** After a push that adds an item: an adopted contact has the pushed group instead of the hidden one; a new
      entry comes last with the contact found for it, or alone with a new one in the pushed group; no other
      contact changes, and no other group is lost or made. */
  lemma ItemAddedPlaces(s: Roster, account: int, item: Item)
    requires Inv(s) && ItemOk(item)
    ensures var t, e, g := ItemAdded(s, account, item), FindEntry(s, account, item.jid), EnsuredGroup(s, item);
            && (e != -1 && InList(s, s.entries[e].contact) ==> t == s)
            && (e == -1 || !InList(s, s.entries[e].contact) ==>
                  GroupsBut(s, t, item) && g in t.groups && IsPushed(t.groups[g], item))
            && (e != -1 && !InList(s, s.entries[e].contact) ==>
                  var c := s.entries[e].contact;
                  c in s.contacts && t.contacts == s.contacts[c := s.contacts[c].(groups := Without(s.contacts[c].groups, 1) + [g])])
            && (e == -1 ==>
                  s.nextEntry in t.entries &&
                  var n, c := s.nextEntry, t.entries[s.nextEntry].contact;
                  t.contacts == s.contacts[c := if c in s.contacts then s.contacts[c].(entries := s.contacts[c].entries + [n])
                                                else Contact(NameIn(item), "", "", [g], [n])])
  {
    hide InvBut;
    hide FindEntry;
    hide InList;
    hide GroupsBut;
    hide EnsuredGroup;
    var e := FindEntry(s, account, item.jid);
    if e == -1 {
      NewItemPlaces(s, account, item);
    } else if !InList(s, s.entries[e].contact) {
      AdoptedPlaces(s, account, item);
    }
  }

  lemma AdoptedPlaces(s: Roster, account: int, item: Item)
    requires Inv(s) && ItemOk(item) && FindEntry(s, account, item.jid) != -1 && !InList(s, s.entries[FindEntry(s, account, item.jid)].contact)
    ensures var t, e, g := ItemAdded(s, account, item), FindEntry(s, account, item.jid), EnsuredGroup(s, item);
            var c := s.entries[e].contact;
            && GroupsBut(s, t, item) && g in t.groups && IsPushed(t.groups[g], item)
            && c in s.contacts && t.contacts == s.contacts[c := s.contacts[c].(groups := Without(s.contacts[c].groups, 1) + [g])]
  {
    hide InvBut;
    hide FindEntry;
    hide InList;
    hide EnsureGroup;
    hide EnsuredGroup;
    hide AdoptGroups;
    hide ItemAdded;
    hide Shown;
    AdoptedIs(s, account, item);
    var t, g, e := EnsureGroup(s, item), EnsuredGroup(s, item), FindEntry(s, account, item.jid);
    var c := s.entries[e].contact;
    ListedEntries(s, c);
    EnsuredBut(s, item);
    ShownEffect(t, c, g, e, item);
    AdoptGroupsEffect(Shown(t, c, g, e, item), t.contacts[c].entries, e, item);
  }

  lemma EnsuredBut(s: Roster, item: Item)
    requires Inv(s) && ItemOk(item)
    ensures GroupsBut(s, EnsureGroup(s, item), item)
  {
    hide InvBut;
    GroupsFine(s);
    assert s.order + [] == s.order;
    assert Place(s.order, -1, s.nextGroup) == s.order + [s.nextGroup];
    var g := FindGroup(s.order, s.groups, PushedKind(item), PushedGroup(item));
    if g == -1 {
      forall k | k in s.groups ensures !IsPushed(s.groups[k], item) {
        KnownGroup(s, k, -1);
      }
    } else {
      assert IsPushed(s.groups[g], item);
    }
  }

  lemma NewItemPlaces(s: Roster, account: int, item: Item)
    requires Inv(s) && ItemOk(item) && FindEntry(s, account, item.jid) == -1
    ensures var t, g, n := ItemAdded(s, account, item), EnsuredGroup(s, item), s.nextEntry;
            && GroupsBut(s, t, item) && g in t.groups && IsPushed(t.groups[g], item)
            && n in t.entries &&
            var c := t.entries[n].contact;
            t.contacts == s.contacts[c := if c in s.contacts then s.contacts[c].(entries := s.contacts[c].entries + [n])
                                          else Contact(NameIn(item), "", "", [g], [n])]
  {
    hide InvBut;
    hide FindEntry;
    hide FindContact;
    hide ContactAdd;
    hide ContactAddId;
    hide EnsureGroup;
    hide EnsuredGroup;
    hide NewEntry;
    hide ItemAdded;
    EnsuredEffect(s, item);
    EnsuredBut(s, item);
    NewItemIs(s, account, item);
    var t, g, name := EnsureGroup(s, item), EnsuredGroup(s, item), PushedEntry(account, item, 0).name;
    FoundPushed(t, g, name, item);
    var found := FindContact(t, name, t.groups[g].name, t.groups[g].kind);
    var u := if found != -1 then t else ContactAdd(t, g, name, -1);
    var c := if found != -1 then found else ContactAddId(t, g, name);
    NewEntryPlace(u, PushedEntry(account, item, c));
    var none: seq<int> := [];
    assert none + [s.nextEntry] == [s.nextEntry];
    if found == -1 {
      assert u.contacts[c].entries + [s.nextEntry] == [s.nextEntry];
    }
  }

  lemma NewEntryPlace(s: Roster, v: Entry)
    requires v.contact in s.contacts
    ensures var t, c, n := NewEntry(s, v, -1), v.contact, s.nextEntry;
            t.contacts == s.contacts[c := s.contacts[c].(entries := s.contacts[c].entries + [n])] && t.groups == s.groups && t.order == s.order && t.entries == s.entries[n := v]
  {
    assert Place(s.contacts[v.contact].entries, -1, s.nextEntry) == s.contacts[v.contact].entries + [s.nextEntry];
  }

  lemma EnsuredEffect(s: Roster, item: Item)
    requires Inv(s) && ItemOk(item)
    ensures var t, g := EnsureGroup(s, item), EnsuredGroup(s, item);
            && Inv(t) && g in t.groups && IsPushed(t.groups[g], item)
            && t == s.(order := t.order, groups := t.groups, nextGroup := t.nextGroup, log := t.log)
  {
    hide InvBut;
    GroupsFine(s);
    GroupAddInv(s, PushedGroup(item), -1);
  }

  /** A push of a new address, step by step. */
  lemma NewItemIs(s: Roster, account: int, item: Item)
    requires FindEntry(s, account, item.jid) == -1
    ensures var t, g := EnsureGroup(s, item), EnsuredGroup(s, item);
            g in t.groups ==>
              var name := PushedEntry(account, item, 0).name;
              var found := FindContact(t, name, t.groups[g].name, t.groups[g].kind);
              var u := if found != -1 then t else ContactAdd(t, g, name, -1);
              var c := if found != -1 then found else ContactAddId(t, g, name);
              c in u.contacts ==> ItemAdded(s, account, item) == NewEntry(u, PushedEntry(account, item, c), -1)
  {
    hide FindEntry;
    hide FindContact;
    hide ContactAdd;
    hide ContactAddId;
    hide EnsureGroup;
    hide EnsuredGroup;
    hide NewEntry;
  }

  lemma NewEntryEffect(s: Roster, v: Entry, item: Item)
    requires v.contact in s.contacts && InPushed(s, v.contact, item)
    ensures var t := NewEntry(s, v, -1);
            t.entries == s.entries[s.nextEntry := v] && InPushed(t, v.contact, item) && t.byJid == Filed(s.byJid, v.jid, s.nextEntry)
  {
    var t := NewEntry(s, v, -1);
    assert t.contacts[v.contact].groups == s.contacts[v.contact].groups;
  }

  lemma NewItem(s: Roster, account: int, item: Item)
    requires Inv(s) && ItemOk(item) && FindEntry(s, account, item.jid) == -1
    ensures var t, n := ItemAdded(s, account, item), s.nextEntry;
            && n !in s.entries && n in t.entries && t.entries == s.entries[n := t.entries[n]]
            && t.entries[n] == PushedEntry(account, item, t.entries[n].contact) && InPushed(t, t.entries[n].contact, item)
            && t.byJid == Filed(s.byJid, item.jid, n)
  {
    hide InvBut;
    hide FindEntry;
    hide FindContact;
    hide ContactAdd;
    hide ContactAddId;
    hide EnsureGroup;
    hide EnsuredGroup;
    hide NewEntry;
    hide ItemAdded;
    hide InPushed;
    EnsuredEffect(s, item);
    NewItemIs(s, account, item);
    var t, g, name := EnsureGroup(s, item), EnsuredGroup(s, item), PushedEntry(account, item, 0).name;
    FoundPushed(t, g, name, item);
    NextIsNew(s);
    var found := FindContact(t, name, t.groups[g].name, t.groups[g].kind);
    var u := if found != -1 then t else ContactAdd(t, g, name, -1);
    var c := if found != -1 then found else ContactAddId(t, g, name);
    assert c in u.contacts by { PushedLives(u, c, item); }
    NewEntryEffect(u, PushedEntry(account, item, c), item);
  }

  lemma PushedLives(t: Roster, c: int, item: Item)
    requires InPushed(t, c, item)
    ensures c in t.contacts
  {
  }

  /** The roster in which the hidden contact has left its group for the pushed one. */
  function Shown(t: Roster, c: int, g: int, e: int, item: Item): Roster
    requires c in t.contacts && g in t.groups && 1 in t.groups && e in t.entries
  {
    var u := Queue(Link(Unlink(t, c, 1), c, g), ContactGroupChanged(c, 1, g));
    SetEntry(u, e, u.entries[e].(sub := item.sub, ask := item.ask))
  }

  lemma ShownEffect(t: Roster, c: int, g: int, e: int, item: Item)
    requires c in t.contacts && g in t.groups && 1 in t.groups && e in t.entries
    ensures var w := Shown(t, c, g, e, item);
            && w.entries == t.entries[e := t.entries[e].(sub := item.sub, ask := item.ask)] && w.sent == t.sent && w.order == t.order
            && c in w.contacts && w.contacts[c].entries == t.contacts[c].entries && g in w.contacts[c].groups
            && w.contacts == t.contacts[c := t.contacts[c].(groups := Without(t.contacts[c].groups, 1) + [g])]
            && forall h :: (h in w.groups <==> h in t.groups) && (h in t.groups ==> w.groups[h].kind == t.groups[h].kind && w.groups[h].name == t.groups[h].name)
  {
    hide Without;
    var w, gs := Shown(t, c, g, e, item), Without(t.contacts[c].groups, 1);
    assert g in gs + [g];
    ShownContacts(t, c, g, e, item);
  }

  lemma ShownContacts(t: Roster, c: int, g: int, e: int, item: Item)
    requires c in t.contacts && g in t.groups && 1 in t.groups && e in t.entries
    ensures Shown(t, c, g, e, item).contacts == t.contacts[c := t.contacts[c].(groups := Without(t.contacts[c].groups, 1) + [g])]
  {
    hide Without;
  }

  lemma AdoptedIs(s: Roster, account: int, item: Item)
    requires Inv(s) && ItemOk(item) && FindEntry(s, account, item.jid) != -1 && !InList(s, s.entries[FindEntry(s, account, item.jid)].contact)
    ensures var t, g, e := EnsureGroup(s, item), EnsuredGroup(s, item), FindEntry(s, account, item.jid);
            var c := s.entries[e].contact;
            && g in t.groups && IsPushed(t.groups[g], item)
            && c in t.contacts && 1 in t.groups && t.entries == s.entries && t.contacts == s.contacts
            && ItemAdded(s, account, item) == AdoptGroups(Shown(t, c, g, e, item), t.contacts[c].entries, e, item)
  {
    hide InvBut;
    hide FindEntry;
    hide FindGroup;
    hide InList;
    hide EnsureGroup;
    hide EnsuredGroup;
    hide AdoptGroups;
    EnsuredEffect(s, item);
    General(EnsureGroup(s, item), -1);
    KnownEntry(s, FindEntry(s, account, item.jid));
  }

  /** The groups the bridge finds with entry `e` when it comes to the `k`th entry of the list; if there are
      any, it reads the first of the pushed ones. */
  function KnownThen(w: Roster, ids: seq<int>, k: nat, e: int, item: Item): seq<string>
    requires e in w.entries && k < |ids|
  {
    if ids[k] == e then item.groups else AdoptGroups(w, ids[..k], e, item).entries[e].groups
  }

  /** Somewhere in the list the bridge reads the first of no groups. */
  predicate ReadsNone(w: Roster, ids: seq<int>, e: int, item: Item)
    requires e in w.entries
  {
    item.groups == [] && exists k :: 0 <= k < |ids| && KnownThen(w, ids, k, e, item) != []
  }

  /** An adopting push makes the bridge read the first of no groups, if and only if it names none, while its
      entry has some and does not head the contact's list. */
  lemma AdoptOkExact(s: Roster, account: int, item: Item)
    requires Inv(s) && ItemOk(item) && FindEntry(s, account, item.jid) != -1 && !InList(s, s.entries[FindEntry(s, account, item.jid)].contact)
    ensures var t, g, e := EnsureGroup(s, item), EnsuredGroup(s, item), FindEntry(s, account, item.jid);
            var c := s.entries[e].contact;
            && g in t.groups && c in t.contacts && 1 in t.groups && e in t.entries
            && e in Shown(t, c, g, e, item).entries
            && (ReadsNone(Shown(t, c, g, e, item), t.contacts[c].entries, e, item) <==> !AdoptOk(s, account, item))
  {
    hide InvBut;
    hide FindEntry;
    hide InList;
    hide EnsureGroup;
    hide EnsuredGroup;
    hide AdoptGroups;
    hide ItemAdded;
    hide Shown;
    AdoptedIs(s, account, item);
    var t, g, e := EnsureGroup(s, item), EnsuredGroup(s, item), FindEntry(s, account, item.jid);
    var c := s.entries[e].contact;
    var ids := t.contacts[c].entries;
    ListedEntries(s, c);
    KnownEntry(s, e);
    ShownEffect(t, c, g, e, item);
    var w := Shown(t, c, g, e, item);
    forall k | 0 <= k < |ids| && item.groups == [] && (ids[0] == e || s.entries[e].groups == []) ensures KnownThen(w, ids, k, e, item) == [] {
      assert k > 0 ==> ids[..k][0] == ids[0];
      AdoptGroupsEffect(w, ids[..k], e, item);
    }
    if item.groups == [] && s.entries[e].groups != [] && ids[0] != e {
      AdoptGroupsEffect(w, ids[..0], e, item);
      assert KnownThen(w, ids, 0, e, item) != [];
    }
  }

  lemma AdoptedItem(s: Roster, account: int, item: Item)
    requires Inv(s) && ItemOk(item) && FindEntry(s, account, item.jid) != -1 && !InList(s, s.entries[FindEntry(s, account, item.jid)].contact)
    ensures var t, e := ItemAdded(s, account, item), FindEntry(s, account, item.jid);
            var c := s.entries[e].contact;
            && (forall d <- s.entries :: d in t.entries) && InPushed(t, c, item) && t.entries[e].sub == item.sub && t.entries[e].ask == item.ask
            && (forall d <- s.entries :: t.entries[d].contact == s.entries[d].contact && t.entries[d].name == s.entries[d].name)
            && (forall d <- s.entries :: s.entries[d].contact == c ==> t.entries[d].groups == item.groups)
            && (forall d <- s.entries :: s.entries[d].contact != c ==> t.entries[d].groups == s.entries[d].groups && t.entries[d] == s.entries[d])
  {
    hide InvBut;
    hide FindEntry;
    hide InList;
    hide EnsureGroup;
    hide EnsuredGroup;
    hide AdoptGroups;
    hide ItemAdded;
    hide Shown;
    AdoptedIs(s, account, item);
    var t, g, e := EnsureGroup(s, item), EnsuredGroup(s, item), FindEntry(s, account, item.jid);
    var c := s.entries[e].contact;
    ListedEntries(s, c);
    ShownEffect(t, c, g, e, item);
    AdoptGroupsEffect(Shown(t, c, g, e, item), t.contacts[c].entries, e, item);
  }

  /** Groups keep place, kind and name, and none is lost or made. */
  ghost predicate SameNames(s: Roster, t: Roster) {
    t.order == s.order && (forall g :: g in t.groups <==> g in s.groups)
    && forall g <- s.groups :: t.groups[g].kind == s.groups[g].kind && t.groups[g].name == s.groups[g].name
  }

  lemma EmptyRemoved(s: Roster, c: int)
    requires c in s.contacts && s.contacts[c].entries == []
    ensures var t := ContactRemove(s, c, true); t.contacts == s.contacts - {c} && t.entries == s.entries && SameNames(s, t)
  {
    assert RemoveEntries(s, [], true) == s;
    DropFromGroupsShape(s, c, s.contacts[c].groups);
  }

  /** Moving an entry to another contact; the one it leaves goes if it has no other entry. */
  lemma MovedEffect(s: Roster, e: int, to: int)
    requires Inv(s) && e in s.entries && to in s.contacts && s.entries[e].contact in s.contacts && s.entries[e].contact != to
    ensures var t, from := MoveEntry(s, e, to), s.entries[e].contact;
            && t.entries == s.entries[e := s.entries[e].(contact := to)] && t.groups == s.groups && t.order == s.order
            && from in t.contacts && to in t.contacts && t.contacts[to].groups == s.contacts[to].groups && t.contacts[to].name == s.contacts[to].name
            && (t.contacts[from].entries == [] <==> OnlyEntry(s, from, e))
  {
    hide InvBut;
    MovedShape(s, e, to);
    Alone(s, s.entries[e].contact, e);
  }

  lemma RehomeEffect(s: Roster, e: int, to: int)
    requires Inv(s) && e in s.entries && to in s.contacts
    ensures var t, from := Rehome(s, e, to), s.entries[e].contact;
            && t.entries == s.entries[e := s.entries[e].(contact := to)] && SameNames(s, t)
            && to in t.contacts && t.contacts[to].groups == s.contacts[to].groups && t.contacts[to].name == s.contacts[to].name
            && (from !in t.contacts <==> from != to && OnlyEntry(s, from, e))
  {
    hide InvBut;
    hide ContactRemove;
    hide OnlyEntry;
    hide MoveEntry;
    var from := s.entries[e].contact;
    KnownEntry(s, e);
    if from != to {
      var t := MoveEntry(s, e, to);
      MovedEffect(s, e, to);
      if t.contacts[from].entries == [] {
        EmptyRemoved(t, from);
      }
    } else {
      assert s.entries == s.entries[e := s.entries[e].(contact := to)];
    }
  }

  /** The contact has no other entry. */
  predicate OnlyEntry(s: Roster, c: int, e: int) { forall d <- s.entries :: s.entries[d].contact == c ==> d == e }

  lemma Alone(s: Roster, c: int, e: int)
    requires Inv(s) && c in s.contacts
    ensures Without(s.contacts[c].entries, e) == [] <==> OnlyEntry(s, c, e)
  {
    hide InvBut;
    ListedEntries(s, c);
    if Without(s.contacts[c].entries, e) != [] {
      var d := Head(Without(s.contacts[c].entries, e));
      assert d in s.entries && s.entries[d].contact == c && d != e;
    }
  }

  /** The push does not name the entry's main group any more, or names groups where it had none. */
  predicate LosesMain(v: Entry, item: Item) {
    if v.groups == [] then item.groups != [] else v.mainGroup !in item.groups
  }

  /** The entry is as pushed: it has the pushed subscription, groups and, if there is one, name; its main group is
      the first of the pushed ones if the push moves it, and the old one otherwise. */
  predicate AsPushed(v: Entry, item: Item, w: Entry) {
    && w.account == v.account && w.jid == v.jid
    && w.sub == item.sub && w.ask == item.ask && w.groups == item.groups
    && w.name == (if item.name == "" then v.name else item.name)
    && w.mainGroup == (if LosesMain(v, item) then MainIn(item) else v.mainGroup)
  }

  /** After a push that changes a known item: the entry is as pushed. If that changes its group, it is with a
      contact of its name in the pushed group, and its old contact is gone if and only if it had no other
      entry and is not that contact; otherwise the entry stays. No other entry changes. */
  lemma ItemUpdatedEffect(s: Roster, account: int, item: Item)
    requires Inv(s) && ItemOk(item) && UpdateOk(s, account, item) && FindEntry(s, account, item.jid) != -1
    ensures var t, e := ItemUpdated(s, account, item), FindEntry(s, account, item.jid);
            var c := s.entries[e].contact;
            && t.entries.Keys == s.entries.Keys && AsPushed(s.entries[e], item, t.entries[e])
            && (forall d <- s.entries :: d != e ==> t.entries[d] == s.entries[d])
            && (!LosesMain(s.entries[e], item) ==> t.entries[e].contact == c && t.contacts == s.contacts)
            && (LosesMain(s.entries[e], item) ==>
                  && InPushed(t, t.entries[e].contact, item) && t.contacts[t.entries[e].contact].name == t.entries[e].name
                  && (c !in t.contacts <==> c != t.entries[e].contact && OnlyEntry(s, c, e)))
  {
    hide InvBut;
    hide FindEntry;
    hide EnsureGroup;
    hide EnsuredGroup;
    hide FindContact;
    hide ContactAdd;
    hide ContactAddId;
    hide Rehome;
    hide InPushed;
    hide OnlyEntry;
    var e := FindEntry(s, account, item.jid);
    var v := UpdatedEntry(s.entries[e], item);
    if !ChangesGroup(s.entries[e], item) {
      assert SetEntry(s, e, v).entries.Keys == s.entries.Keys;
    } else {
      KnownEntry(s, e);
      UpdatedEntryOk(s.entries[e], item);
      MovedItem(s, e, v, item);
      var r := SetEntry(s, e, v);
      var t, g := EnsureGroup(r, item), EnsuredGroup(r, item);
      var found := FindContact(t, v.name, t.groups[g].name, t.groups[g].kind);
      var u := if found != -1 then t else ContactAdd(t, g, v.name, -1);
      var to := if found != -1 then found else ContactAddId(t, g, v.name);
      EnsuredSame(s, e, v, item);
      assert ItemUpdated(s, account, item) == ReportEntry(Rehome(u, e, to), e);
      SamePushed(Rehome(u, e, to), ItemUpdated(s, account, item), to, item);
    }
  }

  lemma SamePushed(t: Roster, u: Roster, c: int, item: Item)
    requires InPushed(t, c, item) && u.contacts == t.contacts && u.groups == t.groups
    ensures InPushed(u, c, item) && c in u.contacts
  {
  }

  lemma MovedItem(s: Roster, e: int, v: Entry, item: Item)
    requires Inv(s) && ItemOk(item) && e in s.entries && v.name != "" && EntryTextsOk(v) && SamePlace(s.entries[e], v)
    ensures var r := SetEntry(s, e, v);
            var t, g := EnsureGroup(r, item), EnsuredGroup(r, item);
            g in t.groups &&
            var found := FindContact(t, v.name, t.groups[g].name, t.groups[g].kind);
            var u := if found != -1 then t else ContactAdd(t, g, v.name, -1);
            var to := if found != -1 then found else ContactAddId(t, g, v.name);
            e in u.entries && to in u.contacts &&
            var w, c := Rehome(u, e, to), s.entries[e].contact;
            && w.entries.Keys == s.entries.Keys && w.entries[e] == v.(contact := to)
            && (forall d <- s.entries :: d != e ==> w.entries[d] == s.entries[d])
            && InPushed(w, to, item) && w.contacts[to].name == v.name && (c !in w.contacts <==> c != to && OnlyEntry(s, c, e))
  {
    hide InvBut;
    hide FindContact;
    hide ContactAdd;
    hide ContactAddId;
    hide EnsureGroup;
    hide EnsuredGroup;
    hide Rehome;
    var r := SetEntry(s, e, v);
    SetEntryInv(s, e, v, -1);
    EnsuredEffect(r, item);
    var t, g := EnsureGroup(r, item), EnsuredGroup(r, item);
    FoundPushed(t, g, v.name, item);
    var found := FindContact(t, v.name, t.groups[g].name, t.groups[g].kind);
    var u := if found != -1 then t else ContactAdd(t, g, v.name, -1);
    var to := if found != -1 then found else ContactAddId(t, g, v.name);
    assert r.entries.Keys == s.entries.Keys && u.entries == r.entries;
    RehomeEffect(u, e, to);
    SameOnly(s, u, s.entries[e].contact, e);
    StillPushed(u, Rehome(u, e, to), to, item);
  }

  lemma SameOnly(s: Roster, u: Roster, c: int, e: int)
    requires u.entries.Keys == s.entries.Keys && forall d <- s.entries :: u.entries[d].contact == s.entries[d].contact
    ensures OnlyEntry(u, c, e) <==> OnlyEntry(s, c, e)
  {
  }

  lemma StillPushed(u: Roster, w: Roster, c: int, item: Item)
    requires InPushed(u, c, item) && c in w.contacts && w.contacts[c].groups == u.contacts[c].groups
    requires SameNames(u, w)
    ensures InPushed(w, c, item)
  {
    var h :| h in u.contacts[c].groups && h in u.groups && IsPushed(u.groups[h], item);
    assert h in w.contacts[c].groups;
  }

  /** When a push moves the entry to another group, the bridge finds or makes a contact of its name there, if
      and only if it has a name; otherwise it goes on without any. */
  lemma UpdateOkExact(s: Roster, account: int, item: Item)
    requires Inv(s) && ItemOk(item) && FindEntry(s, account, item.jid) != -1 && ChangesGroup(s.entries[FindEntry(s, account, item.jid)], item)
    ensures var e := FindEntry(s, account, item.jid);
            var v := UpdatedEntry(s.entries[e], item);
            var t, g := EnsureGroup(SetEntry(s, e, v), item), EnsuredGroup(s, item);
            && g in t.groups
            && (FindContact(t, v.name, t.groups[g].name, t.groups[g].kind) == -1 && ContactAddId(t, g, v.name) == -1 <==> !UpdateOk(s, account, item))
  {
    hide InvBut;
    hide FindEntry;
    hide EnsureGroup;
    hide EnsuredGroup;
    hide FindContact;
    var e := FindEntry(s, account, item.jid);
    var v := UpdatedEntry(s.entries[e], item);
    KnownEntry(s, e);
    UpdatedEntryOk(s.entries[e], item);
    SetEntryInv(s, e, v, -1);
    EnsuredEffect(SetEntry(s, e, v), item);
    EnsuredSame(s, e, v, item);
    Nameless(EnsureGroup(SetEntry(s, e, v), item), EnsuredGroup(s, item), v.name);
  }

  /** Looking for a contact of that name, and then adding one, ends without any if and only if it is empty. */
  lemma Nameless(t: Roster, g: int, name: string)
    requires Inv(t) && g in t.groups
    ensures FindContact(t, name, t.groups[g].name, t.groups[g].kind) == -1 && ContactAddId(t, g, name) == -1 <==> name == ""
  {
    hide InvBut;
    hide FindContact;
    var c := FindContact(t, name, t.groups[g].name, t.groups[g].kind);
    if c != -1 {
      KnownContact(t, c);
    }
    NextUsable(t.contacts, t.nextContact) by { ContactsFine(t); }
  }

  lemma ContactsFine(s: Roster)
    requires Inv(s)
    ensures ContactsOk(s.contacts, s.nextContact)
  {
  }

  /** When an entry's tag changes, the bridge ends without a contact for it if and only if no contact is found
      for the tag and the entry has no name to make one. */
  lemma TagOkExact(s: Roster, account: int, jid: string, tag: string)
    requires Inv(s) && FindEntry(s, account, jid) != -1
    ensures var e := FindEntry(s, account, jid);
            && s.entries[e].contact in s.contacts && s.contacts[s.entries[e].contact].groups != []
            && (tag != s.contacts[s.entries[e].contact].tag ==>
                  (TagTarget(s, e, tag) == -1 && ContactAddId(s, s.contacts[s.entries[e].contact].groups[0], s.entries[e].name) == -1
                   <==> !TagOk(s, account, jid, tag)))
  {
    hide InvBut;
    hide FindEntry;
    hide FindContact;
    hide TagTarget;
    var e := FindEntry(s, account, jid);
    KnownEntry(s, e);
    KnownContact(s, s.entries[e].contact);
    var g := s.contacts[s.entries[e].contact].groups[0];
    NamedAdded(s, g, s.entries[e].name);
  }

  lemma NamedAdded(s: Roster, g: int, name: string)
    requires Inv(s) && g in s.groups
    ensures ContactAddId(s, g, name) == -1 <==> name == ""
  {
    hide InvBut;
    hide FindContact;
    NextUsable(s.contacts, s.nextContact) by { ContactsFine(s); }
  }

  /** After a push that removes an item, exactly its entry is gone, and its contact if it had no other. */
  lemma ItemRemovedEffect(s: Roster, account: int, item: Item)
    requires Inv(s) && FindEntry(s, account, item.jid) != -1
    ensures var t, e := ItemRemoved(s, account, item), FindEntry(s, account, item.jid);
            && t.entries == s.entries - {e} && SameNames(s, t)
            && (forall c :: c in t.contacts <==> c in s.contacts && !(c == s.entries[e].contact && OnlyEntry(s, c, e)))
            && forall c <- t.contacts :: t.contacts[c] == if c == s.entries[e].contact then s.contacts[c].(entries := Without(s.contacts[c].entries, e))
                                                          else s.contacts[c]
  {
    hide InvBut;
    hide FindEntry;
    hide OnlyEntry;
    hide ContactRemove;
    hide DeleteEntry;
    var e := FindEntry(s, account, item.jid);
    var c, t := s.entries[e].contact, DeleteEntry(s, e);
    KnownEntry(s, e);
    Alone(s, c, e);
    DeletedShape(s, e);
    if t.contacts[c].entries == [] {
      EmptyRemoved(t, c);
    }
  }

  lemma DeletedShape(s: Roster, e: int)
    requires e in s.entries && s.entries[e].contact in s.contacts
    ensures var t, c := DeleteEntry(s, e), s.entries[e].contact;
            && t.entries == s.entries - {e} && t.groups == s.groups && t.order == s.order
            && t.contacts == s.contacts[c := s.contacts[c].(entries := Without(s.contacts[c].entries, e))]
  {
    hide Without;
    hide DropIndexed;
  }

  // ---- strangers ----------------------------------------------------------------------------------

  /** A new contact of that name in the hidden group only, listed there last, with one entry for the address; both
      are announced, then `more` is. All else stays. */
  ghost predicate HiddenAdded(s: Roster, t: Roster, account: int, jid: string, contactName: string, entryName: string, more: seq<Note>) {
    var c, e := s.nextContact, s.nextEntry;
    && c !in s.contacts && e !in s.entries && 1 in s.groups
    && t.contacts == s.contacts[c := Contact(contactName, "", "", [1], [e])]
    && t.entries == s.entries[e := Entry(account, jid, entryName, "none", false, [], "", c)]
    && t.groups == s.groups[1 := s.groups[1].(contacts := s.groups[1].contacts + [c])]
    && t.log == s.log + [ContactAdded(1, c, contactName, "")] + [EntryAdded(c, e, EntryProps(account, jid, "none", false))] + more
    && t.sent == s.sent && t.order == s.order && t.byJid == Filed(s.byJid, jid, e)
  }

  /** What is announced about the entry for each kind of subscription stanza. */
  function Asked(e: int, kind: SubscriptionType, nick: string, reason: string): seq<Note> {
    if kind == SubscribeRequest then [AuthRequest(e, nick, reason)]
    else if kind == Subscribed then [AuthGranted(e)]
    else if kind == Unsubscribed then [AuthLost(e)]
    else []
  }

  /** A subscription stanza from an address not in the roster makes it a hidden contact, called by its nickname if
      it has one, then announces what was asked about it; from a known one it only announces that. */
  lemma SubscriptionEffect(s: Roster, account: int, jid: string, kind: SubscriptionType, nick: string, reason: string)
    requires Inv(s)
    ensures var t, e := Subscription(s, account, jid, kind, nick, reason), FindEntry(s, account, jid);
            var name := if nick == "" then jid else nick;
            if e == -1 then HiddenAdded(s, t, account, jid, name, name, Asked(s.nextEntry, kind, nick, reason))
            else t == s.(log := s.log + Asked(e, kind, nick, reason))
  {
    hide InvBut;
    hide FindEntry;
    hide AddHidden;
    var name := if nick == "" then jid else nick;
    assert s.log + [] == s.log;
    AddHiddenEffect(s, account, jid, name, name);
  }

  /** So does a chat from an address not in the roster, but its entry has no name. */
  lemma ChatFromEffect(s: Roster, account: int, jid: string)
    requires Inv(s)
    ensures var t := ChatFrom(s, account, jid);
            if FindEntry(s, account, jid) == -1 then HiddenAdded(s, t, account, jid, jid, "", []) else t == s
  {
    hide InvBut;
    if FindEntry(s, account, jid) == -1 {
      AddHiddenEffect(s, account, jid, jid, "");
    }
  }

  lemma AddHiddenEffect(s: Roster, account: int, jid: string, contactName: string, entryName: string)
    requires Inv(s)
    ensures HiddenAdded(s, AddHidden(s, account, jid, contactName, entryName), account, jid, contactName, entryName, [])
  {
    hide InvBut;
    hide FindGroup;
    hide Place;
    General(s, -1);
    NextIsNew(s);
    PlaceFirst(s.nextEntry);
    PlaceLast(s.groups[1].contacts, s.nextContact);
  }

  lemma PlaceLast(s: seq<int>, x: int)
    ensures Place(s, -1, x) == s + [x]
  {
  }

  lemma PlaceFirst(x: int)
    ensures Place([], -1, x) == [x]
  {
  }
}
