/** Which contact an entry ends up with when a push or its tag moves it, and what becomes of the one it leaves. */
module RosterMoves {
  import opened Lists
  import opened RosterModel
  import opened RosterInvariant
  import opened RosterMirror
  import opened RosterOps
  import opened RosterEffects
  import opened RosterServer

  /** The contacts once the entry has gone from one to the end of the other's list; the one it leaves is gone too if
      that was its only entry. Handed to its own contact, it stays where it is. */
  function Handed(contacts: map<int, Contact>, e: int, from: int, to: int, only: bool): map<int, Contact>
    requires from in contacts && to in contacts
  {
    if from == to then contacts
    else
      var all := contacts[from := contacts[from].(entries := Without(contacts[from].entries, e))][to := contacts[to].(entries := contacts[to].entries + [e])];
      if only then all - {from} else all
  }

  lemma RehomePlaces(s: Roster, e: int, to: int)
    requires Inv(s) && e in s.entries && to in s.contacts
    ensures var t, from := Rehome(s, e, to), s.entries[e].contact;
            && from in s.contacts && t.contacts == Handed(s.contacts, e, from, to, OnlyEntry(s, from, e))
            && t.entries == s.entries[e := s.entries[e].(contact := to)] && t.sent == s.sent && SameNames(s, t)
  {
    hide InvBut;
    hide ContactRemove;
    hide OnlyEntry;
    hide MoveEntry;
    var from := s.entries[e].contact;
    KnownEntry(s, e);
    RehomeEffect(s, e, to);
    if from != to {
      var t := MoveEntry(s, e, to);
      MovedShape(s, e, to);
      MovedEffect(s, e, to);
      RehomeQuiet(s, e, to);
      if t.contacts[from].entries == [] {
        EmptyRemoved(t, from);
      }
    }
  }

  // ---- pushes -------------------------------------------------------------------------------------

  /** A push that moves its entry hands it to a contact in the pushed group: one that is there already, or a new
      one called as the entry in that group only. No other contact changes, and no other group is made. */
  lemma ItemUpdatedPlaces(s: Roster, account: int, item: Item)
    requires Inv(s) && ItemOk(item) && UpdateOk(s, account, item) && FindEntry(s, account, item.jid) != -1
    requires LosesMain(s.entries[FindEntry(s, account, item.jid)], item)
    ensures var t, e := ItemUpdated(s, account, item), FindEntry(s, account, item.jid);
            var c := s.entries[e].contact;
            && GroupsBut(s, t, item) && c in s.contacts && e in t.entries &&
            var to := t.entries[e].contact;
            && to in t.contacts
            && (to !in s.contacts ==> |t.contacts[to].groups| == 1)
            && var known := if to in s.contacts then s.contacts else s.contacts[to := Contact(t.entries[e].name, "", "", t.contacts[to].groups, [])];
            t.contacts == Handed(known, e, c, to, OnlyEntry(s, c, e))
  {
    hide InvBut;
    hide FindEntry;
    hide EnsureGroup;
    hide EnsuredGroup;
    hide FindContact;
    hide ContactAdd;
    hide ContactAddId;
    hide Rehome;
    hide OnlyEntry;
    hide Handed;
    hide GroupsBut;
    var e := FindEntry(s, account, item.jid);
    var v := UpdatedEntry(s.entries[e], item);
    KnownEntry(s, e);
    UpdatedEntryOk(s.entries[e], item);
    MovedPlaces(s, e, v, item);
    var r := SetEntry(s, e, v);
    var t, g := EnsureGroup(r, item), EnsuredGroup(r, item);
    var found := FindContact(t, v.name, t.groups[g].name, t.groups[g].kind);
    var u := if found != -1 then t else ContactAdd(t, g, v.name, -1);
    var to := if found != -1 then found else ContactAddId(t, g, v.name);
    EnsuredSame(s, e, v, item);
    assert ItemUpdated(s, account, item) == ReportEntry(Rehome(u, e, to), e);
    SameBut(s, Rehome(u, e, to), ItemUpdated(s, account, item), item);
  }

  lemma SameBut(s: Roster, t: Roster, u: Roster, item: Item)
    requires GroupsBut(s, t, item) && u.order == t.order && (forall g :: g in u.groups <==> g in t.groups)
    requires forall g <- t.groups :: u.groups[g].kind == t.groups[g].kind && u.groups[g].name == t.groups[g].name
    ensures GroupsBut(s, u, item)
  {
  }

  lemma MovedPlaces(s: Roster, e: int, v: Entry, item: Item)
    requires Inv(s) && ItemOk(item) && e in s.entries && v.name != "" && EntryTextsOk(v) && SamePlace(s.entries[e], v)
    ensures var r := SetEntry(s, e, v);
            var t, g := EnsureGroup(r, item), EnsuredGroup(r, item);
            g in t.groups &&
            var found := FindContact(t, v.name, t.groups[g].name, t.groups[g].kind);
            var u := if found != -1 then t else ContactAdd(t, g, v.name, -1);
            var to := if found != -1 then found else ContactAddId(t, g, v.name);
            e in u.entries && to in u.contacts &&
            var w, c := Rehome(u, e, to), s.entries[e].contact;
            && e in w.entries && w.entries[e] == v.(contact := to) && GroupsBut(s, w, item) && c in s.contacts && to in w.contacts
            && (to !in s.contacts ==> w.contacts[to].groups == [g])
            && var known := if to in s.contacts then s.contacts else s.contacts[to := Contact(v.name, "", "", [g], [])];
            w.contacts == Handed(known, e, c, to, OnlyEntry(s, c, e))
  {
    hide InvBut;
    hide FindContact;
    hide ContactAdd;
    hide ContactAddId;
    hide EnsureGroup;
    hide EnsuredGroup;
    hide Rehome;
    hide OnlyEntry;
    hide InPushed;
    hide GroupsBut;
    var r := SetEntry(s, e, v);
    SetEntryInv(s, e, v, -1);
    EnsuredEffect(r, item);
    EnsuredBut(r, item);
    var t, g := EnsureGroup(r, item), EnsuredGroup(r, item);
    FoundPushed(t, g, v.name, item);
    var found := FindContact(t, v.name, t.groups[g].name, t.groups[g].kind);
    var u := if found != -1 then t else ContactAdd(t, g, v.name, -1);
    var to := if found != -1 then found else ContactAddId(t, g, v.name);
    KnownEntry(s, e);
    SameOnly(s, u, s.entries[e].contact, e);
    RehomePlaces(u, e, to);
    SameBut(r, t, u, item);
    SameBut(r, u, Rehome(u, e, to), item);
    SameBefore(s, r, Rehome(u, e, to), item);
  }

  lemma SameBefore(s: Roster, r: Roster, t: Roster, item: Item)
    requires r.groups == s.groups && r.order == s.order && r.nextGroup == s.nextGroup && GroupsBut(r, t, item)
    ensures GroupsBut(s, t, item)
  {
  }

  // ---- tags ---------------------------------------------------------------------------------------

  /** The tag is the contact's own: the entry is only announced again. */
  lemma TagKept(s: Roster, account: int, jid: string, tag: string, changed: set<int>)
    requires Inv(s) && FindEntry(s, account, jid) != -1
    ensures var e := FindEntry(s, account, jid);
            s.entries[e].contact in s.contacts &&
            (tag == s.contacts[s.entries[e].contact].tag ==>
               TagChanged(s, account, jid, tag, changed) == s.(log := s.log + [EntryChanged(e, Props(s.entries[e]))]))
  {
    hide InvBut;
    hide FindEntry;
    KnownEntry(s, FindEntry(s, account, jid));
  }

  /** The contact known by the tag; without a tag, the one found by the entry's name in the first group of its
      contact, unless that has a tag itself. */
  function TagHolder(s: Roster, e: int, tag: string): int
    requires e in s.entries && s.entries[e].contact in s.contacts
  {
    var gs := s.contacts[s.entries[e].contact].groups;
    if tag in s.byTag then s.byTag[tag]
    else if tag != "" || gs == [] || gs[0] !in s.groups then -1
    else
      var found := FindContact(s, s.entries[e].name, s.groups[gs[0]].name, s.groups[gs[0]].kind);
      if found in s.contacts && s.contacts[found].tag == "" then found else -1
  }

  /** An entry whose tag has changed to that of a known contact, or is cleared while an untagged contact of its name
      is in its group, is handed to that contact; nothing else changes, and no server is told. */
  lemma TagHeld(s: Roster, account: int, jid: string, tag: string, changed: set<int>)
    requires Sound(s) && TagOk(s, account, jid, tag) && FindEntry(s, account, jid) != -1
    ensures var t, e := TagChanged(s, account, jid, tag, changed), FindEntry(s, account, jid);
            var c := s.entries[e].contact;
            c in s.contacts &&
            var to := TagHolder(s, e, tag);
            to != -1 && tag != s.contacts[c].tag ==>
              && to in s.contacts && t.contacts == Handed(s.contacts, e, c, to, OnlyEntry(s, c, e))
              && t.entries == s.entries[e := s.entries[e].(contact := to)] && t.sent == s.sent && SameNames(s, t)
  {
    hide InvBut;
    hide Agrees;
    hide FindEntry;
    hide FindContact;
    hide Rehome;
    hide OnlyEntry;
    hide Handed;
    var e := FindEntry(s, account, jid);
    var c := s.entries[e].contact;
    KnownEntry(s, e);
    KnownContact(s, c);
    HolderIs(s, e, tag);
    var to := TagTarget(s, e, tag);
    if tag != s.contacts[c].tag && to != -1 {
      TagTargetKnown(s, e, tag);
      TagChangedVia(s, account, jid, tag, changed);
      RehomePlaces(s, e, to);
    }
  }

  lemma HolderIs(s: Roster, e: int, tag: string)
    requires Inv(s) && e in s.entries && s.entries[e].contact in s.contacts
    ensures TagTarget(s, e, tag) == TagHolder(s, e, tag)
  {
    hide InvBut;
    hide FindContact;
    if "" in s.byTag {
      TaggedContact(s, "");
    }
  }

  /** If there is no such contact, one of the entry's name is asked for in its group, given the tag if there is one,
      and handed the entry. */
  lemma TagFresh(s: Roster, account: int, jid: string, tag: string, changed: set<int>)
    requires Sound(s) && TagOk(s, account, jid, tag) && FindEntry(s, account, jid) != -1
    ensures var t, e := TagChanged(s, account, jid, tag, changed), FindEntry(s, account, jid);
            var c := s.entries[e].contact;
            c in s.contacts && s.contacts[c].groups != [] &&
            var g, name := s.contacts[c].groups[0], s.entries[e].name;
            var a, to := ContactAdd(s, g, name, -1), ContactAddId(s, g, name);
            TagHolder(s, e, tag) == -1 && tag != s.contacts[c].tag ==>
              && c in a.contacts && to in a.contacts && e in a.entries
              && var known := if tag == "" then a.contacts else a.contacts[to := a.contacts[to].(tag := tag)];
              && t.contacts == Handed(known, e, c, to, OnlyEntry(a, c, e))
              && t.entries == a.entries[e := a.entries[e].(contact := to)] && t.sent == a.sent && SameNames(a, t)
  {
    hide InvBut;
    hide Agrees;
    hide FindEntry;
    hide FindContact;
    hide ContactAdd;
    hide ContactAddId;
    hide TagTarget;
    hide TagHolder;
    hide Rehome;
    hide OnlyEntry;
    hide Handed;
    var e := FindEntry(s, account, jid);
    var c := s.entries[e].contact;
    KnownEntry(s, e);
    KnownContact(s, c);
    HolderIs(s, e, tag);
    if tag != s.contacts[c].tag && TagTarget(s, e, tag) == -1 {
      TagTargetKnown(s, e, tag);
      TagHomeSound(s, e, tag, changed);
      TagChangedVia(s, account, jid, tag, changed);
      HomeMade(s, e, tag, changed);
      var (u, to) := TagHome(s, e, tag, changed);
      RehomePlaces(u, e, to);
      var a := ContactAdd(s, s.contacts[c].groups[0], s.entries[e].name, -1);
      AddKeepsPlace(s, s.contacts[c].groups[0], s.entries[e].name, e);
      SameOnly(a, u, c, e);
    }
  }

  lemma HomeMade(s: Roster, e: int, tag: string, changed: set<int>)
    requires e in s.entries && s.entries[e].contact in s.contacts && s.contacts[s.entries[e].contact].groups != []
    requires TagTarget(s, e, tag) == -1
    requires var g := s.contacts[s.entries[e].contact].groups[0];
             ContactAddId(s, g, s.entries[e].name) in ContactAdd(s, g, s.entries[e].name, -1).contacts
    ensures var (u, to) := TagHome(s, e, tag, changed);
            var g := s.contacts[s.entries[e].contact].groups[0];
            var a := ContactAdd(s, g, s.entries[e].name, -1);
            && to == ContactAddId(s, g, s.entries[e].name)
            && u.contacts == (if tag == "" then a.contacts else a.contacts[to := a.contacts[to].(tag := tag)])
            && u.entries == a.entries && u.sent == a.sent && u.groups == a.groups && u.order == a.order
  {
    hide TagTarget;
    hide ContactAdd;
    hide ContactAddId;
    hide ReportEntries;
    hide Changed;
    var g := s.contacts[s.entries[e].contact].groups[0];
    var a, to := ContactAdd(s, g, s.entries[e].name, -1), ContactAddId(s, g, s.entries[e].name);
    if tag != "" {
      ReportsQuiet(Retag(a, to, tag), Changed(a.contacts[to].entries, changed));
    }
  }

  lemma AddKeepsPlace(s: Roster, g: int, name: string, e: int)
    requires Inv(s) && e in s.entries
    ensures var a := ContactAdd(s, g, name, -1);
            e in a.entries && a.entries[e].contact == s.entries[e].contact && forall c <- s.contacts :: c in a.contacts
  {
    hide InvBut;
    hide FindContact;
    if name != "" && g in s.groups {
      var c := FindContact(s, name, s.groups[g].name, s.groups[g].kind);
      if c != -1 {
        ContactAddGroupEffect(s, c, g);
      }
    }
  }
}
