/** The whole-graph invariant of the roster and its preservation by the small steps. */
module RosterInvariant {
  import opened Lists
  import opened RosterModel

  function Mult(s: seq<int>, x: int): nat { multiset(s)[x] }

  /** The list of groups is duplicate-free and agrees with the id map; the two built-in groups
      are there once each, and every other group is a named user group. */
  ghost predicate GroupsOk(order: seq<int>, groups: map<int, Group>, next: int) {
    && next >= 2
    && (forall g <- order :: g in groups)
    && (forall g <- groups :: Mult(order, g) == 1 && 0 <= g < next)
    && 0 in groups && groups[0].kind == NoGroup && groups[0].name == GENERAL
    && 1 in groups && groups[1].kind == NotInList && groups[1].name == NOT_IN_LIST
    && (forall g <- groups :: g > 1 ==> groups[g].kind == User && groups[g].name != "")
  }

  /** Group membership is recorded on both sides with the same multiplicity, and no contact but
      possibly `x` is groupless. */
  ghost predicate LinksOk(groups: map<int, Group>, contacts: map<int, Contact>, x: int) {
    && (forall g <- groups :: forall c <- groups[g].contacts :: c in contacts)
    && (forall c <- contacts :: c != x ==> contacts[c].groups != [])
    && (forall c <- contacts :: forall g <- contacts[c].groups :: g in groups)
    && (forall g, c :: g in groups && c in contacts ==> Mult(groups[g].contacts, c) == Mult(contacts[c].groups, g))
  }

  /** Every entry sits exactly once in the entry list of the contact it names. */
  ghost predicate EntriesOk(contacts: map<int, Contact>, entries: map<int, Entry>) {
    && (forall c <- contacts :: forall e <- contacts[c].entries :: e in entries && entries[e].contact == c)
    && (forall e <- entries :: entries[e].contact in contacts && Mult(contacts[entries[e].contact].entries, e) == 1)
  }

  /** The address index holds exactly the entries, under their own addresses, and no two entries
      share account and address. */
  ghost predicate IndexOk(entries: map<int, Entry>, byJid: map<string, seq<int>>) {
    && (forall j <- byJid :: byJid[j] != [])
    && (forall j <- byJid :: forall e <- byJid[j] :: e in entries && entries[e].jid == j)
    && (forall e <- entries :: entries[e].jid in byJid && Mult(byJid[entries[e].jid], e) == 1)
    && (forall e, f :: e in entries && f in entries && SameKey(entries[e], entries[f]) ==> e == f)
  }

  predicate SameKey(v: Entry, w: Entry) {
    v.account == w.account && v.jid == w.jid
  }

  /** The tag index and the contacts' own tags agree. */
  ghost predicate TagsOk(contacts: map<int, Contact>, byTag: map<string, int>) {
    && (forall t <- byTag :: t != "" && byTag[t] in contacts && contacts[byTag[t]].tag == t)
    && (forall c <- contacts :: contacts[c].tag != "" ==> contacts[c].tag in byTag && byTag[contacts[c].tag] == c)
  }

  /** Identifiers are below the counters, contact names are never empty. */
  ghost predicate ContactsOk(contacts: map<int, Contact>, next: int) {
    next >= 0 && forall c <- contacts :: 0 <= c < next && contacts[c].name != ""
  }

  /** An entry's main group is empty or one of its groups. */
  ghost predicate TextsOk(entries: map<int, Entry>, next: int) {
    next >= 0 && forall e <- entries :: 0 <= e < next && EntryTextsOk(entries[e])
  }

  predicate EntryTextsOk(v: Entry) {
    v.jid != "" && "" !in v.groups && (v.mainGroup == "" || v.mainGroup in v.groups)
  }

  /** The invariant, except that contact `x` may be in no group for the moment. */
  ghost predicate InvBut(s: Roster, x: int) {
    && GroupsOk(s.order, s.groups, s.nextGroup)
    && LinksOk(s.groups, s.contacts, x)
    && EntriesOk(s.contacts, s.entries)
    && IndexOk(s.entries, s.byJid)
    && TagsOk(s.contacts, s.byTag)
    && ContactsOk(s.contacts, s.nextContact)
    && TextsOk(s.entries, s.nextEntry)
  }

  /** Contacts have identifiers from 0 on, so this allows no exception. */
  ghost predicate Inv(s: Roster) { InvBut(s, -1) }

  /** Notifications, outgoing stanzas and connection states leave the graph alone. */
  predicate SameGraph(s: Roster, t: Roster) {
    t == s.(log := t.log, sent := t.sent, active := t.active)
  }

  lemma SameGraphInv(s: Roster, t: Roster)
    requires Inv(s) && SameGraph(s, t)
    ensures Inv(t)
  {
  }

  lemma InitialInv()
    ensures Inv(INITIAL)
  {
  }

  // ---- look-ups under the invariant ---------------------------------------------------------

  lemma {:induction false} FindGroupMember(order: seq<int>, groups: map<int, Group>, g: int)
    requires g in order && g in groups && -1 !in order
    ensures FindGroup(order, groups, groups[g].kind, groups[g].name) != -1
  {
  }

  /** The built-in groups are always found, as themselves. */
  lemma BuiltIns(s: Roster)
    requires GroupsOk(s.order, s.groups, s.nextGroup)
    ensures FindGroup(s.order, s.groups, NoGroup, GENERAL) == 0
    ensures FindGroup(s.order, s.groups, NotInList, NOT_IN_LIST) == 1
    ensures -1 !in s.order
  {
    assert Mult(s.order, 0) == 1 && Mult(s.order, 1) == 1;
    FindGroupMember(s.order, s.groups, 0);
    FindGroupMember(s.order, s.groups, 1);
  }

  /** `FindEntry` answers with the one entry of that account and address, and -1 if there is none. */
  lemma FindEntryExact(s: Roster, account: int, jid: string)
    requires IndexOk(s.entries, s.byJid) && TextsOk(s.entries, s.nextEntry)
    ensures FindEntry(s, account, jid) == -1 <==> forall e <- s.entries :: s.entries[e].account != account || s.entries[e].jid != jid
    ensures forall e <- s.entries :: s.entries[e].account == account && s.entries[e].jid == jid ==> FindEntry(s, account, jid) == e
  {
    var r := FindEntry(s, account, jid);
    forall e | e in s.entries && s.entries[e].account == account && s.entries[e].jid == jid
      ensures r == e
    {
      assert Mult(s.byJid[jid], e) == 1;
      assert e in s.byJid[jid] && -1 !in s.byJid[jid];
      assert r in s.byJid[jid];
      assert SameKey(s.entries[e], s.entries[r]);
    }
    if r != -1 {
      assert r in s.byJid[jid];
    }
  }

  /** What a known group, contact or entry is sure to have. */
  lemma KnownGroup(s: Roster, g: int, x: int)
    requires InvBut(s, x) && g in s.groups
    ensures s.groups[g].name != "" && (s.groups[g].kind == User <==> g > 1) && (s.groups[g].kind == NotInList <==> g == 1) && g >= 0
    ensures g in s.order && forall c <- s.groups[g].contacts :: c in s.contacts
  {
    assert Mult(s.order, g) == 1;
  }

  lemma KnownContact(s: Roster, c: int)
    requires Inv(s) && c in s.contacts
    ensures c >= 0 && s.contacts[c].name != "" && s.contacts[c].groups != [] && s.contacts[c].groups[0] in s.groups
    ensures forall g <- s.contacts[c].groups :: g in s.groups && c in s.groups[g].contacts
    ensures forall e <- s.contacts[c].entries :: e in s.entries && s.entries[e].contact == c
  {
    forall g | g in s.contacts[c].groups ensures g in s.groups && c in s.groups[g].contacts {
      assert Mult(s.groups[g].contacts, c) == Mult(s.contacts[c].groups, g);
    }
  }

  lemma KnownEntry(s: Roster, e: int)
    requires Inv(s) && e in s.entries
    ensures e >= 0 && s.entries[e].contact in s.contacts && e in s.contacts[s.entries[e].contact].entries
    ensures EntryTextsOk(s.entries[e])
  {
    assert Mult(s.contacts[s.entries[e].contact].entries, e) == 1;
  }

  lemma TaggedContact(s: Roster, t: string)
    requires Inv(s) && t in s.byTag
    ensures t != "" && s.byTag[t] in s.contacts && s.contacts[s.byTag[t]].tag == t
  {
  }

  lemma BothSides(s: Roster, c: int, g: int)
    requires Inv(s) && c in s.contacts && g in s.groups
    ensures c in s.groups[g].contacts <==> g in s.contacts[c].groups
  {
    assert Mult(s.groups[g].contacts, c) == Mult(s.contacts[c].groups, g);
  }

  lemma IndexedEntry(s: Roster, j: string, e: int)
    requires Inv(s) && j in s.byJid && e in s.byJid[j]
    ensures e in s.entries && s.entries[e].jid == j
  {
  }

  // ---- transport of the parts that a change of contacts leaves alone --------------------------

  ghost predicate SameLists(a: map<int, Contact>, b: map<int, Contact>) {
    (forall c :: c in a <==> c in b)
    && forall c <- a :: b[c].entries == a[c].entries && b[c].tag == a[c].tag && b[c].name == a[c].name
  }

  lemma SameListsOk(a: map<int, Contact>, b: map<int, Contact>, entries: map<int, Entry>, byTag: map<string, int>, next: int)
    requires SameLists(a, b) && EntriesOk(a, entries) && TagsOk(a, byTag) && ContactsOk(a, next)
    ensures EntriesOk(b, entries) && TagsOk(b, byTag) && ContactsOk(b, next)
  {
    assert EntriesOk(b, entries);
    forall t | t in byTag ensures byTag[t] in b && b[byTag[t]].tag == t {
      var c := byTag[t];
      assert c in a && c in b;
    }
    assert TagsOk(b, byTag);
  }

  // ---- groups ---------------------------------------------------------------------------------

  lemma GroupAddInv(s: Roster, name: string, pos: int)
    requires Inv(s)
    ensures Inv(GroupAdd(s, name, pos))
    ensures name != "" ==> GroupAddId(s, name) in GroupAdd(s, name, pos).groups
  {
    var t := GroupAdd(s, name, pos);
    if t != s {
      var n := s.nextGroup;
      assert n !in s.order by { assert n !in s.groups; }
      assert multiset(t.order) == multiset(s.order) + multiset{n};
      assert GroupsOk(t.order, t.groups, t.nextGroup);
      NewGroupLinks(s.groups, s.contacts, n, t.groups[n]);
    }
  }

  lemma NewGroupLinks(groups: map<int, Group>, contacts: map<int, Contact>, n: int, v: Group)
    requires LinksOk(groups, contacts, -1) && n !in groups && v.contacts == []
    ensures LinksOk(groups[n := v], contacts, -1)
  {
    assert forall c <- contacts :: n !in contacts[c].groups;
  }

  lemma DeleteGroupInv(s: Roster, g: int)
    requires Inv(s) && g in s.groups && g > 1 && s.groups[g].contacts == []
    ensures Inv(DeleteGroup(s, g))
  {
    var t := DeleteGroup(s, g);
    assert GroupsOk(t.order, t.groups, t.nextGroup);
    forall c | c in t.contacts ensures forall h <- t.contacts[c].groups :: h in t.groups {
      assert Mult(s.groups[g].contacts, c) == Mult(s.contacts[c].groups, g);
      assert g !in s.contacts[c].groups;
    }
  }

  /** A group may be renamed, and its contacts put in another order. */
  lemma RegroupInv(s: Roster, g: int, v: Group)
    requires Inv(s) && g in s.groups && v.kind == s.groups[g].kind && v.name != "" && multiset(v.contacts) == multiset(s.groups[g].contacts)
    requires g <= 1 ==> v.name == s.groups[g].name
    ensures Inv(SetGroup(s, g, v))
  {
    var t := SetGroup(s, g, v);
    forall c | c in v.contacts ensures c in s.contacts {
      assert c in multiset(v.contacts);
      assert c in s.groups[g].contacts;
    }
    assert LinksOk(t.groups, t.contacts, -1);
  }

  lemma ReorderInv(s: Roster, order: seq<int>)
    requires Inv(s) && multiset(order) == multiset(s.order)
    ensures Inv(s.(order := order))
  {
    forall g | g in order ensures g in s.groups {
      assert g in multiset(order);
      assert g in s.order;
    }
  }

  // ---- links ----------------------------------------------------------------------------------

  /** Both sides of one membership list change alike. */
  lemma RelinkOk(groups: map<int, Group>, contacts: map<int, Contact>, c: int, g: int, gs: seq<int>, cs: seq<int>, x: int)
    requires LinksOk(groups, contacts, x) && c in contacts && g in groups && (x == c || x == -1)
    requires (forall d <- cs :: d in contacts) && (forall h <- gs :: h in groups)
    requires forall d :: d != c ==> Mult(cs, d) == Mult(groups[g].contacts, d)
    requires forall h :: h != g ==> Mult(gs, h) == Mult(contacts[c].groups, h)
    requires Mult(cs, c) == Mult(gs, g) && -1 !in contacts
    ensures LinksOk(groups[g := groups[g].(contacts := cs)], contacts[c := contacts[c].(groups := gs)], c)
    ensures gs != [] ==> LinksOk(groups[g := groups[g].(contacts := cs)], contacts[c := contacts[c].(groups := gs)], -1)
  {
    var groups', contacts' := groups[g := groups[g].(contacts := cs)], contacts[c := contacts[c].(groups := gs)];
    forall h, d | h in groups' && d in contacts' ensures Mult(groups'[h].contacts, d) == Mult(contacts'[d].groups, h) {
      assert Mult(groups[h].contacts, d) == Mult(contacts[d].groups, h);
    }
    forall h | h in groups' ensures forall d <- groups'[h].contacts :: d in contacts' {
      assert h != g ==> groups'[h] == groups[h];
    }
    forall d | d in contacts' ensures (forall h <- contacts'[d].groups :: h in groups') && (d != c ==> contacts'[d].groups != []) {
      assert d != c ==> contacts'[d] == contacts[d];
    }
  }

  lemma LinkInv(s: Roster, c: int, g: int, x: int)
    requires InvBut(s, x) && c in s.contacts && g in s.groups && (x == c || x == -1)
    ensures Inv(Link(s, c, g))
  {
    hide GroupsOk;
    hide LinksOk;
    hide EntriesOk;
    hide IndexOk;
    hide TagsOk;
    hide ContactsOk;
    hide TextsOk;
    var t := Link(s, c, g);
    NoMinusOne(s.contacts, s.nextContact);
    ListedOk(s.order, s.groups, s.nextGroup, g, t.groups[g].contacts);
    SameListsOk(s.contacts, t.contacts, s.entries, s.byTag, s.nextContact);
    LinkedLinks(s.groups, s.contacts, c, g, x);
  }

  /** A group may list other contacts as far as its own conditions go. */
  lemma ListedOk(order: seq<int>, groups: map<int, Group>, next: int, g: int, cs: seq<int>)
    requires GroupsOk(order, groups, next) && g in groups
    ensures GroupsOk(order, groups[g := groups[g].(contacts := cs)], next)
  {
  }

  lemma UnlinkedLinks(groups: map<int, Group>, contacts: map<int, Contact>, c: int, g: int)
    requires LinksOk(groups, contacts, -1) && c in contacts && g in groups && -1 !in contacts
    ensures var groups', contacts' := groups[g := groups[g].(contacts := Without(groups[g].contacts, c))],
                                      contacts[c := contacts[c].(groups := Without(contacts[c].groups, g))];
            LinksOk(groups', contacts', c) && (contacts'[c].groups != [] ==> LinksOk(groups', contacts', -1))
  {
    var cs, gs := Without(groups[g].contacts, c), Without(contacts[c].groups, g);
    RelinkOk(groups, contacts, c, g, gs, cs, -1);
  }

  lemma LinkedLinks(groups: map<int, Group>, contacts: map<int, Contact>, c: int, g: int, x: int)
    requires LinksOk(groups, contacts, x) && c in contacts && g in groups && (x == c || x == -1) && -1 !in contacts
    ensures LinksOk(groups[g := groups[g].(contacts := groups[g].contacts + [c])], contacts[c := contacts[c].(groups := contacts[c].groups + [g])], -1)
  {
    assert Mult(groups[g].contacts, c) == Mult(contacts[c].groups, g);
    RelinkOk(groups, contacts, c, g, contacts[c].groups + [g], groups[g].contacts + [c], x);
  }

  lemma NoMinusOne(contacts: map<int, Contact>, next: int)
    requires ContactsOk(contacts, next)
    ensures -1 !in contacts
  {
  }

  lemma UnlinkInv(s: Roster, c: int, g: int)
    requires Inv(s) && c in s.contacts && g in s.groups
    ensures InvBut(Unlink(s, c, g), c)
    ensures Unlink(s, c, g).contacts[c].groups != [] ==> Inv(Unlink(s, c, g))
  {
    hide GroupsOk;
    hide LinksOk;
    hide EntriesOk;
    hide IndexOk;
    hide TagsOk;
    hide ContactsOk;
    hide TextsOk;
    var t := Unlink(s, c, g);
    NoMinusOne(s.contacts, s.nextContact);
    ListedOk(s.order, s.groups, s.nextGroup, g, t.groups[g].contacts);
    SameListsOk(s.contacts, t.contacts, s.entries, s.byTag, s.nextContact);
    UnlinkedLinks(s.groups, s.contacts, c, g);
  }

  // ---- entry edits ------------------------------------------------------------------------------

  predicate EditOk(d: Edit) {
    match d
    case AddName(n) => n != ""
    case DropName(n) => true
    case SwapNames(drop, add) => add.Some? ==> add.name != ""
    case RenameName(o, n) => n != ""
    case SetName(n) => true
  }

  /** The two entries differ at most in the texts shown for them. */
  predicate SamePlace(v: Entry, w: Entry) {
    SameKey(v, w) && w.contact == v.contact
  }

  /** An edit keeps who the entry is, where it belongs and the main-group rule. */
  lemma EditedOk(v: Entry, d: Edit)
    requires EntryTextsOk(v) && EditOk(d)
    ensures var w := Edited(v, d); EntryTextsOk(w) && SamePlace(v, w) && w.sub == v.sub && w.ask == v.ask
  {
  }

  ghost predicate SamePlaces(a: map<int, Entry>, b: map<int, Entry>) {
    (forall e :: e in a <==> e in b) && forall e <- a :: SamePlace(a[e], b[e])
  }

  lemma SamePlacesOk(a: map<int, Entry>, b: map<int, Entry>, contacts: map<int, Contact>, byJid: map<string, seq<int>>)
    requires SamePlaces(a, b) && EntriesOk(contacts, a) && IndexOk(a, byJid)
    ensures EntriesOk(contacts, b) && IndexOk(b, byJid)
  {
    assert EntriesOk(contacts, b);
    forall e, f | e in b && f in b && SameKey(b[e], b[f]) ensures e == f {
      assert SamePlace(a[e], b[e]) && SamePlace(a[f], b[f]);
    }
  }

  lemma SetTexts(entries: map<int, Entry>, next: int, e: int, v: Entry)
    requires TextsOk(entries, next) && e in entries && EntryTextsOk(v)
    ensures TextsOk(entries[e := v], next)
  {
  }

  /** Replacing an entry by one in the same place keeps the invariant. */
  lemma SetEntryInv(s: Roster, e: int, v: Entry, x: int)
    requires InvBut(s, x) && e in s.entries && SamePlace(s.entries[e], v) && EntryTextsOk(v)
    ensures InvBut(SetEntry(s, e, v), x)
  {
    hide GroupsOk;
    hide LinksOk;
    hide EntriesOk;
    hide IndexOk;
    hide TagsOk;
    hide ContactsOk;
    hide TextsOk;
    SamePlacesOk(s.entries, s.entries[e := v], s.contacts, s.byJid);
    SetTexts(s.entries, s.nextEntry, e, v);
  }

  /** Nothing but entry texts, notifications and stanzas differs. */
  ghost predicate SameShape(s: Roster, t: Roster) {
    t == s.(entries := t.entries, log := t.log, sent := t.sent) && SamePlaces(s.entries, t.entries)
  }

  lemma {:induction false} CommitEntriesShape(s: Roster, ids: seq<int>, d: Edit)
    requires TextsOk(s.entries, s.nextEntry) && EditOk(d)
    ensures var t := CommitEntries(s, ids, d);
            TextsOk(t.entries, t.nextEntry) && SameShape(s, t) && t.log == s.log && SameStatus(s.entries, t.entries)
  {
    if ids != [] {
      var t := CommitEntries(s, ids[..|ids| - 1], d);
      CommitEntriesShape(s, ids[..|ids| - 1], d);
      var e := ids[|ids| - 1];
      if e in t.entries {
        EditedOk(t.entries[e], d);
      }
    }
  }

  ghost predicate SameStatus(a: map<int, Entry>, b: map<int, Entry>) {
    forall e :: e in a && e in b ==> b[e].sub == a[e].sub && b[e].ask == a[e].ask
  }

  lemma CommitEntriesInv(s: Roster, ids: seq<int>, d: Edit, x: int)
    requires InvBut(s, x) && EditOk(d)
    ensures var t := CommitEntries(s, ids, d);
            InvBut(t, x) && SameShape(s, t) && t.log == s.log && SameStatus(s.entries, t.entries)
  {
    CommitEntriesShape(s, ids, d);
    SamePlacesOk(s.entries, CommitEntries(s, ids, d).entries, s.contacts, s.byJid);
  }

  // ---- contacts -----------------------------------------------------------------------------------

  /** Name, alternative name and nothing else of a contact may change freely. */
  lemma SetContactInv(s: Roster, c: int, v: Contact, x: int)
    requires InvBut(s, x) && c in s.contacts && v.name != ""
    requires v == s.contacts[c].(name := v.name, alt := v.alt)
    ensures InvBut(SetContact(s, c, v), x)
  {
    hide GroupsOk;
    hide LinksOk;
    hide EntriesOk;
    hide IndexOk;
    hide TagsOk;
    hide TextsOk;
    var t := SetContact(s, c, v);
    SameLinks(s.groups, s.contacts, t.contacts, x);
    ListsKept(s.contacts, t.contacts, s.entries);
    SameTags(s.contacts, t.contacts, s.byTag);
  }

  lemma SameLinks(groups: map<int, Group>, a: map<int, Contact>, b: map<int, Contact>, x: int)
    requires LinksOk(groups, a, x) && (forall c :: c in a <==> c in b) && (forall c <- a :: b[c].groups == a[c].groups)
    ensures LinksOk(groups, b, x)
  {
  }

  lemma NewContactLists(contacts: map<int, Contact>, entries: map<int, Entry>, byTag: map<string, int>, next: int, v: Contact)
    requires EntriesOk(contacts, entries) && TagsOk(contacts, byTag) && ContactsOk(contacts, next)
    requires v.entries == [] && v.tag == "" && v.name != ""
    ensures next !in contacts
    ensures EntriesOk(contacts[next := v], entries) && TagsOk(contacts[next := v], byTag) && ContactsOk(contacts[next := v], next + 1)
  {
    assert next !in contacts;
    assert TagsOk(contacts[next := v], byTag);
  }

  lemma NewContactInv(s: Roster, g: int, name: string, pos: int)
    requires Inv(s) && g in s.groups && name != ""
    ensures Inv(NewContact(s, g, name, pos))
  {
    hide GroupsOk;
    hide LinksOk;
    hide EntriesOk;
    hide IndexOk;
    hide TagsOk;
    hide ContactsOk;
    hide TextsOk;
    var t := NewContact(s, g, name, pos);
    var n := s.nextContact;
    ListedOk(s.order, s.groups, s.nextGroup, g, t.groups[g].contacts);
    NewContactLists(s.contacts, s.entries, s.byTag, n, t.contacts[n]);
    NextUsable(s.contacts, n);
    NewContactLinks(s.groups, s.contacts, g, n, t.contacts[n], t.groups[g].contacts);
  }

  lemma NextUsable(contacts: map<int, Contact>, next: int)
    requires ContactsOk(contacts, next)
    ensures next != -1
  {
  }

  lemma NewContactLinks(groups: map<int, Group>, contacts: map<int, Contact>, g: int, n: int, v: Contact, cs: seq<int>)
    requires LinksOk(groups, contacts, -1) && n !in contacts && g in groups && v.groups == [g] && n != -1
    requires multiset(cs) == multiset(groups[g].contacts) + multiset{n}
    ensures LinksOk(groups[g := groups[g].(contacts := cs)], contacts[n := v], -1)
  {
    var groups', contacts' := groups[g := groups[g].(contacts := cs)], contacts[n := v];
    assert forall h <- groups :: n !in groups[h].contacts;
    forall d | d in cs ensures d in contacts' {
      assert d in multiset(cs);
      assert d == n || d in groups[g].contacts;
    }
    assert forall h <- groups' :: forall d <- groups'[h].contacts :: d in contacts';
    NewContactCounts(groups, contacts, g, n, v, cs);
  }

  lemma NewContactCounts(groups: map<int, Group>, contacts: map<int, Contact>, g: int, n: int, v: Contact, cs: seq<int>)
    requires LinksOk(groups, contacts, -1) && n !in contacts && g in groups && v.groups == [g]
    requires multiset(cs) == multiset(groups[g].contacts) + multiset{n}
    requires forall h <- groups :: n !in groups[h].contacts
    ensures var groups', contacts' := groups[g := groups[g].(contacts := cs)], contacts[n := v];
            forall h, d :: h in groups' && d in contacts' ==> Mult(groups'[h].contacts, d) == Mult(contacts'[d].groups, h)
  {
    var groups', contacts' := groups[g := groups[g].(contacts := cs)], contacts[n := v];
    forall h, d | h in groups' && d in contacts' ensures Mult(groups'[h].contacts, d) == Mult(contacts'[d].groups, h) {
      if d == n {
        assert Mult(groups[h].contacts, n) == 0;
      } else {
        assert Mult(groups[h].contacts, d) == Mult(contacts[d].groups, h);
      }
    }
  }

  lemma {:induction false} DropFromGroupsShape(s: Roster, c: int, gs: seq<int>)
    ensures var t := DropFromGroups(s, c, gs);
            t == s.(groups := t.groups) && (forall g :: g in t.groups <==> g in s.groups)
            && (forall g <- s.groups :: t.groups[g] == s.groups[g].(contacts := if g in gs then Without(s.groups[g].contacts, c) else s.groups[g].contacts))
  {
    if gs != [] {
      var rest, g := gs[..|gs| - 1], gs[|gs| - 1];
      DropFromGroupsShape(s, c, rest);
      assert gs == rest + [g];
      if g in s.groups {
        WithoutTwice(s.groups[g].contacts, c);
      }
    }
  }

  lemma {:induction false} WithoutAbsent(s: seq<int>, x: int)
    requires x !in s
    ensures Without(s, x) == s
  {
    if s != [] {
      assert s == [s[0]] + s[1..];
      WithoutAbsent(s[1..], x);
    }
  }

  lemma WithoutTwice(s: seq<int>, x: int)
    ensures Without(Without(s, x), x) == Without(s, x)
  {
    WithoutAbsent(Without(s, x), x);
  }

  /** The groups lose members and nothing else. */
  lemma FewerListedOk(order: seq<int>, groups: map<int, Group>, groups': map<int, Group>, next: int)
    requires GroupsOk(order, groups, next) && (forall g :: g in groups' <==> g in groups)
    requires forall g <- groups :: groups'[g].kind == groups[g].kind && groups'[g].name == groups[g].name
    ensures GroupsOk(order, groups', next)
  {
  }

  lemma DeletedEntryless(contacts: map<int, Contact>, entries: map<int, Entry>, c: int, next: int)
    requires EntriesOk(contacts, entries) && ContactsOk(contacts, next) && c in contacts && contacts[c].entries == []
    ensures EntriesOk(contacts - {c}, entries) && ContactsOk(contacts - {c}, next)
  {
    forall e | e in entries ensures entries[e].contact in contacts - {c} && Mult((contacts - {c})[entries[e].contact].entries, e) == 1 {
      assert Mult(contacts[entries[e].contact].entries, e) == 1;
    }
  }

  lemma DeleteContactInv(s: Roster, c: int)
    requires Inv(s) && c in s.contacts && s.contacts[c].entries == []
    ensures Inv(DeleteContact(s, c))
  {
    hide GroupsOk;
    hide LinksOk;
    hide EntriesOk;
    hide IndexOk;
    hide TagsOk;
    hide ContactsOk;
    hide TextsOk;
    var t := DeleteContact(s, c);
    DropFromGroupsShape(s, c, s.contacts[c].groups);
    FewerListedOk(s.order, s.groups, t.groups, s.nextGroup);
    DeletedLinks(s.groups, t.groups, s.contacts, c);
    DeletedTags(s.contacts, s.byTag, c);
    DeletedEntryless(s.contacts, s.entries, c, s.nextContact);
  }

  lemma DeletedLinks(groups: map<int, Group>, groups': map<int, Group>, contacts: map<int, Contact>, c: int)
    requires LinksOk(groups, contacts, -1) && c in contacts && (forall g :: g in groups' <==> g in groups)
    requires forall g <- groups :: groups'[g] == groups[g].(contacts := if g in contacts[c].groups then Without(groups[g].contacts, c) else groups[g].contacts)
    ensures LinksOk(groups', contacts - {c}, -1)
  {
    var contacts' := contacts - {c};
    forall h | h in groups' ensures forall d <- groups'[h].contacts :: d in contacts' {
      assert Mult(groups[h].contacts, c) == Mult(contacts[c].groups, h);
      assert c !in groups'[h].contacts;
    }
    forall h, d | h in groups' && d in contacts' ensures Mult(groups'[h].contacts, d) == Mult(contacts'[d].groups, h) {
      assert Mult(groups[h].contacts, d) == Mult(contacts[d].groups, h);
    }
  }

  lemma DeletedTags(contacts: map<int, Contact>, byTag: map<string, int>, c: int)
    requires TagsOk(contacts, byTag) && c in contacts
    ensures TagsOk(contacts - {c}, if contacts[c].tag == "" then byTag else byTag - {contacts[c].tag})
  {
    var byTag' := if contacts[c].tag == "" then byTag else byTag - {contacts[c].tag};
    forall t | t in byTag' ensures byTag'[t] in contacts - {c} && (contacts - {c})[byTag'[t]].tag == t {
      var d := byTag[t];
      assert d in contacts && contacts[d].tag == t;
    }
  }

  lemma ListsKept(a: map<int, Contact>, b: map<int, Contact>, entries: map<int, Entry>)
    requires EntriesOk(a, entries) && (forall c :: c in a <==> c in b) && (forall c <- a :: b[c].entries == a[c].entries)
    ensures EntriesOk(b, entries)
  {
  }

  /** Retagging moves the index entry along; the new tag must not be taken. */
  lemma RetaggedTags(contacts: map<int, Contact>, byTag: map<string, int>, c: int, tag: string)
    requires TagsOk(contacts, byTag) && c in contacts && tag != "" && tag !in byTag
    ensures var was := contacts[c].tag;
            TagsOk(contacts[c := contacts[c].(tag := tag)], (if was == "" then byTag else byTag - {was})[tag := c])
  {
    var was := contacts[c].tag;
    var contacts', byTag' := contacts[c := contacts[c].(tag := tag)], (if was == "" then byTag else byTag - {was})[tag := c];
    forall k | k in byTag' ensures k != "" && byTag'[k] in contacts' && contacts'[byTag'[k]].tag == k {
      if k != tag {
        var d := byTag[k];
        assert d in contacts && contacts[d].tag == k;
      }
    }
  }

  lemma RetagInv(s: Roster, c: int, tag: string)
    requires Inv(s) && c in s.contacts && tag != "" && tag !in s.byTag
    ensures Inv(Retag(s, c, tag))
  {
    hide GroupsOk;
    hide LinksOk;
    hide EntriesOk;
    hide IndexOk;
    hide TagsOk;
    hide ContactsOk;
    hide TextsOk;
    var t := Retag(s, c, tag);
    SameLinks(s.groups, s.contacts, t.contacts, -1);
    ListsKept(s.contacts, t.contacts, s.entries);
    SameContactsOk(s.contacts, t.contacts, s.nextContact);
    RetaggedTags(s.contacts, s.byTag, c, tag);
  }

  // ---- entries --------------------------------------------------------------------------------------

  /** No entry has the account and address of `v` yet. */
  ghost predicate Unlisted(entries: map<int, Entry>, v: Entry) {
    forall e <- entries :: !SameKey(entries[e], v)
  }

  lemma NewTexts(entries: map<int, Entry>, next: int, v: Entry)
    requires TextsOk(entries, next) && EntryTextsOk(v)
    ensures next !in entries && TextsOk(entries[next := v], next + 1)
  {
  }

  lemma SameContactsOk(a: map<int, Contact>, b: map<int, Contact>, next: int)
    requires ContactsOk(a, next) && (forall c :: c in b ==> c in a) && forall c <- b :: b[c].name == a[c].name
    ensures ContactsOk(b, next)
  {
  }

  lemma NewEntryInv(s: Roster, v: Entry, pos: int)
    requires Inv(s) && v.contact in s.contacts && EntryTextsOk(v) && Unlisted(s.entries, v)
    ensures Inv(NewEntry(s, v, pos))
  {
    hide GroupsOk;
    hide LinksOk;
    hide EntriesOk;
    hide IndexOk;
    hide TagsOk;
    hide ContactsOk;
    hide TextsOk;
    hide Unlisted;
    var t := NewEntry(s, v, pos);
    var n, c := s.nextEntry, v.contact;
    NewTexts(s.entries, n, v);
    SameLinks(s.groups, s.contacts, t.contacts, -1);
    SameTags(s.contacts, t.contacts, s.byTag);
    SameContactsOk(s.contacts, t.contacts, s.nextContact);
    NewEntryLists(s.contacts, s.entries, n, v, t.contacts[c].entries);
    NewEntryIndex(s.entries, s.byJid, n, v);
  }

  lemma SameTags(a: map<int, Contact>, b: map<int, Contact>, byTag: map<string, int>)
    requires TagsOk(a, byTag) && (forall c :: c in a <==> c in b) && (forall c <- a :: b[c].tag == a[c].tag)
    ensures TagsOk(b, byTag)
  {
    forall t | t in byTag ensures byTag[t] in b && b[byTag[t]].tag == t {
      var c := byTag[t];
      assert c in a && c in b;
    }
  }

  lemma NewEntryLists(contacts: map<int, Contact>, entries: map<int, Entry>, n: int, v: Entry, es: seq<int>)
    requires EntriesOk(contacts, entries) && n !in entries && v.contact in contacts
    requires multiset(es) == multiset(contacts[v.contact].entries) + multiset{n}
    ensures EntriesOk(contacts[v.contact := contacts[v.contact].(entries := es)], entries[n := v])
  {
    var c := v.contact;
    var contacts', entries' := contacts[c := contacts[c].(entries := es)], entries[n := v];
    assert forall d <- contacts :: n !in contacts[d].entries;
    forall d | d in contacts' ensures forall e <- contacts'[d].entries :: e in entries' && entries'[e].contact == d {
      if d == c {
        forall e | e in es ensures e in entries' && entries'[e].contact == d {
          assert e in multiset(es);
          assert e == n || e in contacts[c].entries;
        }
      }
    }
    forall e | e in entries' ensures entries'[e].contact in contacts' && Mult(contacts'[entries'[e].contact].entries, e) == 1 {
      if e != n {
        var d := entries[e].contact;
        assert Mult(contacts[d].entries, e) == 1;
      } else {
        assert Mult(contacts[c].entries, n) == 0;
      }
    }
  }

  lemma NewEntryIndex(entries: map<int, Entry>, byJid: map<string, seq<int>>, n: int, v: Entry)
    requires IndexOk(entries, byJid) && n !in entries && Unlisted(entries, v)
    ensures IndexOk(entries[n := v], byJid[v.jid := [n] + (if v.jid in byJid then byJid[v.jid] else [])])
  {
    var was := if v.jid in byJid then byJid[v.jid] else [];
    var now := [n] + was;
    var entries', byJid' := entries[n := v], byJid[v.jid := now];
    assert n !in was;
    assert multiset(now) == multiset{n} + multiset(was);
    forall j | j in byJid' ensures forall e <- byJid'[j] :: e in entries' && entries'[e].jid == j {
      assert j != v.jid ==> byJid'[j] == byJid[j] && n !in byJid[j];
    }
    forall e | e in entries' ensures entries'[e].jid in byJid' && Mult(byJid'[entries'[e].jid], e) == 1 {
      if e != n {
        var j := entries[e].jid;
        assert Mult(byJid[j], e) == 1;
      } else {
        assert Mult(was, n) == 0;
      }
    }
    forall e, f | e in entries' && f in entries' && SameKey(entries'[e], entries'[f]) ensures e == f {
      assert e != n && f != n ==> SameKey(entries[e], entries[f]);
      assert e != n ==> !SameKey(entries[e], v);
      assert f != n ==> !SameKey(entries[f], v);
    }
  }

  lemma FewerTexts(entries: map<int, Entry>, next: int, e: int)
    requires TextsOk(entries, next)
    ensures TextsOk(entries - {e}, next)
  {
  }

  lemma DeleteEntryInv(s: Roster, e: int)
    requires Inv(s) && e in s.entries
    ensures Inv(DeleteEntry(s, e))
  {
    hide GroupsOk;
    hide LinksOk;
    hide IndexOk;
    hide TagsOk;
    hide ContactsOk;
    hide TextsOk;
    var t := DeleteEntry(s, e);
    var c := s.entries[e].contact;
    assert c in s.contacts;
    hide EntriesOk;
    FewerTexts(s.entries, s.nextEntry, e);
    SameLinks(s.groups, s.contacts, t.contacts, -1);
    SameTags(s.contacts, t.contacts, s.byTag);
    SameContactsOk(s.contacts, t.contacts, s.nextContact);
    DeletedLists(s.contacts, s.entries, e);
    DeletedIndex(s.entries, s.byJid, e);
  }

  lemma DeletedLists(contacts: map<int, Contact>, entries: map<int, Entry>, e: int)
    requires EntriesOk(contacts, entries) && e in entries
    ensures var c := entries[e].contact;
            EntriesOk(contacts[c := contacts[c].(entries := Without(contacts[c].entries, e))], entries - {e})
  {
    var c := entries[e].contact;
    var contacts', entries' := contacts[c := contacts[c].(entries := Without(contacts[c].entries, e))], entries - {e};
    forall f | f in entries' ensures entries'[f].contact in contacts' && Mult(contacts'[entries'[f].contact].entries, f) == 1 {
      var d := entries[f].contact;
      assert Mult(contacts[d].entries, f) == 1;
    }
    forall d | d in contacts' ensures forall f <- contacts'[d].entries :: f in entries' && entries'[f].contact == d {
      assert d != c ==> contacts'[d] == contacts[d] && e !in contacts[d].entries;
    }
  }

  lemma DeletedIndex(entries: map<int, Entry>, byJid: map<string, seq<int>>, e: int)
    requires IndexOk(entries, byJid) && e in entries
    ensures IndexOk(entries - {e}, DropIndexed(byJid, entries[e].jid, e))
  {
    var j0 := entries[e].jid;
    var entries', byJid' := entries - {e}, DropIndexed(byJid, j0, e);
    forall f | f in entries' ensures entries'[f].jid in byJid' && Mult(byJid'[entries'[f].jid], f) == 1 {
      var j := entries[f].jid;
      assert Mult(byJid[j], f) == 1;
      assert j == j0 ==> f in Without(byJid[j], e);
    }
    forall j | j in byJid' ensures byJid'[j] != [] && forall f <- byJid'[j] :: f in entries' && entries'[f].jid == j {
      assert j != j0 ==> byJid'[j] == byJid[j] && e !in byJid[j];
    }
    forall f, h | f in entries' && h in entries' && SameKey(entries'[f], entries'[h]) ensures f == h {
      assert SameKey(entries[f], entries[h]);
    }
  }

  function MovedContacts(contacts: map<int, Contact>, e: int, from: int, to: int): map<int, Contact>
    requires from in contacts && to in contacts && from != to
  {
    contacts[from := contacts[from].(entries := Without(contacts[from].entries, e))][to := contacts[to].(entries := contacts[to].entries + [e])]
  }

  lemma MovedShape(s: Roster, e: int, to: int)
    requires e in s.entries && to in s.contacts && s.entries[e].contact in s.contacts && s.entries[e].contact != to
    ensures var t := MoveEntry(s, e, to);
            t == s.(contacts := MovedContacts(s.contacts, e, s.entries[e].contact, to), entries := s.entries[e := s.entries[e].(contact := to)], log := t.log)
  {
  }

  lemma MovedContactsKeep(groups: map<int, Group>, contacts: map<int, Contact>, byTag: map<string, int>, next: int, e: int, from: int, to: int)
    requires from in contacts && to in contacts && from != to
    requires LinksOk(groups, contacts, -1) && TagsOk(contacts, byTag) && ContactsOk(contacts, next)
    ensures var moved := MovedContacts(contacts, e, from, to);
            LinksOk(groups, moved, -1) && TagsOk(moved, byTag) && ContactsOk(moved, next)
  {
    hide LinksOk;
    hide TagsOk;
    var moved := MovedContacts(contacts, e, from, to);
    assert forall d :: d in contacts <==> d in moved;
    SameLinks(groups, contacts, moved, -1);
    SameTags(contacts, moved, byTag);
  }

  lemma MoveEntryInv(s: Roster, e: int, to: int)
    requires Inv(s) && e in s.entries && to in s.contacts && s.entries[e].contact != to
    ensures s.entries[e].contact in s.contacts && Inv(MoveEntry(s, e, to))
  {
    var from := s.entries[e].contact;
    assert from in s.contacts;
    hide GroupsOk;
    hide LinksOk;
    hide IndexOk;
    hide EntriesOk;
    hide TagsOk;
    hide ContactsOk;
    hide MoveEntry;
    MovedShape(s, e, to);
    MovedContactsKeep(s.groups, s.contacts, s.byTag, s.nextContact, e, from, to);
    MovedLists(s.contacts, s.entries, e, to);
    MovedIndex(s.entries, s.byJid, e, to);
  }

  lemma MovedLists(contacts: map<int, Contact>, entries: map<int, Entry>, e: int, to: int)
    requires EntriesOk(contacts, entries) && e in entries && to in contacts && entries[e].contact != to
    ensures var from := entries[e].contact;
            from in contacts
            && EntriesOk(MovedContacts(contacts, e, from, to), entries[e := entries[e].(contact := to)])
  {
    var from := entries[e].contact;
    assert from in contacts;
    var contacts' := MovedContacts(contacts, e, from, to);
    var entries' := entries[e := entries[e].(contact := to)];
    assert e !in contacts[to].entries;
    forall f | f in entries' ensures entries'[f].contact in contacts' && Mult(contacts'[entries'[f].contact].entries, f) == 1 {
      var d := entries[f].contact;
      assert Mult(contacts[d].entries, f) == 1;
      assert Mult(contacts[to].entries, e) == 0;
    }
    forall d | d in contacts' ensures forall f <- contacts'[d].entries :: f in entries' && entries'[f].contact == d {
      assert d != from ==> e !in contacts[d].entries;
    }
  }

  lemma MovedIndex(entries: map<int, Entry>, byJid: map<string, seq<int>>, e: int, to: int)
    requires IndexOk(entries, byJid) && e in entries
    ensures IndexOk(entries[e := entries[e].(contact := to)], byJid)
  {
    var entries' := entries[e := entries[e].(contact := to)];
    forall f, h | f in entries' && h in entries' && SameKey(entries'[f], entries'[h]) ensures f == h {
      assert SameKey(entries[f], entries[h]);
    }
  }
}
