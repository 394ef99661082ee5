/** What the accounts' servers are told about local changes, and that pushes from them are not sent back. */
module RosterServer {
  import opened Lists
  import opened RosterModel
  import opened RosterInvariant
  import opened RosterMirror
  import opened RosterOps
  import opened RosterRuns
  import opened RosterEffects

  datatype Word = Nothing | Said(stanza: Stanza)

  predicate About(x: Stanza, account: int, jid: string) {
    !x.Subscribe? && x.account == account && x.jid == jid
  }

  /** The last stanza about the roster item of that account and address. */
  function LastAbout(sent: seq<Stanza>, account: int, jid: string): Word {
    if sent == [] then Nothing
    else if About(sent[|sent| - 1], account, jid) then Said(sent[|sent| - 1])
    else LastAbout(sent[..|sent| - 1], account, jid)
  }

  /** The server knows the entry's name and groups as they are now, if it knew them as they were. */
  predicate Current(tail: seq<Stanza>, was: Entry, v: Entry) {
    match LastAbout(tail, v.account, v.jid)
    case Nothing => v.name == was.name && v.groups == was.groups
    case Said(x) => x == RosterSet(v.account, v.jid, v.name, v.groups)
  }

  /** Account and address tell entries apart, and identifiers in use are below the counter. */
  ghost predicate Keyed(s: Roster) {
    (forall e <- s.entries :: e < s.nextEntry)
    && forall e, f :: e in s.entries && f in s.entries && SameKey(s.entries[e], s.entries[f]) ==> e == f
  }

  /** From `s` to `t` nothing sent was taken back, and the servers were told of every change to the name
      and groups of an entry. */
  ghost predicate Told(s: Roster, t: Roster) {
    && s.sent <= t.sent && s.nextEntry <= t.nextEntry
    && (forall e <- t.entries :: e in s.entries || e >= s.nextEntry)
    && (forall e <- t.entries :: e in s.entries ==> SameKey(s.entries[e], t.entries[e]))
    && (forall e <- t.entries :: e in s.entries ==> Current(t.sent[|s.sent|..], s.entries[e], t.entries[e]))
  }

  lemma {:induction false} LastAboutSplit(a: seq<Stanza>, b: seq<Stanza>, account: int, jid: string)
    ensures LastAbout(a + b, account, jid) == if LastAbout(b, account, jid) == Nothing then LastAbout(a, account, jid) else LastAbout(b, account, jid)
  {
    if b == [] {
      assert a + b == a;
    } else {
      assert (a + b)[..|a + b| - 1] == a + b[..|b| - 1];
      LastAboutSplit(a, b[..|b| - 1], account, jid);
    }
  }

  lemma Transitive(s: Roster, t: Roster, u: Roster)
    requires Keyed(s) && Told(s, t) && Told(t, u)
    ensures Told(s, u)
  {
    var a, b := t.sent[|s.sent|..], u.sent[|t.sent|..];
    assert u.sent[|s.sent|..] == a + b;
    forall e | e in u.entries && e in s.entries
      ensures SameKey(s.entries[e], u.entries[e]) && Current(u.sent[|s.sent|..], s.entries[e], u.entries[e])
    {
      assert e in t.entries;
      assert SameKey(s.entries[e], t.entries[e]) && SameKey(t.entries[e], u.entries[e]);
      LastAboutSplit(a, b, u.entries[e].account, u.entries[e].jid);
      assert Current(b, t.entries[e], u.entries[e]) && Current(a, s.entries[e], t.entries[e]);
    }
  }

  /** Nothing is sent, and no entry's name or groups change. */
  lemma Quiet(s: Roster, t: Roster)
    requires t.sent == s.sent && s.nextEntry <= t.nextEntry
    requires forall e <- t.entries :: e in s.entries || e >= s.nextEntry
    requires forall e <- t.entries :: e in s.entries ==>
               SameKey(s.entries[e], t.entries[e]) && t.entries[e].name == s.entries[e].name && t.entries[e].groups == s.entries[e].groups
    ensures Told(s, t)
  {
    assert t.sent[|s.sent|..] == [];
    forall e | e in t.entries && e in s.entries ensures Current(t.sent[|s.sent|..], s.entries[e], t.entries[e]) {
      assert LastAbout([], t.entries[e].account, t.entries[e].jid) == Nothing;
    }
  }

  lemma Same(s: Roster, t: Roster)
    requires t.sent == s.sent && t.nextEntry == s.nextEntry && t.entries == s.entries
    ensures Told(s, t) && (Keyed(s) ==> Keyed(t))
  {
    Quiet(s, t);
  }

  /** An entry is changed and committed. */
  lemma CommitOne(s: Roster, e: int, v: Entry)
    requires Keyed(s) && e in s.entries && SameKey(s.entries[e], v)
    ensures var t := Send(SetEntry(s, e, v), Commit(v)); Told(s, t) && Keyed(t)
  {
    var t := Send(SetEntry(s, e, v), Commit(v));
    assert t.sent[|s.sent|..] == [Commit(v)] && [Commit(v)][..0] == [];
    forall f | f in t.entries ensures SameKey(s.entries[f], t.entries[f]) && Current(t.sent[|s.sent|..], s.entries[f], t.entries[f]) {
      assert LastAbout([], t.entries[f].account, t.entries[f].jid) == Nothing;
      assert f != e ==> !SameKey(s.entries[e], s.entries[f]);
    }
    forall f, g | f in t.entries && g in t.entries && SameKey(t.entries[f], t.entries[g]) ensures f == g {
      assert SameKey(s.entries[f], s.entries[g]);
    }
  }

  /** An entry is taken out, and its server told or not. */
  lemma DropOne(s: Roster, e: int, x: Stanza, tell: bool)
    requires Keyed(s) && e in s.entries && x == RosterDelete(s.entries[e].account, s.entries[e].jid)
    ensures var t := DeleteEntry(if tell then Send(s, x) else s, e); Told(s, t) && Keyed(t)
  {
    var t := DeleteEntry(if tell then Send(s, x) else s, e);
    assert t.sent[|s.sent|..] == (if tell then [x] else []) && [x][..0] == [];
    forall f | f in t.entries ensures Current(t.sent[|s.sent|..], s.entries[f], t.entries[f]) {
      assert LastAbout([], t.entries[f].account, t.entries[f].jid) == Nothing;
      assert !SameKey(s.entries[e], s.entries[f]);
    }
    forall f, g | f in t.entries && g in t.entries && SameKey(t.entries[f], t.entries[g]) ensures f == g {
      assert SameKey(s.entries[f], s.entries[g]);
    }
  }

  /** A stanza about none of the entries, or a request for subscription, changes nothing. */
  lemma AskOne(s: Roster, t: Roster, x: Stanza)
    requires Told(s, t) && x.Subscribe?
    ensures Told(s, Send(t, x))
  {
    var u := Send(t, x);
    assert u.sent[|s.sent|..] == t.sent[|s.sent|..] + [x] && [x][..0] == [];
    forall e | e in u.entries && e in s.entries ensures Current(u.sent[|s.sent|..], s.entries[e], u.entries[e]) {
      var v := u.entries[e];
      LastAboutSplit(t.sent[|s.sent|..], [x], v.account, v.jid);
      assert LastAbout([], v.account, v.jid) == Nothing;
      assert Current(t.sent[|s.sent|..], s.entries[e], v);
    }
  }

  // ---- operations -------------------------------------------------------------------------------------

  lemma {:induction false} CommitEntriesTold(s: Roster, ids: seq<int>, d: Edit)
    requires Keyed(s)
    ensures Told(s, CommitEntries(s, ids, d)) && Keyed(CommitEntries(s, ids, d))
  {
    hide Told;
    hide Keyed;
    if ids == [] {
      Same(s, s);
    } else {
      var t, e := CommitEntries(s, ids[..|ids| - 1], d), ids[|ids| - 1];
      CommitEntriesTold(s, ids[..|ids| - 1], d);
      if e in t.entries {
        var v := Edited(t.entries[e], d);
        CommitOne(t, e, v);
        Transitive(s, t, Send(SetEntry(t, e, v), Commit(v)));
      }
    }
  }

  lemma {:induction false} CommitContactsTold(s: Roster, cs: seq<int>, d: Edit)
    requires Keyed(s)
    ensures Told(s, CommitContacts(s, cs, d)) && Keyed(CommitContacts(s, cs, d))
  {
    hide Told;
    hide Keyed;
    if cs == [] {
      Same(s, s);
    } else {
      var t, c := CommitContacts(s, cs[..|cs| - 1], d), cs[|cs| - 1];
      CommitContactsTold(s, cs[..|cs| - 1], d);
      if c in t.contacts {
        CommitEntriesTold(t, t.contacts[c].entries, d);
        Transitive(s, t, CommitEntries(t, t.contacts[c].entries, d));
      }
    }
  }

  /** Changes elsewhere, then commits, then changes elsewhere. */
  lemma Around(s: Roster, a: Roster, b: Roster, t: Roster)
    requires Keyed(s) && Told(a, b) && Keyed(b)
    requires a.sent == s.sent && a.nextEntry == s.nextEntry && a.entries == s.entries
    requires t.sent == b.sent && t.nextEntry == b.nextEntry && t.entries == b.entries
    ensures Told(s, t) && Keyed(t)
  {
    Same(s, a);
    Same(b, t);
    Transitive(s, a, b);
    Transitive(s, b, t);
  }

  lemma AddGroupTold(s: Roster, c: int, g: int)
    requires Keyed(s)
    ensures Told(s, ContactAddGroup(s, c, g)) && Keyed(ContactAddGroup(s, c, g))
  {
    hide Told;
    hide Keyed;
    hide CommitEntries;
    Same(s, s);
    if ContactAddGroup(s, c, g) != s {
      var a, d := Link(s, c, g), AddName(s.groups[g].name);
      Same(s, a);
      CommitEntriesTold(a, s.contacts[c].entries, d);
      Around(s, a, CommitEntries(a, s.contacts[c].entries, d), ContactAddGroup(s, c, g));
    }
  }

  lemma RemoveGroupTold(s: Roster, c: int, g: int)
    requires Keyed(s)
    ensures Told(s, ContactRemoveGroup(s, c, g)) && Keyed(ContactRemoveGroup(s, c, g))
  {
    hide Told;
    hide Keyed;
    hide CommitEntries;
    hide FindGroup;
    Same(s, s);
    if c in s.contacts && g in s.groups && g in s.contacts[c].groups && s.groups[g].kind != NotInList {
      var a, d := Unlink(s, c, g), SwapNames(NamedIfUser(s.groups[g]), None);
      Same(s, a);
      CommitEntriesTold(a, s.contacts[c].entries, d);
      Around(s, a, CommitEntries(a, s.contacts[c].entries, d), ContactRemoveGroup(s, c, g));
    }
  }

  lemma ChangeGroupTold(s: Roster, c: int, from: int, to: int)
    requires Keyed(s)
    ensures Told(s, ContactChangeGroup(s, c, from, to)) && Keyed(ContactChangeGroup(s, c, from, to))
  {
    hide Told;
    hide Keyed;
    hide CommitEntries;
    Same(s, s);
    if TransferAllowed(s, c, from, to) {
      var a, d := Link(Unlink(s, c, from), c, to), SwapNames(NamedIfUser(s.groups[from]), NamedIfUser(s.groups[to]));
      Same(s, a);
      CommitEntriesTold(a, s.contacts[c].entries, d);
      Around(s, a, CommitEntries(a, s.contacts[c].entries, d), ContactChangeGroup(s, c, from, to));
    }
  }

  lemma {:induction false} RemoveFromAllTold(s: Roster, cs: seq<int>, g: int)
    requires Keyed(s)
    ensures Told(s, RemoveGroupFromAll(s, cs, g)) && Keyed(RemoveGroupFromAll(s, cs, g))
  {
    hide Told;
    hide Keyed;
    hide ContactRemoveGroup;
    if cs == [] {
      Same(s, s);
    } else {
      var t := RemoveGroupFromAll(s, cs[..|cs| - 1], g);
      RemoveFromAllTold(s, cs[..|cs| - 1], g);
      RemoveGroupTold(t, cs[|cs| - 1], g);
      Transitive(s, t, ContactRemoveGroup(t, cs[|cs| - 1], g));
    }
  }

  lemma GroupRemoveTold(s: Roster, g: int)
    requires Keyed(s)
    ensures Told(s, GroupRemove(s, g)) && Keyed(GroupRemove(s, g))
  {
    hide Told;
    hide Keyed;
    hide RemoveGroupFromAll;
    Same(s, s);
    if g in s.groups && s.groups[g].kind == User {
      RemoveFromAllTold(s, s.groups[g].contacts, g);
      Around(s, s, RemoveGroupFromAll(s, s.groups[g].contacts, g), GroupRemove(s, g));
    }
  }

  lemma GroupRenameTold(s: Roster, g: int, name: string)
    requires Keyed(s)
    ensures Told(s, GroupRename(s, g, name)) && Keyed(GroupRename(s, g, name))
  {
    hide Told;
    hide Keyed;
    hide CommitContacts;
    Same(s, s);
    if name != "" && g in s.groups && s.groups[g].kind == User {
      var a, d := SetGroup(s, g, s.groups[g].(name := name)), RenameName(s.groups[g].name, name);
      Same(s, a);
      CommitContactsTold(a, s.groups[g].contacts, d);
      Around(s, a, CommitContacts(a, s.groups[g].contacts, d), GroupRename(s, g, name));
    }
  }

  lemma ContactAddTold(s: Roster, g: int, name: string, pos: int)
    requires Keyed(s)
    ensures Told(s, ContactAdd(s, g, name, pos)) && Keyed(ContactAdd(s, g, name, pos))
  {
    hide Told;
    hide Keyed;
    hide ContactAddGroup;
    hide FindContact;
    Same(s, s);
    if name != "" && g in s.groups {
      var c := FindContact(s, name, s.groups[g].name, s.groups[g].kind);
      if c == -1 {
        Same(s, NewContact(s, g, name, pos));
      } else {
        AddGroupTold(s, c, g);
      }
    }
  }

  lemma EntryRemoveTold(s: Roster, e: int, toServer: bool)
    requires Keyed(s)
    ensures Told(s, EntryRemove(s, e, toServer)) && Keyed(EntryRemove(s, e, toServer))
  {
    hide Told;
    hide Keyed;
    hide DeleteEntry;
    Same(s, s);
    if e in s.entries {
      var v := s.entries[e];
      DropOne(s, e, RosterDelete(v.account, v.jid), toServer && InList(s, v.contact) && v.account in s.active);
    }
  }

  lemma {:induction false} RemoveEntriesTold(s: Roster, es: seq<int>, toServer: bool)
    requires Keyed(s)
    ensures Told(s, RemoveEntries(s, es, toServer)) && Keyed(RemoveEntries(s, es, toServer))
  {
    hide Told;
    hide Keyed;
    hide EntryRemove;
    if es == [] {
      Same(s, s);
    } else {
      var t := RemoveEntries(s, es[..|es| - 1], toServer);
      RemoveEntriesTold(s, es[..|es| - 1], toServer);
      EntryRemoveTold(t, es[|es| - 1], toServer);
      Transitive(s, t, EntryRemove(t, es[|es| - 1], toServer));
    }
  }

  lemma DeleteContactQuiet(s: Roster, c: int)
    requires c in s.contacts
    ensures var t := DeleteContact(s, c); t.sent == s.sent && t.nextEntry == s.nextEntry && t.entries == s.entries
  {
    DropFromGroupsShape(s, c, s.contacts[c].groups);
  }

  lemma ContactRemoveTold(s: Roster, c: int, toServer: bool)
    requires Keyed(s)
    ensures Told(s, ContactRemove(s, c, toServer)) && Keyed(ContactRemove(s, c, toServer))
  {
    hide Told;
    hide Keyed;
    hide RemoveEntries;
    hide DeleteContact;
    Same(s, s);
    if c in s.contacts {
      var t := RemoveEntries(s, s.contacts[c].entries, toServer);
      RemoveEntriesTold(s, s.contacts[c].entries, toServer);
      if c in t.contacts {
        DeleteContactQuiet(t, c);
        Around(s, s, t, ContactRemove(s, c, toServer));
      }
    }
  }

  lemma ContactRenameTold(s: Roster, c: int, name: string)
    requires Keyed(s)
    ensures Told(s, ContactRename(s, c, name)) && Keyed(ContactRename(s, c, name))
  {
    hide Told;
    hide Keyed;
    hide CommitEntries;
    Same(s, s);
    if name != "" && c in s.contacts {
      var a := SetContact(s, c, s.contacts[c].(name := name));
      Same(s, a);
      CommitEntriesTold(a, s.contacts[c].entries, SetName(name));
      Around(s, a, CommitEntries(a, s.contacts[c].entries, SetName(name)), ContactRename(s, c, name));
    }
  }

  lemma MoveTold(s: Roster, e: int, to: int)
    requires Keyed(s) && e in s.entries && s.entries[e].contact in s.contacts && to in s.contacts
    ensures Told(s, MoveEntry(s, e, to)) && Keyed(MoveEntry(s, e, to))
  {
    var t := MoveEntry(s, e, to);
    Quiet(s, t);
    forall f, g | f in t.entries && g in t.entries && SameKey(t.entries[f], t.entries[g]) ensures f == g {
      assert SameKey(s.entries[f], s.entries[g]);
    }
  }

  lemma ChangeContactTold(s: Roster, e: int, from: int, to: int)
    requires Keyed(s)
    ensures Told(s, EntryChangeContact(s, e, from, to)) && Keyed(EntryChangeContact(s, e, from, to))
  {
    hide Told;
    hide Keyed;
    hide MoveEntry;
    Same(s, s);
    if e in s.entries && from in s.contacts && to in s.contacts && s.entries[e].contact == from && from != to {
      var names := UserNames(s.contacts[to].groups, s.groups);
      var v := s.entries[e].(name := s.contacts[to].name, groups := names, mainGroup := First(names));
      CommitOne(s, e, v);
      var t := Send(SetEntry(s, e, v), Commit(v));
      MoveTold(t, e, to);
      Transitive(s, t, MoveEntry(t, e, to));
    }
  }

  lemma RehomeTold(s: Roster, e: int, to: int)
    requires Keyed(s) && e in s.entries
    ensures Told(s, Rehome(s, e, to)) && Keyed(Rehome(s, e, to))
  {
    hide Told;
    hide Keyed;
    hide ContactRemove;
    hide MoveEntry;
    Same(s, s);
    var from := s.entries[e].contact;
    if from != to && from in s.contacts && to in s.contacts {
      var t := MoveEntry(s, e, to);
      MoveTold(s, e, to);
      ContactRemoveTold(t, from, true);
      Transitive(s, t, ContactRemove(t, from, true));
    }
  }

  lemma NewEntryTold(s: Roster, t: Roster, v: Entry, pos: int)
    requires Keyed(s) && Told(s, t) && Keyed(t) && v.contact in t.contacts
    ensures Told(s, NewEntry(t, v, pos))
  {
    Quiet(t, NewEntry(t, v, pos));
    Transitive(s, t, NewEntry(t, v, pos));
  }

  /** A new entry's own stanzas are about no entry there was. */
  lemma FreshTold(s: Roster, v: Entry, x: Stanza, pos: int)
    requires Keyed(s) && v.contact in s.contacts && x.Subscribe? && forall e <- s.entries :: !SameKey(s.entries[e], v)
    ensures Told(s, NewEntry(Send(Send(s, Commit(v)), x), v, pos))
  {
    var t := Send(s, Commit(v));
    assert t.sent[|s.sent|..] == [Commit(v)] && [Commit(v)][..0] == [];
    forall e | e in t.entries ensures Current(t.sent[|s.sent|..], s.entries[e], t.entries[e]) {
      assert LastAbout([], t.entries[e].account, t.entries[e].jid) == Nothing;
      assert !SameKey(s.entries[e], v);
    }
    assert Told(s, t);
    AskOne(s, t, x);
    NewEntryTold(s, Send(t, x), v, pos);
  }

  lemma EntryAddTold(s: Roster, c: int, account: int, jid: string, nick: string, reason: string, pos: int)
    requires Inv(s) && Keyed(s)
    ensures Told(s, EntryAdd(s, c, account, jid, nick, reason, pos))
  {
    hide Told;
    hide Keyed;
    hide InvBut;
    hide NewEntry;
    hide FindEntry;
    hide EntryChangeContact;
    hide ContactRemove;
    Same(s, s);
    if jid != "" && c in s.contacts {
      var e := FindEntry(s, account, jid);
      if e != -1 {
        var from := s.entries[e].contact;
        if from != c && from in s.contacts {
          var t := EntryChangeContact(s, e, from, c);
          ChangeContactTold(s, e, from, c);
          ContactRemoveTold(t, from, true);
          Transitive(s, t, ContactRemove(t, from, true));
          var u := if from in t.contacts && t.contacts[from].entries == [] then ContactRemove(t, from, true) else t;
          AskOne(s, u, Subscribe(account, s.entries[e].jid, nick, reason));
        }
      } else {
        var v := FreshEntry(s, c, account, jid);
        NotFound(s, v);
        FreshTold(s, v, Subscribe(account, jid, nick, reason), pos);
        NewEntryTold(s, s, v, pos);
      }
    }
  }

  lemma {:induction false} ReportsQuiet(s: Roster, es: seq<int>)
    ensures var t := ReportEntries(s, es); t == s.(log := t.log)
  {
    if es != [] {
      ReportsQuiet(s, es[..|es| - 1]);
    }
  }

  lemma TagChangedTold(s: Roster, account: int, jid: string, tag: string, changed: set<int>)
    requires Keyed(s)
    ensures Told(s, TagChanged(s, account, jid, tag, changed))
  {
    hide Told;
    hide Keyed;
    hide FindEntry;
    hide TagTarget;
    hide ContactAdd;
    hide ContactAddId;
    hide ReportEntries;
    hide Changed;
    hide Rehome;
    Same(s, s);
    var e := FindEntry(s, account, jid);
    if e != -1 && s.entries[e].contact in s.contacts {
      var c := s.entries[e].contact;
      if tag == s.contacts[c].tag || s.contacts[c].groups == [] {
        Same(s, ReportEntry(s, e));
      } else {
        var found, g, name := TagTarget(s, e, tag), s.contacts[c].groups[0], s.entries[e].name;
        ContactAddTold(s, g, name, -1);
        var t := if found != -1 then s else ContactAdd(s, g, name, -1);
        var to := if found != -1 then found else ContactAddId(s, g, name);
        if to in t.contacts && e in t.entries {
          var reported := ReportEntries(Retag(t, to, tag), Changed(t.contacts[to].entries, changed));
          ReportsQuiet(Retag(t, to, tag), Changed(t.contacts[to].entries, changed));
          var u := if found != -1 || tag == "" then t else reported;
          Around(s, s, t, u);
          RehomeTold(u, e, to);
          Transitive(s, u, Rehome(u, e, to));
          Around(s, s, Rehome(u, e, to), ReportEntry(Rehome(u, e, to), e));
        }
      }
    }
  }

  lemma {:induction false} DropGroupsTold(s: Roster, gs: seq<int>)
    requires Keyed(s)
    ensures Told(s, DropEmptyGroups(s, gs)) && Keyed(DropEmptyGroups(s, gs))
  {
    hide Told;
    hide Keyed;
    hide GroupRemove;
    if gs == [] {
      Same(s, s);
    } else {
      var t := DropEmptyGroups(s, gs[..|gs| - 1]);
      DropGroupsTold(s, gs[..|gs| - 1]);
      GroupRemoveTold(t, gs[|gs| - 1]);
      Transitive(s, t, GroupRemove(t, gs[|gs| - 1]));
    }
  }

  lemma ClearOutTold(s: Roster, e: int, gone: int, toServer: bool)
    requires Keyed(s) && e in s.entries
    ensures Told(s, ClearOut(s, e, gone, toServer)) && Keyed(ClearOut(s, e, gone, toServer))
  {
    hide Told;
    hide Keyed;
    hide EntryRemove;
    hide ContactRemove;
    hide GroupRemove;
    hide FindGroup;
    var c, main := s.entries[e].contact, s.entries[e].mainGroup;
    var g := if main == "" then -1 else FindGroup(s.order, s.groups, User, main);
    var t := EntryRemove(s, gone, toServer);
    EntryRemoveTold(s, gone, toServer);
    ContactRemoveTold(t, c, toServer);
    Same(t, t);
    var u := if c in t.contacts && t.contacts[c].entries == [] then ContactRemove(t, c, toServer) else t;
    Transitive(s, t, u);
    GroupRemoveTold(u, g);
    Transitive(s, u, GroupRemove(u, g));
  }

  lemma {:induction false} VisitAddressTold(s: Roster, account: int, jid: string, es: seq<int>)
    requires Keyed(s)
    ensures Told(s, VisitAddress(s, account, jid, es)) && Keyed(VisitAddress(s, account, jid, es))
  {
    hide Told;
    hide Keyed;
    hide ClearOut;
    if es == [] {
      Same(s, s);
    } else {
      var t, e := VisitAddress(s, account, jid, es[..|es| - 1]), es[|es| - 1];
      VisitAddressTold(s, account, jid, es[..|es| - 1]);
      if e in t.entries && jid in t.byJid && t.byJid[jid] != [] {
        ClearOutTold(t, e, t.byJid[jid][0], true);
        Transitive(s, t, ClearOut(t, e, t.byJid[jid][0], true));
      }
    }
  }

  lemma {:induction false} VisitAddressesTold(s: Roster, account: int, host: string, js: seq<string>)
    requires Keyed(s)
    ensures Told(s, VisitAddresses(s, account, host, js)) && Keyed(VisitAddresses(s, account, host, js))
  {
    hide Told;
    hide Keyed;
    if js == [] {
      Same(s, s);
    } else {
      var t, j := VisitAddresses(s, account, host, js[..|js| - 1]), js[|js| - 1];
      VisitAddressesTold(s, account, host, js[..|js| - 1]);
      if j in t.byJid {
        VisitAddressTold(t, account, j, t.byJid[j]);
        Transitive(s, t, VisitAddress(t, account, j, t.byJid[j]));
      }
    }
  }

  // ---- pushes -------------------------------------------------------------------------------------------

  lemma {:induction false} AdoptQuiet(s: Roster, ids: seq<int>, e: int, item: Item)
    requires e in s.entries
    ensures AdoptGroups(s, ids, e, item).sent == s.sent
  {
    if ids != [] {
      AdoptQuiet(s, ids[..|ids| - 1], e, item);
    }
  }

  /** Nobody of that name is in the group, so a new contact is made there. */
  lemma EnsureContactQuiet(s: Roster, g: int, name: string)
    requires g in s.groups && name != "" && FindContact(s, name, s.groups[g].name, s.groups[g].kind) == -1
    ensures ContactAdd(s, g, name, -1).sent == s.sent
  {
  }

  lemma RemoveEmptyQuiet(s: Roster, c: int)
    requires c in s.contacts && s.contacts[c].entries == []
    ensures ContactRemove(s, c, true).sent == s.sent
  {
    assert RemoveEntries(s, [], true) == s;
    DeleteContactQuiet(s, c);
  }

  lemma RehomeQuiet(s: Roster, e: int, to: int)
    requires e in s.entries
    ensures Rehome(s, e, to).sent == s.sent
  {
    hide ContactRemove;
    var from := s.entries[e].contact;
    if from != to && from in s.contacts && to in s.contacts {
      var t := MoveEntry(s, e, to);
      if t.contacts[from].entries == [] {
        RemoveEmptyQuiet(t, from);
      }
    }
  }

  lemma ItemAddedQuiet(s: Roster, account: int, item: Item)
    requires item.jid != ""
    ensures ItemAdded(s, account, item).sent == s.sent
  {
    hide FindEntry;
    hide ContactAdd;
    hide ContactAddId;
    hide FindContact;
    hide AdoptGroups;
    hide EnsuredGroup;
    var e := FindEntry(s, account, item.jid);
    var g, t := EnsuredGroup(s, item), EnsureGroup(s, item);
    assert t.sent == s.sent;
    if g in t.groups && (e == -1 || !InList(s, s.entries[e].contact)) {
      if e != -1 {
        var c, hidden := s.entries[e].contact, FindGroup(t.order, t.groups, NotInList, NOT_IN_LIST);
        if c in t.contacts && hidden != -1 && e in t.entries {
          var u := Queue(Link(Unlink(t, c, hidden), c, g), ContactGroupChanged(c, hidden, g));
          AdoptQuiet(SetEntry(u, e, u.entries[e].(sub := item.sub, ask := item.ask)), u.contacts[c].entries, e, item);
        }
      } else {
        var name := PushedEntry(account, item, 0).name;
        if FindContact(t, name, t.groups[g].name, t.groups[g].kind) == -1 {
          EnsureContactQuiet(t, g, name);
        }
      }
    }
  }

  lemma ItemUpdatedQuiet(s: Roster, account: int, item: Item)
    requires Inv(s) && UpdateOk(s, account, item)
    ensures ItemUpdated(s, account, item).sent == s.sent
  {
    hide InvBut;
    hide ContactAdd;
    hide ContactAddId;
    hide FindContact;
    hide FindEntry;
    hide EnsuredGroup;
    hide Rehome;
    var e := FindEntry(s, account, item.jid);
    if e != -1 && ChangesGroup(s.entries[e], item) {
      var v := UpdatedEntry(s.entries[e], item);
      var t, g := EnsureGroup(SetEntry(s, e, v), item), EnsuredGroup(s, item);
      if g in t.groups {
        var found := FindContact(t, v.name, t.groups[g].name, t.groups[g].kind);
        var u := if found != -1 then t else ContactAdd(t, g, v.name, -1);
        var to := if found != -1 then found else ContactAddId(t, g, v.name);
        if found == -1 {
          if v.name != "" {
            EnsureContactQuiet(t, g, v.name);
          } else {
            Unnamed(t, g);
          }
        }
        if e in u.entries {
          RehomeQuiet(u, e, to);
        }
      }
    }
  }

  lemma Unnamed(s: Roster, g: int)
    ensures ContactAdd(s, g, "", -1) == s
  {
  }

  lemma ItemRemovedQuiet(s: Roster, account: int, item: Item)
    ensures ItemRemoved(s, account, item).sent == s.sent
  {
    hide FindEntry;
    hide ContactRemove;
    var e := FindEntry(s, account, item.jid);
    if e != -1 {
      var c, t := s.entries[e].contact, DeleteEntry(s, e);
      if c in t.contacts && t.contacts[c].entries == [] {
        RemoveEmptyQuiet(t, c);
      }
    }
  }

  predicate Push(ev: Event) { ev.PushAdded? || ev.PushUpdated? || ev.PushRemoved? }

  /** Nothing the server pushes makes the bridge send anything back. */
  lemma PushesNotSentBack(s: Roster, ev: Event)
    requires Sound(s) && Legal(s, ev) && Push(ev)
    ensures Step(s, ev).sent == s.sent
  {
    hide InvBut;
    hide Agrees;
    hide ItemAdded;
    hide ItemUpdated;
    hide ItemRemoved;
    match ev
    case PushAdded(account, item) => ItemAddedQuiet(s, account, item);
    case PushUpdated(account, item) => ItemUpdatedQuiet(s, account, item);
    case PushRemoved(account, item) => ItemRemovedQuiet(s, account, item);
  }

  // ---- everything else ------------------------------------------------------------------------------------

  lemma HeardNothing(was: Entry, v: Entry)
    ensures Current([], was, v) <==> v.name == was.name && v.groups == was.groups
  {
    assert LastAbout([], v.account, v.jid) == Nothing;
  }

  /** After a push that adds an item, an entry there before is what its server was last told, if and only if
      it does not belong to a hidden contact the push adopts, or has the pushed groups already: the groups of
      all entries of such a contact are rewritten and no server is told. */
  lemma KnownAfterAdding(s: Roster, account: int, item: Item, d: int)
    requires Inv(s) && ItemOk(item) && d in s.entries
    ensures var t := ItemAdded(s, account, item);
            && t.sent == s.sent && d in t.entries
            && (Current(t.sent[|s.sent|..], s.entries[d], t.entries[d]) <==> !Adopted(s, account, item, d) || s.entries[d].groups == item.groups)
  {
    hide InvBut;
    hide FindEntry;
    hide InList;
    hide ItemAdded;
    hide Current;
    var t := ItemAdded(s, account, item);
    ItemAddedQuiet(s, account, item);
    ItemAddedEffect(s, account, item);
    assert t.sent[|s.sent|..] == [];
    HeardNothing(s.entries[d], t.entries[d]);
  }

  /** After a push that changes an item, every other entry is what its server was last told, and the entry
      pushed is too, if and only if the push names what it was called and its groups. */
  lemma KnownAfterUpdating(s: Roster, account: int, item: Item, d: int)
    requires Inv(s) && ItemOk(item) && UpdateOk(s, account, item) && d in s.entries
    ensures var t := ItemUpdated(s, account, item);
            && t.sent == s.sent && d in t.entries
            && (Current(t.sent[|s.sent|..], s.entries[d], t.entries[d]) <==>
                  d != FindEntry(s, account, item.jid) || ((item.name == "" || item.name == s.entries[d].name) && item.groups == s.entries[d].groups))
  {
    hide InvBut;
    hide FindEntry;
    hide ItemUpdated;
    hide Current;
    var t := ItemUpdated(s, account, item);
    ItemUpdatedQuiet(s, account, item);
    if FindEntry(s, account, item.jid) != -1 {
      ItemUpdatedEffect(s, account, item);
    } else {
      UnknownUpdated(s, account, item);
      KnownEntry(s, d);
    }
    assert t.sent[|s.sent|..] == [];
    HeardNothing(s.entries[d], t.entries[d]);
  }

  lemma UnknownUpdated(s: Roster, account: int, item: Item)
    requires FindEntry(s, account, item.jid) == -1
    ensures ItemUpdated(s, account, item) == s
  {
  }

  /** A new entry of a contact in the list is committed with the name and groups it has. */
  lemma NewEntryCommitted(s: Roster, c: int, account: int, jid: string, nick: string, reason: string, pos: int)
    requires Inv(s) && c in s.contacts && InList(s, c) && jid != "" && FindEntry(s, account, jid) == -1
    ensures var t, e := EntryAdd(s, c, account, jid, nick, reason, pos), s.nextEntry;
            && e in t.entries && s.sent <= t.sent && t.entries[e].account == account && t.entries[e].jid == jid
            && LastAbout(t.sent[|s.sent|..], account, jid) == Said(RosterSet(account, jid, t.entries[e].name, t.entries[e].groups))
  {
    hide InvBut;
    hide FindEntry;
    var t, v := EntryAdd(s, c, account, jid, nick, reason, pos), FreshEntry(s, c, account, jid);
    var ask := Subscribe(account, jid, nick, reason);
    var tail := [Commit(v), ask];
    assert t.sent == s.sent + [Commit(v)] + [ask] && t.sent[|s.sent|..] == tail;
    assert tail[..1] == [Commit(v)];
  }

  lemma SoundKeyed(s: Roster)
    requires Sound(s)
    ensures Keyed(s)
  {
  }

  lemma GroupCommandTold(s: Roster, ev: Event)
    requires Keyed(s) && Legal(s, ev) && GroupCommand(ev)
    ensures Told(s, Step(s, ev))
  {
    hide Told;
    hide Keyed;
    hide GroupRemove;
    hide GroupRename;
    hide GroupMove;
    match ev
    case Start =>
      AnnounceQuiet(s, s.order);
      Same(s, RosterStart(s));
    case AddGroup(name, pos) => Same(s, GroupAdd(s, name, pos));
    case RemoveGroup(g) => GroupRemoveTold(s, g);
    case RenameGroup(g, name) => GroupRenameTold(s, g, name);
    case MoveGroup(g, at) => MoveGroupTold(s, g, at);
  }

  lemma CommandTold(s: Roster, ev: Event)
    requires Keyed(s) && Legal(s, ev) && UserCommand(ev)
    ensures Told(s, Step(s, ev))
  {
    hide Told;
    hide Keyed;
    hide ContactAdd;
    hide ContactRemove;
    hide ContactRename;
    hide ContactMove;
    hide ContactAddGroup;
    hide ContactChangeGroup;
    hide ContactRemoveGroup;
    if GroupCommand(ev) {
      GroupCommandTold(s, ev);
    } else {
      match ev
      case AddContact(g, name, pos) => ContactAddTold(s, g, name, pos);
      case RemoveContact(c) => ContactRemoveTold(s, c, true);
      case RenameContact(c, name) => ContactRenameTold(s, c, name);
      case SetAlt(c, name) => Same(s, ContactSetAlt(s, c, name));
      case MoveContact(c, at) => MoveContactTold(s, c, at);
      case AddToGroup(c, g) => AddGroupTold(s, c, g);
      case ChangeGroup(c, from, to) => ChangeGroupTold(s, c, from, to);
      case RemoveFromGroup(c, g) => RemoveGroupTold(s, c, g);
    }
  }

  lemma {:induction false} AnnounceQuiet(s: Roster, ids: seq<int>)
    ensures var t := Announce(s, ids); t == s.(log := t.log)
  {
    if ids != [] {
      AnnounceQuiet(s, ids[..|ids| - 1]);
    }
  }

  lemma MoveGroupTold(s: Roster, g: int, at: nat)
    requires at < |s.order|
    ensures Told(s, GroupMove(s, g, at))
  {
    if g in s.order {
      ReportMovedKeeps(s.(order := Moved(s.order, IndexOf(s.order, g), at)), s.order, |s.order|);
    }
    Same(s, GroupMove(s, g, at));
  }

  lemma {:induction false} ReportContactsQuiet(s: Roster, was: seq<int>, now: seq<int>, n: nat)
    requires n <= |was| == |now|
    ensures var t := ReportMovedContacts(s, was, now, n); t == s.(log := t.log)
  {
    if n > 0 {
      ReportContactsQuiet(s, was, now, n - 1);
    }
  }

  lemma MoveContactTold(s: Roster, c: int, at: nat)
    requires MoveOk(s, c, at)
    ensures Told(s, ContactMove(s, c, at))
  {
    if c in s.contacts {
      var g := s.contacts[c].groups[0];
      var was := s.groups[g].contacts;
      var now := Moved(was, IndexOf(was, c), at);
      ReportContactsQuiet(SetGroup(s, g, s.groups[g].(contacts := now)), was, now, |was|);
    }
    Same(s, ContactMove(s, c, at));
  }

  lemma HiddenTold(s: Roster, account: int, jid: string, contactName: string, entryName: string)
    ensures var t := AddHidden(s, account, jid, contactName, entryName);
            t.sent == s.sent && s.nextEntry <= t.nextEntry && (forall e <- t.entries :: e in s.entries || e >= s.nextEntry)
            && (Keyed(s) ==> forall e <- t.entries :: e in s.entries ==> t.entries[e] == s.entries[e])
  {
  }

  lemma SubscriptionTold(s: Roster, account: int, jid: string, kind: SubscriptionType, nick: string, reason: string)
    requires Keyed(s)
    ensures Told(s, Subscription(s, account, jid, kind, nick, reason))
  {
    hide AddHidden;
    hide FindEntry;
    hide Keyed;
    hide Told;
    var name := if nick == "" then jid else nick;
    HiddenTold(s, account, jid, name, name);
    Quiet(s, Subscription(s, account, jid, kind, nick, reason));
  }

  lemma ChatTold(s: Roster, account: int, jid: string)
    requires Keyed(s)
    ensures Told(s, ChatFrom(s, account, jid))
  {
    hide AddHidden;
    hide FindEntry;
    hide Keyed;
    hide Told;
    HiddenTold(s, account, jid, jid, "");
    Quiet(s, ChatFrom(s, account, jid));
  }

  /** Deleting an account tells no server anything and changes none of the entries left. */
  lemma DeleteAccountKnown(s: Roster, account: int)
    requires Inv(s)
    ensures var t := RemoveAccount(s, account);
            s.sent <= t.sent && forall e <- t.entries :: e in s.entries ==> Current(t.sent[|s.sent|..], s.entries[e], t.entries[e])
  {
    hide InvBut;
    hide RemoveAccount;
    var t := RemoveAccount(s, account);
    RemoveAccountExact(s, account);
    assert t.sent[|s.sent|..] == [];
    forall e | e in t.entries && e in s.entries ensures Current(t.sent[|s.sent|..], s.entries[e], t.entries[e]) {
      assert LastAbout([], t.entries[e].account, t.entries[e].jid) == Nothing;
    }
  }

  /** Whatever happens but a push: no stanza is taken back, and for every entry that was there and still
      is, its server either heard nothing and its name and groups are as before, or the last it heard is
      exactly the name and groups the entry has now. */
  lemma ServersKnow(s: Roster, ev: Event)
    requires Sound(s) && Legal(s, ev) && !Push(ev)
    ensures var t := Step(s, ev);
            && s.sent <= t.sent
            && forall e <- t.entries :: e in s.entries ==> Current(t.sent[|s.sent|..], s.entries[e], t.entries[e])
  {
    hide InvBut;
    hide Agrees;
    hide Keyed;
    hide Current;
    SoundKeyed(s);
    if UserCommand(ev) {
      CommandTold(s, ev);
    } else if ev.DeleteAccount? {
      DeleteAccountKnown(s, ev.account);
    } else {
      OtherTold(s, ev);
    }
  }

  lemma OtherTold(s: Roster, ev: Event)
    requires Sound(s) && Keyed(s) && Legal(s, ev) && !Push(ev) && !UserCommand(ev) && !ev.DeleteAccount?
    ensures Told(s, Step(s, ev))
  {
    hide InvBut;
    hide Agrees;
    hide Keyed;
    hide Told;
    match ev
    case AddEntry(c, account, jid, nick, reason, pos) => EntryAddTold(s, c, account, jid, nick, reason, pos);
    case RemoveEntry(e) => EntryRemoveTold(s, e, true);
    case ChangeContact(e, from, to) => ChangeContactTold(s, e, from, to);
    case SubscriptionReceived(account, jid, kind, nick, reason) => SubscriptionTold(s, account, jid, kind, nick, reason);
    case ChatReceived(account, jid) => ChatTold(s, account, jid);
    case TagReported(account, jid, tag, changed) => TagChangedTold(s, account, jid, tag, changed);
    case TagMinted(c, uuid, changed) =>
      if c in s.contacts {
        ReportsQuiet(Retag(s, c, uuid), Changed(s.contacts[c].entries, changed));
      }
      Same(s, MintTag(s, c, uuid, changed));
    case Connection(account, on) => Same(s, SetActive(s, account, on));
    case DeleteTransport(account, host) => VisitAddressesTold(s, account, host, KeyList(s.byJid, Alphabetic(s.byJid.Keys)));
    case CleanUpGroups => DropGroupsTold(s, s.order);
  }
}
