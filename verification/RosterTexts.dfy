/** What the user's commands make of the roster, of the names and group names stored with entries above all,
    and what is sent and queued for it, told from the values before and after. */
module RosterTexts {
  import opened Lists
  import opened RosterModel
  import opened RosterInvariant
  import opened RosterMirror
  import opened RosterOps
  import opened RosterEffects
  import opened RosterServer
  import opened RosterRemovals

  // ---- groups -----------------------------------------------------------------------------------

  /** The entry has `name` among its group names instead of `was`, the other names in their order; its main group
      follows. Nothing else of it has changed. */
  ghost predicate Relabelled(v: Entry, w: Entry, was: string, name: string) {
    && w == v.(groups := w.groups, mainGroup := if v.mainGroup == was then name else v.mainGroup)
    && (forall x :: x in w.groups <==> x == name || (x in v.groups && x != was))
    && Without(w.groups, name) == Without(Without(v.groups, was), name)
  }

  lemma {:induction false} WithoutCommutes<T>(a: seq<T>, x: T, y: T)
    ensures Without(Without(a, x), y) == Without(Without(a, y), x)
  {
    if a != [] {
      WithoutCommutes(a[1..], x, y);
    }
  }

  lemma RenameRelabels(v: Entry, was: string, name: string)
    ensures Relabelled(v, Edited(v, RenameName(was, name)), was, name)
  {
    WithoutSum(Without(v.groups, was), [name], name);
  }

  lemma RelabelledTwice(u: Entry, v: Entry, w: Entry, was: string, name: string)
    requires Relabelled(u, v, was, name) && Relabelled(v, w, was, name)
    ensures Relabelled(u, w, was, name)
  {
    var gs := Without(u.groups, was);
    WithoutCommutes(v.groups, was, name);
    WithoutCommutes(gs, was, name);
    WithoutMissing(gs, was);
  }

  lemma EntriesRelabelled(s: Roster, u: Roster, c: int, was: string, name: string)
    requires Inv(s) && c in s.contacts && u.entries.Keys == s.entries.Keys
    ensures var t := CommitEntries(u, s.contacts[c].entries, RenameName(was, name));
            && t.entries.Keys == u.entries.Keys
            && forall e <- u.entries ::
                 if s.entries[e].contact == c then Relabelled(u.entries[e], t.entries[e], was, name) else t.entries[e] == u.entries[e]
  {
    hide InvBut;
    hide Relabelled;
    hide Edited;
    ListedEntries(s, c);
    CommitOnce(u, s.contacts[c].entries, RenameName(was, name));
    forall e | e in u.entries ensures Relabelled(u.entries[e], Edited(u.entries[e], RenameName(was, name)), was, name) {
      RenameRelabels(u.entries[e], was, name);
    }
  }

  /** However often a contact is listed. */
  lemma {:induction false} ContactsRelabelled(s: Roster, a: Roster, cs: seq<int>, was: string, name: string)
    requires Inv(s) && a.contacts == s.contacts && a.entries == s.entries && forall c <- cs :: c in s.contacts
    ensures var t := CommitContacts(a, cs, RenameName(was, name));
            && t == a.(entries := t.entries, sent := t.sent) && t.entries.Keys == s.entries.Keys
            && forall e <- s.entries ::
                 if s.entries[e].contact in cs then Relabelled(s.entries[e], t.entries[e], was, name) else t.entries[e] == s.entries[e]
  {
    hide InvBut;
    hide Relabelled;
    hide CommitEntries;
    if cs != [] {
      var rest, c := cs[..|cs| - 1], cs[|cs| - 1];
      assert cs == rest + [c];
      ContactsRelabelled(s, a, rest, was, name);
      var u := CommitContacts(a, rest, RenameName(was, name));
      var t := CommitEntries(u, s.contacts[c].entries, RenameName(was, name));
      CommitEntriesContacts(u, s.contacts[c].entries, RenameName(was, name));
      EntriesRelabelled(s, u, c, was, name);
      forall e | e in s.entries && s.entries[e].contact == c ensures Relabelled(s.entries[e], t.entries[e], was, name) {
        if c in rest {
          RelabelledTwice(s.entries[e], u.entries[e], t.entries[e], was, name);
        }
      }
    }
  }

  /** A user group renamed is called by its new name, and every entry of the contacts listed in it has that name
      instead of the old one; nothing else changes. A nameless request and other groups are left alone. */
  lemma GroupRenameEffect(s: Roster, g: int, name: string)
    requires Inv(s) && g in s.groups
    ensures var t, was := GroupRename(s, g, name), s.groups[g].name;
            if name == "" || s.groups[g].kind != User then t == s
            else
              && t == s.(groups := s.groups[g := s.groups[g].(name := name)], entries := t.entries, sent := t.sent, log := t.log)
              && t.entries.Keys == s.entries.Keys
              && (forall e <- s.entries ::
                    if s.entries[e].contact in s.groups[g].contacts then Relabelled(s.entries[e], t.entries[e], was, name)
                    else t.entries[e] == s.entries[e])
  {
    hide InvBut;
    hide Relabelled;
    hide CommitContacts;
    if name != "" && s.groups[g].kind == User {
      KnownGroup(s, g, -1);
      ContactsRelabelled(s, SetGroup(s, g, s.groups[g].(name := name)), s.groups[g].contacts, s.groups[g].name, name);
    }
  }

  // ---- contacts in groups -------------------------------------------------------------------------

  /** The lists of the groups once the contact has left `from` and come last in `to`. */
  function Relisted(groups: map<int, Group>, c: int, from: int, to: int): map<int, Group>
    requires from in groups && to in groups
  {
    var left := groups[from := groups[from].(contacts := Without(groups[from].contacts, c))];
    left[to := left[to].(contacts := left[to].contacts + [c])]
  }

  /** A contact is taken from its first group to another, last there on both sides; its entries lose the name of
      the one and gain that of the other. That is all, and from any but the first group, and to or from the
      "not in list" one, nothing happens. */
  lemma ContactChangeGroupEffect(s: Roster, c: int, from: int, to: int)
    requires Inv(s) && c in s.contacts && from in s.groups && to in s.groups
    ensures var t, gs := ContactChangeGroup(s, c, from, to), s.contacts[c].groups;
            if gs[0] != from || from == 1 || to == 1 then t == s
            else
              && t.contacts == s.contacts[c := s.contacts[c].(groups := Without(gs, from) + [to])]
              && t.groups == Relisted(s.groups, c, from, to) && t.order == s.order
              && TextsExchanged(s, t, c, StoredName(s, from), StoredName(s, to))
  {
    hide InvBut;
    hide TextsExchanged;
    hide CommitEntries;
    hide ContactChangeGroup;
    hide Relisted;
    KnownContact(s, c);
    KnownGroup(s, from, -1);
    KnownGroup(s, to, -1);
    TransferredLists(s, c, from, to);
    if TransferAllowed(s, c, from, to) {
      var u, drop, add := Link(Unlink(s, c, from), c, to), NamedIfUser(s.groups[from]), NamedIfUser(s.groups[to]);
      ExchangeOnce(s, u, c, drop, add);
      SameExchange(s, CommitEntries(u, s.contacts[c].entries, SwapNames(drop, add)), ContactChangeGroup(s, c, from, to), c,
                   StoredName(s, from), StoredName(s, to));
    }
  }

  lemma TransferredLists(s: Roster, c: int, from: int, to: int)
    requires c in s.contacts && from in s.groups && to in s.groups
    ensures var t := ContactChangeGroup(s, c, from, to);
            if !TransferAllowed(s, c, from, to) then t == s
            else
              var u, d := Link(Unlink(s, c, from), c, to), SwapNames(NamedIfUser(s.groups[from]), NamedIfUser(s.groups[to]));
              && t.contacts == s.contacts[c := s.contacts[c].(groups := Without(s.contacts[c].groups, from) + [to])]
              && t.groups == Relisted(s.groups, c, from, to) && t.order == s.order
              && t.entries == CommitEntries(u, s.contacts[c].entries, d).entries && u.entries == s.entries
  {
    hide CommitEntries;
    if TransferAllowed(s, c, from, to) {
      var u, d := Link(Unlink(s, c, from), c, to), SwapNames(NamedIfUser(s.groups[from]), NamedIfUser(s.groups[to]));
      CommitEntriesContacts(u, s.contacts[c].entries, d);
    }
  }

  lemma SameExchange(s: Roster, t: Roster, u: Roster, c: int, out: string, into: string)
    requires TextsExchanged(s, t, c, out, into) && u.entries == t.entries
    ensures TextsExchanged(s, u, c, out, into)
  {
  }

  lemma UnlinkedLists(s: Roster, c: int, g: int)
    requires Inv(s) && c in s.contacts && g in s.groups && g in s.contacts[c].groups && g != 1
    ensures var t, gs := ContactRemoveGroup(s, c, g), s.contacts[c].groups;
            var v := CommitEntries(Unlink(s, c, g), s.contacts[c].entries, SwapNames(NamedIfUser(s.groups[g]), None));
            && 0 in s.groups
            && t.groups == (if Without(gs, g) == [] then Relisted(s.groups, c, g, 0)
                            else s.groups[g := s.groups[g].(contacts := Without(s.groups[g].contacts, c))])
            && t.order == s.order && t.entries == v.entries
  {
    hide InvBut;
    hide CommitEntries;
    hide FindGroup;
    KnownGroup(s, g, -1);
    CommitEntriesContacts(Unlink(s, c, g), s.contacts[c].entries, SwapNames(NamedIfUser(s.groups[g]), None));
    TextsChanged(s, c, g);
  }

  /** Taken out of a group, a contact's entries lose its name; the contact leaves the group's list, and comes
      last in the general group if that was its only one. Nothing else changes. */
  lemma ContactRemoveGroupTexts(s: Roster, c: int, g: int)
    requires Inv(s) && c in s.contacts && g in s.groups
    ensures var t, gs := ContactRemoveGroup(s, c, g), s.contacts[c].groups;
            if g !in gs || g == 1 then t == s
            else
              && t.groups == (if Without(gs, g) == [] then Relisted(s.groups, c, g, 0)
                              else s.groups[g := s.groups[g].(contacts := Without(s.groups[g].contacts, c))])
              && t.order == s.order && TextsExchanged(s, t, c, StoredName(s, g), "")
  {
    hide InvBut;
    hide TextsExchanged;
    hide CommitEntries;
    hide ContactRemoveGroup;
    hide Relisted;
    KnownGroup(s, g, -1);
    if g in s.contacts[c].groups && g != 1 {
      var drop := NamedIfUser(s.groups[g]);
      UnlinkedLists(s, c, g);
      ExchangeOnce(s, Unlink(s, c, g), c, drop, None);
      SameExchange(s, CommitEntries(Unlink(s, c, g), s.contacts[c].entries, SwapNames(drop, None)), ContactRemoveGroup(s, c, g), c, StoredName(s, g), "");
    } else {
      NotTakenOut(s, c, g);
    }
  }

  lemma NotTakenOut(s: Roster, c: int, g: int)
    requires Inv(s) && c in s.contacts && g in s.groups && (g !in s.contacts[c].groups || g == 1)
    ensures ContactRemoveGroup(s, c, g) == s
  {
    hide InvBut;
    KnownGroup(s, g, -1);
  }

  /** The entry is in a contact that is listed, and in the group. */
  predicate InGroup(s: Roster, e: int, g: int)
    requires e in s.entries
  {
    s.entries[e].contact in s.contacts && g in s.contacts[s.entries[e].contact].groups
  }

  /** The entries of the contacts `cs` that are in the group have lost its name, and no other has changed. */
  ghost predicate NameLost(s: Roster, t: Roster, cs: seq<int>, g: int, name: string) {
    && t.entries.Keys == s.entries.Keys
    && forall e <- s.entries ::
         if s.entries[e].contact in cs && InGroup(s, e, g) then Exchanged(s.entries[e], t.entries[e], name, "")
         else t.entries[e] == s.entries[e]
  }

  /** The contacts `cs` have left the group, and no other contact has left any. */
  ghost predicate Left(s: Roster, t: Roster, cs: seq<int>, g: int) {
    && t.contacts.Keys == s.contacts.Keys
    && forall c <- s.contacts :: (g in t.contacts[c].groups <==> g in s.contacts[c].groups && c !in cs)
  }

  lemma NameLostNext(s: Roster, t: Roster, u: Roster, cs: seq<int>, c: int, g: int, name: string)
    requires NameLost(s, t, cs, g, name) && Left(s, t, cs, g) && c in s.contacts
    requires if g in t.contacts[c].groups then TextsExchanged(t, u, c, name, "") else u.entries == t.entries
    ensures NameLost(s, u, cs + [c], g, name)
  {
    hide Exchanged;
    assert t.contacts.Keys == s.contacts.Keys;
    forall e | e in s.entries
      ensures if s.entries[e].contact in cs + [c] && InGroup(s, e, g) then Exchanged(s.entries[e], u.entries[e], name, "")
              else u.entries[e] == s.entries[e]
    {
      var d := s.entries[e].contact;
      assert t.entries[e].contact == d by { ExchangedPlace(s, t, cs, g, name, e); }
      assert d in cs + [c] <==> d in cs || d == c;
      if d in s.contacts {
        assert g in t.contacts[d].groups <==> g in s.contacts[d].groups && d !in cs;
      }
    }
  }

  lemma ExchangedPlace(s: Roster, t: Roster, cs: seq<int>, g: int, name: string, e: int)
    requires NameLost(s, t, cs, g, name) && e in s.entries
    ensures t.entries[e].contact == s.entries[e].contact
  {
  }

  lemma RegroupedOut(s: Roster, cs: seq<int>, g: int)
    requires Inv(s) && g in s.groups && g > 1 && forall c <- cs :: c in s.contacts
    ensures Inv(RemoveGroupFromAll(s, cs, g)) && Left(s, RemoveGroupFromAll(s, cs, g), cs, g)
  {
    hide InvBut;
    RemoveFromAllEffect(s, cs, g);
  }

  /** All groups but the general one list whom they listed, and the one given up keeps its name. */
  ghost predicate OthersSame(s: Roster, t: Roster, g: int)
    requires g in s.groups
  {
    && t.order == s.order && g in t.groups && t.groups[g].name == s.groups[g].name && t.groups[g].kind == s.groups[g].kind
    && forall h <- s.groups :: h != g && h > 0 ==> h in t.groups && t.groups[h] == s.groups[h]
  }

  lemma OneOut(t: Roster, c: int, g: int)
    requires Inv(t) && c in t.contacts && g in t.groups && g > 1
    ensures var u := ContactRemoveGroup(t, c, g);
            OthersSame(t, u, g) && if g in t.contacts[c].groups then TextsExchanged(t, u, c, t.groups[g].name, "") else u.entries == t.entries
  {
    hide InvBut;
    hide TextsExchanged;
    hide ContactRemoveGroup;
    KnownGroup(t, g, -1);
    ContactRemoveGroupTexts(t, c, g);
  }

  lemma {:induction false} RemoveFromAllTexts(s: Roster, cs: seq<int>, g: int)
    requires Inv(s) && g in s.groups && g > 1 && forall c <- cs :: c in s.contacts
    ensures var t := RemoveGroupFromAll(s, cs, g); OthersSame(s, t, g) && NameLost(s, t, cs, g, s.groups[g].name)
  {
    hide InvBut;
    hide NameLost;
    hide ContactRemoveGroup;
    if cs != [] {
      var rest, c := cs[..|cs| - 1], cs[|cs| - 1];
      assert cs == rest + [c];
      RemoveFromAllTexts(s, rest, g);
      RegroupedOut(s, rest, g);
      var t := RemoveGroupFromAll(s, rest, g);
      OneOut(t, c, g);
      NameLostNext(s, t, ContactRemoveGroup(t, c, g), rest, c, g, s.groups[g].name);
    } else {
      NoneLost(s, g);
    }
  }

  lemma NoneLost(s: Roster, g: int)
    requires g in s.groups
    ensures NameLost(s, s, [], g, s.groups[g].name)
  {
  }

  /** When a user group is removed, the entries of its contacts lose its name, every other entry is as before,
      and so are the lists of all groups but the general one, and their order. */
  lemma GroupRemoveTexts(s: Roster, g: int)
    requires Inv(s) && g in s.groups
    ensures var t := GroupRemove(s, g);
            if s.groups[g].kind != User then t == s
            else
              && t.entries.Keys == s.entries.Keys && t.order == Without(s.order, g)
              && (forall h <- s.groups :: h != g && h > 0 ==> h in t.groups && t.groups[h] == s.groups[h])
              && forall e <- s.entries ::
                   if InGroup(s, e, g) then Exchanged(s.entries[e], t.entries[e], s.groups[g].name, "") else t.entries[e] == s.entries[e]
  {
    hide InvBut;
    hide Exchanged;
    hide RemoveGroupFromAll;
    if s.groups[g].kind == User {
      KnownGroup(s, g, -1);
      RemoveFromAllTexts(s, s.groups[g].contacts, g);
      forall e | e in s.entries && InGroup(s, e, g) ensures s.entries[e].contact in s.groups[g].contacts {
        KnownContact(s, s.entries[e].contact);
      }
    }
  }

  // ---- contacts -------------------------------------------------------------------------------------

  /** A contact renamed and all its entries have the new name, and nothing else changes. */
  lemma ContactRenameEffect(s: Roster, c: int, name: string)
    requires Inv(s) && c in s.contacts
    ensures var t := ContactRename(s, c, name);
            if name == "" then t == s
            else
              && t == s.(contacts := s.contacts[c := s.contacts[c].(name := name)], entries := t.entries, sent := t.sent, log := t.log)
              && t.entries.Keys == s.entries.Keys
              && forall e <- s.entries :: t.entries[e] == s.entries[e].(name := if s.entries[e].contact == c then name else s.entries[e].name)
  {
    hide InvBut;
    if name != "" {
      var u := SetContact(s, c, s.contacts[c].(name := name));
      ListedEntries(s, c);
      CommitEntriesContacts(u, s.contacts[c].entries, SetName(name));
      CommitOnce(u, s.contacts[c].entries, SetName(name));
    }
  }

  /** These are the names of the user groups among `gs`, in their order. */
  predicate NamesOf(gs: seq<int>, groups: map<int, Group>, names: seq<string>) {
    if gs == [] then names == []
    else if gs[0] in groups && groups[gs[0]].kind == User then
      names != [] && names[0] == groups[gs[0]].name && NamesOf(gs[1..], groups, names[1..])
    else NamesOf(gs[1..], groups, names)
  }

  lemma {:induction false} NamesNext(gs: seq<int>, groups: map<int, Group>, names: seq<string>, g: int)
    requires NamesOf(gs, groups, names)
    ensures NamesOf(gs + [g], groups, names + if g in groups && groups[g].kind == User then [groups[g].name] else [])
  {
    var more := if g in groups && groups[g].kind == User then [groups[g].name] else [];
    if gs == [] {
      assert [g] + [] == [g] && gs + [g] == [g] && [g][1..] == [] && names + more == more;
      assert more != [] ==> more[1..] == [];
    } else {
      assert (gs + [g])[1..] == gs[1..] + [g];
      if gs[0] in groups && groups[gs[0]].kind == User {
        assert (names + more)[1..] == names[1..] + more;
        NamesNext(gs[1..], groups, names[1..], g);
      } else {
        NamesNext(gs[1..], groups, names, g);
      }
    }
  }

  lemma {:induction false} UserNamesOf(gs: seq<int>, groups: map<int, Group>)
    ensures NamesOf(gs, groups, UserNames(gs, groups))
  {
    if gs != [] {
      var rest, g := gs[..|gs| - 1], gs[|gs| - 1];
      assert gs == rest + [g];
      UserNamesOf(rest, groups);
      NamesNext(rest, groups, UserNames(rest, groups), g);
      assert UserNames(rest, groups) + [] == UserNames(rest, groups);
    }
  }

  /** The entry has become one of contact `to`: it has that contact's name and the names of its user groups, the
      first of which is its main group. */
  predicate Adapted(s: Roster, v: Entry, w: Entry, to: int)
    requires to in s.contacts
  {
    && w == v.(name := s.contacts[to].name, groups := w.groups, mainGroup := w.mainGroup, contact := to)
    && NamesOf(s.contacts[to].groups, s.groups, w.groups)
    && w.mainGroup == if w.groups == [] then "" else w.groups[0]
  }

  /** An entry handed to another contact adapts to it, comes last in its list, and its server is told. An entry
      not of that contact, or handed to its own, is left alone. */
  lemma EntryChangeContactEffect(s: Roster, e: int, from: int, to: int)
    requires Inv(s) && e in s.entries && from in s.contacts && to in s.contacts
    ensures var t := EntryChangeContact(s, e, from, to);
            if s.entries[e].contact != from || from == to then t == s
            else
              && e in t.entries && Adapted(s, s.entries[e], t.entries[e], to) && t.entries == s.entries[e := t.entries[e]]
              && t.contacts == s.contacts[from := s.contacts[from].(entries := Without(s.contacts[from].entries, e))]
                                         [to := s.contacts[to].(entries := s.contacts[to].entries + [e])]
              && t.groups == s.groups && t.order == s.order && t.byJid == s.byJid
              && t.sent == s.sent + [RosterSet(s.entries[e].account, s.entries[e].jid, t.entries[e].name, t.entries[e].groups)]
              && t.log == s.log + [EntryContactChanged(e, from, to)]
  {
    hide InvBut;
    UserNamesOf(s.contacts[to].groups, s.groups);
  }

  // ---- adding an address to a contact -------------------------------------------------------------

  /** The list with `x` put in before position `pos`, at the end if that is -1 or beyond it. */
  predicate PutIn(was: seq<int>, now: seq<int>, pos: int, x: int) {
    var p := if pos == -1 || pos > |was| then |was| else if pos < 0 then 0 else pos;
    |now| == |was| + 1 && now[p] == x && now[..p] == was[..p] && now[p + 1..] == was[p..]
  }

  lemma PlacePutsIn(was: seq<int>, pos: int, x: int)
    ensures PutIn(was, Place(was, pos, x), pos, x)
  {
  }

  /** Contact `from` has lost its entry `e` and is gone if it had no other; no other contact but `c` differs. */
  ghost predicate LeftBy(s: Roster, t: Roster, from: int, e: int, c: int)
    requires from in s.contacts && c in s.contacts
  {
    && (forall d :: d in t.contacts <==> d in s.contacts && !(d == from && OnlyEntry(s, from, e)))
    && (from in t.contacts ==> t.contacts[from] == s.contacts[from].(entries := Without(s.contacts[from].entries, e)))
    && (forall d <- t.contacts :: d != from && d != c ==> t.contacts[d] == s.contacts[d])
  }

  lemma TakenOver(s: Roster, c: int, account: int, jid: string, nick: string, reason: string, pos: int)
    requires jid != "" && c in s.contacts && FindEntry(s, account, jid) != -1
    requires var e := FindEntry(s, account, jid); s.entries[e].contact != c && s.entries[e].contact in s.contacts
    ensures var e := FindEntry(s, account, jid);
            var from := s.entries[e].contact;
            var t := EntryChangeContact(s, e, from, c);
            var u := if from in t.contacts && t.contacts[from].entries == [] then ContactRemove(t, from, true) else t;
            EntryAdd(s, c, account, jid, nick, reason, pos) == if InList(s, from) then u else Send(u, Subscribe(account, s.entries[e].jid, nick, reason))
  {
    hide FindEntry;
    hide InList;
    hide EntryChangeContact;
    hide ContactRemove;
  }

  lemma TakenAlready(s: Roster, c: int, account: int, jid: string, nick: string, reason: string, pos: int)
    requires c in s.contacts && FindEntry(s, account, jid) != -1 && s.entries[FindEntry(s, account, jid)].contact == c
    ensures EntryAdd(s, c, account, jid, nick, reason, pos) == s
  {
  }

  /** An address the account has already is taken over from its contact, which goes if it has no other entry; the
      entry adapts to its new contact and its server is told. If it was hidden before, a subscription is asked for. */
  lemma EntryTakenOver(s: Roster, c: int, account: int, jid: string, nick: string, reason: string, pos: int)
    requires Inv(s) && c in s.contacts && jid != "" && FindEntry(s, account, jid) != -1
    ensures var t, e := EntryAdd(s, c, account, jid, nick, reason, pos), FindEntry(s, account, jid);
            var from := s.entries[e].contact;
            from in s.contacts &&
            if from == c then t == s
            else
              && e in t.entries && Adapted(s, s.entries[e], t.entries[e], c) && t.entries == s.entries[e := t.entries[e]]
              && LeftBy(s, t, from, e, c) && c in t.contacts && t.contacts[c] == s.contacts[c].(entries := s.contacts[c].entries + [e])
              && t.sent == s.sent + [RosterSet(account, jid, t.entries[e].name, t.entries[e].groups)]
                                  + (if s.contacts[from].groups[0] == 1 then [Subscribe(account, jid, nick, reason)] else [])
  {
    hide InvBut;
    hide FindEntry;
    hide InList;
    hide EntryAdd;
    hide EntryChangeContact;
    hide ContactRemove;
    hide LeftBy;
    hide Adapted;
    var e := FindEntry(s, account, jid);
    var from := s.entries[e].contact;
    KnownEntry(s, e);
    FoundAddress(s, account, jid);
    if from != c {
      EntryChangeContactEffect(s, e, from, c);
      EmptiedGoes(s, e, c);
      InListIs(s, from);
      TakenOver(s, c, account, jid, nick, reason, pos);
      var t := EntryChangeContact(s, e, from, c);
      var u := if from in t.contacts && t.contacts[from].entries == [] then ContactRemove(t, from, true) else t;
      LeftToo(s, u, EntryAdd(s, c, account, jid, nick, reason, pos), from, e, c);
      assert forall sent: seq<Stanza> :: sent + [] == sent;
    } else {
      TakenAlready(s, c, account, jid, nick, reason, pos);
    }
  }

  lemma LeftToo(s: Roster, t: Roster, u: Roster, from: int, e: int, c: int)
    requires from in s.contacts && c in s.contacts && LeftBy(s, t, from, e, c) && u.contacts == t.contacts
    ensures LeftBy(s, u, from, e, c)
  {
  }

  lemma EmptiedGoes(s: Roster, e: int, c: int)
    requires Inv(s) && e in s.entries && c in s.contacts && s.entries[e].contact in s.contacts && s.entries[e].contact != c
    ensures var from := s.entries[e].contact;
            var t := EntryChangeContact(s, e, from, c);
            var u := if from in t.contacts && t.contacts[from].entries == [] then ContactRemove(t, from, true) else t;
            && u.entries == t.entries && u.sent == t.sent
            && LeftBy(s, u, from, e, c) && c in u.contacts && u.contacts[c] == s.contacts[c].(entries := s.contacts[c].entries + [e])
  {
    hide InvBut;
    hide EntryChangeContact;
    hide ContactRemove;
    hide OnlyEntry;
    hide Adapted;
    var from := s.entries[e].contact;
    var t := EntryChangeContact(s, e, from, c);
    EntryChangeContactEffect(s, e, from, c);
    Alone(s, from, e);
    if t.contacts[from].entries == [] {
      EmptyRemoved(t, from);
      RemoveEmptyQuiet(t, from);
    }
  }

  lemma FoundAddress(s: Roster, account: int, jid: string)
    requires Inv(s) && FindEntry(s, account, jid) != -1
    ensures var e := FindEntry(s, account, jid); s.entries[e].account == account && s.entries[e].jid == jid
  {
    hide InvBut;
    IndexedEntry(s, jid, FindEntry(s, account, jid));
  }

  /** An address new to the account becomes an entry where it is wanted in the contact's list, with the
      contact's name and the name of its first group. Unless the contact is hidden, the server is told
      and a subscription is asked for. An empty address adds nothing. */
  lemma EntryMade(s: Roster, c: int, account: int, jid: string, nick: string, reason: string, pos: int)
    requires Inv(s) && c in s.contacts && FindEntry(s, account, jid) == -1
    ensures var t, n, g := EntryAdd(s, c, account, jid, nick, reason, pos), s.nextEntry, s.contacts[c].groups[0];
            n !in s.entries && g in s.groups &&
            if jid == "" then t == s
            else
            var name, names := s.contacts[c].name, if g > 1 then [s.groups[g].name] else [];
            && t.entries == s.entries[n := Entry(account, jid, name, "none", false, names, if g > 1 then s.groups[g].name else "", c)]
            && c in t.contacts && PutIn(s.contacts[c].entries, t.contacts[c].entries, pos, n)
            && t.contacts == s.contacts[c := s.contacts[c].(entries := t.contacts[c].entries)] && t.groups == s.groups
            && t.sent == s.sent + (if g != 1 then [RosterSet(account, jid, name, names), Subscribe(account, jid, nick, reason)] else [])
            && t.log == s.log + [EntryAdded(c, n, EntryProps(account, jid, "none", false))] && t.byJid == Filed(s.byJid, jid, n)
  {
    hide InvBut;
    hide FindEntry;
    hide InList;
    hide Place;
    hide PutIn;
    KnownContact(s, c);
    KnownGroup(s, s.contacts[c].groups[0], -1);
    InListIs(s, c);
    NextIsNew(s);
    PlacePutsIn(s.contacts[c].entries, pos, s.nextEntry);
    if jid != "" {
      EntryMadeSent(s, c, account, jid, nick, reason, pos);
    }
  }

  lemma EntryMadeSent(s: Roster, c: int, account: int, jid: string, nick: string, reason: string, pos: int)
    requires c in s.contacts && jid != "" && FindEntry(s, account, jid) == -1
    ensures var v := FreshEntry(s, c, account, jid);
            EntryAdd(s, c, account, jid, nick, reason, pos).sent ==
              s.sent + if InList(s, c) then [RosterSet(account, jid, v.name, v.groups), Subscribe(account, jid, nick, reason)] else []
  {
    hide FindEntry;
    hide InList;
    hide Place;
    var v := FreshEntry(s, c, account, jid);
    assert s.sent + [Commit(v)] + [Subscribe(account, jid, nick, reason)] == s.sent + [Commit(v), Subscribe(account, jid, nick, reason)];
    assert s.sent + [] == s.sent;
  }

  // ---- look-ups ---------------------------------------------------------------------------------------

  /** `g` stands in the list before any other group of that kind and name. */
  predicate FirstOf(order: seq<int>, groups: map<int, Group>, kind: GroupKind, name: string, g: int) {
    exists i :: 0 <= i < |order| && order[i] == g && Is(groups, g, kind, name) && forall j :: 0 <= j < i ==> !Is(groups, order[j], kind, name)
  }

  predicate Is(groups: map<int, Group>, g: int, kind: GroupKind, name: string) {
    g in groups && groups[g].kind == kind && groups[g].name == name
  }

  lemma {:induction false} FindGroupFirst(order: seq<int>, groups: map<int, Group>, kind: GroupKind, name: string)
    requires -1 !in order
    ensures var g := FindGroup(order, groups, kind, name);
            if g == -1 then forall h <- order :: !Is(groups, h, kind, name) else FirstOf(order, groups, kind, name, g)
  {
    if order != [] && !Is(groups, order[0], kind, name) {
      FindGroupFirst(order[1..], groups, kind, name);
      var g := FindGroup(order[1..], groups, kind, name);
      if g != -1 {
        var i :| 0 <= i < |order| - 1 && order[1..][i] == g && Is(groups, g, kind, name)
                 && forall j :: 0 <= j < i ==> !Is(groups, order[1..][j], kind, name);
        forall j | 0 <= j < i + 1 ensures !Is(groups, order[j], kind, name) {
          assert j > 0 ==> order[1..][j - 1] == order[j];
        }
        assert order[i + 1] == g;
      }
    }
  }

  /** `c` stands in the list before any other contact of that name. */
  predicate FirstNamed(ids: seq<int>, contacts: map<int, Contact>, name: string, c: int) {
    exists i :: 0 <= i < |ids| && ids[i] == c && Called(contacts, c, name) && forall j :: 0 <= j < i ==> !Called(contacts, ids[j], name)
  }

  predicate Called(contacts: map<int, Contact>, c: int, name: string) {
    c in contacts && contacts[c].name == name
  }

  lemma {:induction false} FindNamedFirst(ids: seq<int>, contacts: map<int, Contact>, name: string)
    requires -1 !in ids
    ensures var c := FindNamed(ids, contacts, name);
            if c == -1 then forall d <- ids :: !Called(contacts, d, name) else FirstNamed(ids, contacts, name, c)
  {
    if ids != [] && !Called(contacts, ids[0], name) {
      FindNamedFirst(ids[1..], contacts, name);
      var c := FindNamed(ids[1..], contacts, name);
      if c != -1 {
        var i :| 0 <= i < |ids| - 1 && ids[1..][i] == c && Called(contacts, c, name)
                 && forall j :: 0 <= j < i ==> !Called(contacts, ids[1..][j], name);
        forall j | 0 <= j < i + 1 ensures !Called(contacts, ids[j], name) {
          assert j > 0 ==> ids[1..][j - 1] == ids[j];
        }
        assert ids[i + 1] == c;
      }
    }
  }

  lemma OneFirst(order: seq<int>, groups: map<int, Group>, kind: GroupKind, name: string, g: int, f: int)
    requires FirstOf(order, groups, kind, name, g)
    requires if f == -1 then forall h <- order :: !Is(groups, h, kind, name) else FirstOf(order, groups, kind, name, f)
    ensures f == g
  {
    var i :| 0 <= i < |order| && order[i] == g && Is(groups, g, kind, name) && forall j :: 0 <= j < i ==> !Is(groups, order[j], kind, name);
    assert order[i] in order;
    if f != -1 {
      var k :| 0 <= k < |order| && order[k] == f && Is(groups, f, kind, name) && forall j :: 0 <= j < k ==> !Is(groups, order[j], kind, name);
    }
  }

  lemma KnownIds(s: Roster)
    requires Inv(s)
    ensures -1 !in s.order && -1 !in s.groups && forall g <- s.groups :: -1 !in s.groups[g].contacts
    ensures forall g <- s.order :: g in s.groups
  {
  }

  /** A contact is looked up in the first group of that kind and name: the first one of its name listed there is
      found, and none if there is no such group or it lists no such contact. */
  lemma FindContactFirst(s: Roster, name: string, groupName: string, kind: GroupKind)
    requires Inv(s)
    ensures var c := FindContact(s, name, groupName, kind);
            && ((forall g <- s.order :: !Is(s.groups, g, kind, groupName)) ==> c == -1)
            && (forall g <- s.groups :: FirstOf(s.order, s.groups, kind, groupName, g) ==>
                  if c == -1 then forall d <- s.groups[g].contacts :: s.contacts[d].name != name
                  else FirstNamed(s.groups[g].contacts, s.contacts, name, c))
  {
    hide InvBut;
    hide FindGroup;
    hide FindNamed;
    hide FirstOf;
    hide FirstNamed;
    KnownIds(s);
    FindGroupFirst(s.order, s.groups, kind, groupName);
    var f := FindGroup(s.order, s.groups, kind, groupName);
    forall g | g in s.groups && FirstOf(s.order, s.groups, kind, groupName, g) ensures f == g {
      OneFirst(s.order, s.groups, kind, groupName, g, f);
    }
    if f != -1 {
      FindNamedFirst(s.groups[f].contacts, s.contacts, name);
      KnownGroup(s, f, -1);
    }
  }
}
