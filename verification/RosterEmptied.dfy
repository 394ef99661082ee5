/** Which contacts go when a gateway is removed, and which stay behind without entries. */
module RosterEmptied {
  import opened Lists
  import opened RosterModel
  import opened RosterInvariant
  import opened RosterOps
  import opened RosterRuns
  import opened RosterTransport

  /** The entry of the contact that is removed last, by its address, is one of the account. */
  predicate OwnLast(s: Roster, account: int, host: string, c: int)
    requires c in s.contacts
  {
    exists e <- s.contacts[c].entries :: e in s.entries && Targeted(s, account, host, e) && LastAddress(s, c, s.entries[e].jid)
  }

  /** No address of the contact's entries comes after it. */
  predicate LastAddress(s: Roster, c: int, j: string)
    requires c in s.contacts
  {
    forall f <- s.contacts[c].entries :: f in s.entries ==> NotAfter(s.entries[f].jid, j)
  }

  /** Exactly those contacts are gone that lost all entries, one of the account being the last. */
  ghost predicate Gone(s: Roster, t: Roster, account: int, host: string) {
    forall c <- s.contacts :: c !in t.contacts <==> LostAll(s, t, c) && OwnLast(s, account, host, c)
  }

  // ---- one visit ----------------------------------------------------------------------------------

  lemma RemovedVisited(s: Roster, t: Roster, account: int, host: string, done: seq<string>, e: int)
    requires Inv(s) && Trimmed(s, t, account, host, done) && e in s.entries && e !in t.entries
    ensures s.entries[e].jid in done
  {
    hide InvBut;
    hide ContactsKept;
    hide GroupsSwept;
    hide Reach;
    var j := s.entries[e].jid;
    assert Listed(t, j) == Listed(s, j)[Cut(s, account, host, done, j)..];
    Filed(s, e);
    LeftInList(s, t, e, Cut(s, account, host, done, j));
  }

  /** A contact keeps in `t` just those of its entries that are left. */
  lemma SameContact(s: Roster, t: Roster, c: int, e: int)
    requires Inv(s) && Inv(t) && KeptEntries(s, t) && c in s.contacts && c in t.contacts
    ensures e in t.contacts[c].entries <==> e in s.contacts[c].entries && e in t.entries
  {
    hide InvBut;
    KnownContact(s, c);
    KnownContact(t, c);
    if e in t.entries {
      KnownEntry(s, e);
      KnownEntry(t, e);
    }
  }

  /** A contact none of whose entries is removed stays as it is. */
  lemma OthersStay(s: Roster, t: Roster, u: Roster, account: int, j: string, h: int, c: int)
    requires Inv(s) && Inv(t) && KeptEntries(s, t) && FindEntry(t, account, j) != -1 && u == Visited(t, account, j)
    requires Listed(t, j) != [] && h == t.byJid[j][0] && h in t.entries && c in s.contacts && c != t.entries[h].contact
    ensures (c in u.contacts <==> c in t.contacts) && (LostAll(s, u, c) <==> LostAll(s, t, c))
  {
    hide InvBut;
    hide Visited;
    hide FindEntry;
    hide GroupsSwept;
    FirstRemoved(t, account, j);
    KnownContact(s, c);
    if c in t.contacts {
      KnownContact(t, c);
      if t.contacts[c].entries != [] {
        var f := Head(t.contacts[c].entries);
        assert f in u.entries;
      }
    }
  }

  /** The contact of the entry removed goes if and only if that was the account's and its last. */
  lemma HisContact(t: Roster, u: Roster, account: int, j: string, h: int)
    requires Inv(t) && FindEntry(t, account, j) != -1 && u == Visited(t, account, j)
    requires Listed(t, j) != [] && h == t.byJid[j][0] && h in t.entries
    ensures var c := t.entries[h].contact;
            c in t.contacts && (c !in u.contacts <==> h == FindEntry(t, account, j) && LostAll(t, u, c))
  {
    hide InvBut;
    hide Visited;
    hide FindEntry;
    hide GroupsSwept;
    FirstRemoved(t, account, j);
    KnownEntry(t, h);
  }

  lemma LostFromBoth(s: Roster, t: Roster, u: Roster, c: int)
    requires Inv(s) && Inv(t) && KeptEntries(s, t) && KeptEntries(t, u) && c in s.contacts && c in t.contacts && t.contacts[c].entries != []
    ensures LostAll(s, u, c) <==> LostAll(t, u, c)
  {
    hide InvBut;
    var f := Head(t.contacts[c].entries);
    SameContact(s, t, c, f);
    forall e ensures e in t.contacts[c].entries <==> e in s.contacts[c].entries && e in t.entries {
      SameContact(s, t, c, e);
    }
  }

  /** When the last entry of a contact is removed, it is the account's if and only if the account has one of the
      contact's entries under the last of their addresses. */
  lemma LastIsOwn(s: Roster, t: Roster, account: int, host: string, done: seq<string>, j: string, h: int, c: int)
    requires Inv(s) && Trimmed(s, t, account, host, done) && AtHost(j, host) && forall i <- done :: NotAfter(i, j)
    requires FindEntry(t, account, j) != -1 && h in t.entries && t.entries[h].jid == j && c == t.entries[h].contact && c in s.contacts
    requires forall f <- s.contacts[c].entries :: f == h || f !in t.entries
    ensures h == FindEntry(t, account, j) <==> OwnLast(s, account, host, c)
  {
    hide InvBut;
    hide FindEntry;
    hide Trimmed;
    TrimmedParts(s, t, account, host, done);
    KnownEntry(s, h);
    KnownContact(s, c);
    OnlyOwn(t, account, j, h);
    forall f | f in s.contacts[c].entries ensures NotAfter(s.entries[f].jid, j) {
      if f == h {
        WordsTotal(j, j);
      } else {
        RemovedVisited(s, t, account, host, done, f);
      }
    }
    if h == FindEntry(t, account, j) {
      assert Targeted(s, account, host, h) && LastAddress(s, c, j);
    }
    if OwnLast(s, account, host, c) {
      var e :| e in s.contacts[c].entries && e in s.entries && Targeted(s, account, host, e) && LastAddress(s, c, s.entries[e].jid);
      WordsTotal(j, s.entries[e].jid);
      assert s.entries[e].jid == j;
      OnlyOwn(s, account, j, e);
      StillFound(s, t, account, host, done, j);
      FoundListed(t, account, j);
    }
  }

  lemma TrimmedParts(s: Roster, t: Roster, account: int, host: string, done: seq<string>)
    requires Trimmed(s, t, account, host, done)
    ensures Inv(t) && KeptEntries(s, t)
  {
  }

  lemma GoneNext(s: Roster, t: Roster, account: int, host: string, done: seq<string>, j: string)
    requires Inv(s) && Trimmed(s, t, account, host, done) && Gone(s, t, account, host) && AtHost(j, host)
    requires forall i <- done :: NotAfter(i, j)
    ensures Gone(s, Visited(t, account, j), account, host)
  {
    hide InvBut;
    hide FindEntry;
    hide Visited;
    hide Trimmed;
    hide OwnLast;
    hide LostAll;
    hide ContactsSwept;
    hide ContactsKept;
    hide GroupsSwept;
    TrimmedParts(s, t, account, host, done);
    var u := Visited(t, account, j);
    if FindEntry(t, account, j) == -1 {
      NoVisit(t, account, j);
    } else {
      FirstRemoved(t, account, j);
      var h := t.byJid[j][0];
      KnownEntry(t, h);
      KnownEntry(s, h);
      forall c | c in s.contacts ensures c !in u.contacts <==> LostAll(s, u, c) && OwnLast(s, account, host, c) {
        if c != t.entries[h].contact {
          OthersStay(s, t, u, account, j, h, c);
        } else {
          HisContact(t, u, account, j, h);
          LostFromBoth(s, t, u, c);
          LostButThis(s, u, c);
          if LostAll(s, u, c) {
            LastIsOwn(s, t, account, host, done, j, h, c);
          }
        }
      }
    }
  }

  lemma LostButThis(s: Roster, u: Roster, c: int)
    requires c in s.contacts
    ensures LostAll(s, u, c) ==> forall f <- s.contacts[c].entries :: f !in u.entries
  {
  }

  // ---- all visits -----------------------------------------------------------------------------------

  predicate Ordered(js: seq<string>) { forall i, k :: 0 <= i < k < |js| ==> NotAfter(js[i], js[k]) }

  lemma {:induction false} VisitsGone(s: Roster, account: int, host: string, js: seq<string>)
    requires Inv(s) && Ordered(js)
    ensures Gone(s, VisitAddresses(s, account, host, js), account, host)
  {
    hide Trimmed;
    hide VisitAddresses;
    hide Visited;
    hide OwnLast;
    hide InvBut;
    if js == [] {
      NoneGone(s, account, host);
    } else {
      var rest, j := js[..|js| - 1], js[|js| - 1];
      assert js == rest + [j];
      VisitsGone(s, account, host, rest);
      VisitsTrim(s, account, host, rest);
      var t := VisitAddresses(s, account, host, rest);
      TrimmedParts(s, t, account, host, rest);
      VisitsNext(s, account, host, rest, j);
      if AtHost(j, host) {
        GoneNext(s, t, account, host, rest, j);
      }
    }
  }

  lemma NoneGone(s: Roster, account: int, host: string)
    requires Inv(s)
    ensures VisitAddresses(s, account, host, []) == s && Gone(s, s, account, host)
  {
    hide InvBut;
    NothingSwept(s);
  }

  lemma {:induction false} KeysOrdered(byJid: map<string, seq<int>>, js: seq<string>)
    requires Ordered(js)
    ensures Ordered(KeyList(byJid, js)) && forall k <- KeyList(byJid, js) :: k in js
  {
    if js != [] {
      var rest, j := js[..|js| - 1], js[|js| - 1];
      KeysOrdered(byJid, rest);
      WordsTotal(j, j);
      var ks := KeyList(byJid, rest);
      forall i | 0 <= i < |ks| ensures NotAfter(ks[i], j) {
        assert ks[i] in rest;
      }
      var more := KeyList(byJid, js)[|ks|..];
      assert KeyList(byJid, js) == ks + more && forall k <- more :: k == j;
      forall i, k | 0 <= i < k < |ks + more| ensures NotAfter((ks + more)[i], (ks + more)[k]) {
        assert (ks + more)[k] == if k < |ks| then ks[k] else more[k - |ks|];
        assert (ks + more)[i] == if i < |ks| then ks[i] else more[i - |ks|];
      }
    }
  }

  /** All entries of the contact are removed with the gateway. */
  predicate Emptied(s: Roster, account: int, host: string, c: int)
    requires c in s.contacts
  {
    s.contacts[c].entries != [] && forall e <- s.contacts[c].entries :: e in s.entries && Reached(s, account, host, e)
  }

  /** A contact goes if and only if all its entries are removed and, of their addresses, the last one is that of
      an entry of the account; if all are removed and the last one is not, the contact stays without entries. */
  lemma RemoveTransportContacts(s: Roster, account: int, host: string, c: int)
    requires Inv(s) && c in s.contacts
    ensures var t := RemoveTransport(s, account, host);
            && (c !in t.contacts <==> Emptied(s, account, host, c) && OwnLast(s, account, host, c))
            && (c in t.contacts && s.contacts[c].entries != [] && t.contacts[c].entries == [] <==>
                  Emptied(s, account, host, c) && !OwnLast(s, account, host, c))
  {
    hide InvBut;
    hide VisitAddresses;
    hide ContactsKept;
    hide ContactsSwept;
    hide GroupsSwept;
    hide OwnLast;
    hide Reached;
    var t := RemoveTransport(s, account, host);
    KeysOrdered(s.byJid, Alphabetic(s.byJid.Keys));
    VisitsGone(s, account, host, KeyList(s.byJid, Alphabetic(s.byJid.Keys)));
    RemoveTransportEffect(s, account, host);
    KnownContact(s, c);
    if c in t.contacts {
      forall e ensures e in t.contacts[c].entries <==> e in s.contacts[c].entries && e in t.entries {
        SameContact(s, t, c, e);
      }
      if t.contacts[c].entries != [] {
        var f := Head(t.contacts[c].entries);
      }
    }
  }
}
