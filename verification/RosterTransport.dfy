/** Removing a gateway's entries: the code finds an entry of the account under each of the gateway's
    addresses, and then removes the one filed there last, whose account may be another. */
module RosterTransport {
  import opened Lists
  import opened RosterModel
  import opened RosterInvariant
  import opened RosterOps
  import opened RosterRuns

  function Listed(s: Roster, j: string): seq<int> { if j in s.byJid then s.byJid[j] else [] }

  /** How many entries are listed under the address up to the account's own, that one included. */
  function Reach(s: Roster, account: int, j: string): (r: nat)
    ensures r <= |Listed(s, j)|
  {
    IndexOf(Listed(s, j), FindEntry(s, account, j)) + 1
  }

  /** A gateway's addresses are its own and those of users at it. */
  lemma AtHostIs(jid: string, host: string)
    ensures AtHost(jid, host) <==> jid == host || exists user :: jid == user + "@" + host
  {
    if AtHost(jid, host) && jid != host {
      assert jid == jid[..|jid| - |host| - 1] + "@" + host;
    }
    if user :| jid == user + "@" + host {
      assert jid[|user|..] == "@" + host;
    }
  }

  /** The others keep all but entries; a contact that is gone lost all it had. */
  ghost predicate ContactsKept(s: Roster, t: Roster) {
    && (forall c <- t.contacts :: c in s.contacts && t.contacts[c] == s.contacts[c].(entries := t.contacts[c].entries))
    && (forall c <- s.contacts :: c !in t.contacts ==> LostAll(s, t, c))
  }

  // ---- one removal ------------------------------------------------------------------------------------

  ghost predicate Removed(s: Roster, t: Roster, e: int)
    requires e in s.entries
  {
    Inv(t) && t.entries == s.entries - {e} && t.byJid == DropIndexed(s.byJid, s.entries[e].jid, e)
    && ContactsKept(s, t) && GroupsSwept(s, t)
  }

  /** The entry's server is told first, if it knows the entry and is connected. */
  function Notified(s: Roster, e: int): Roster
    requires e in s.entries
  {
    var v := s.entries[e];
    if InList(s, v.contact) && v.account in s.active then Send(s, RosterDelete(v.account, v.jid)) else s
  }

  lemma NotifiedFirst(s: Roster, e: int)
    requires e in s.entries
    ensures EntryRemove(s, e, true) == EntryRemove(Notified(s, e), e, false) == DeleteEntry(Notified(s, e), e)
    ensures ClearOut(s, e, e, true) == SweepEntry(Notified(s, e), s.entries[e].account, e)
  {
    hide InList;
    hide DeleteEntry;
    hide DeleteContact;
    hide GroupRemove;
    hide FindGroup;
    var t, c := DeleteEntry(Notified(s, e), e), s.entries[e].contact;
    assert EntryRemove(s, e, true) == t == EntryRemove(Notified(s, e), e, false);
    if c in t.contacts && t.contacts[c].entries == [] {
      assert RemoveEntries(t, [], true) == t == RemoveEntries(t, [], false);
    }
  }

  /** What is removed is the entry itself. */
  lemma OwnRemoved(s: Roster, e: int)
    requires Inv(s) && e in s.entries
    ensures var t := ClearOut(s, e, e, true); Removed(s, t, e) && ContactsSwept(s, t)
  {
    hide InvBut;
    hide ClearOut;
    hide SweepEntry;
    SameGraphInv(s, Notified(s, e));
    SweepEntryEffect(Notified(s, e), s.entries[e].account, e);
    NotifiedFirst(s, e);
  }

  /** What is removed is another entry, so that the contact of this one stays. */
  lemma OtherRemoved(s: Roster, e: int, h: int)
    requires Inv(s) && e in s.entries && h in s.entries && e != h
    ensures Removed(s, ClearOut(s, e, h, true), h) && ClearOut(s, e, h, true).contacts.Keys == s.contacts.Keys
  {
    hide InvBut;
    hide InList;
    hide GroupRemove;
    hide FindGroup;
    var t := EntryRemove(s, h, true);
    EntryGone(s, h);
    KnownEntry(t, e);
    var main := s.entries[e].mainGroup;
    var g := if main == "" then -1 else FindGroup(s.order, s.groups, User, main);
    if g != -1 && g in t.groups && t.groups[g].contacts == [] {
      GroupGone(s, t, g);
    }
  }

  lemma PartsKept(s: Roster, t: Roster)
    requires t.groups == s.groups && t.contacts.Keys == s.contacts.Keys
    requires forall c <- t.contacts :: t.contacts[c] == s.contacts[c].(entries := t.contacts[c].entries)
    ensures ContactsKept(s, t) && GroupsSwept(s, t)
  {
  }

  lemma EntryGone(s: Roster, h: int)
    requires Inv(s) && h in s.entries
    ensures var t := EntryRemove(s, h, true); Removed(s, t, h) && t.contacts.Keys == s.contacts.Keys && t.groups == s.groups && t.order == s.order
  {
    hide InvBut;
    hide InList;
    hide ContactsKept;
    hide GroupsSwept;
    KnownEntry(s, h);
    SameGraphInv(s, Notified(s, h));
    DeleteEntryInv(Notified(s, h), h);
    var t := EntryRemove(s, h, true);
    assert t.contacts.Keys == s.contacts.Keys;
    PartsKept(s, t);
  }

  lemma GroupGone(s: Roster, t: Roster, g: int)
    requires Inv(t) && t.groups == s.groups && t.order == s.order && g in t.groups && t.groups[g].contacts == [] && GroupsSwept(s, t)
    ensures var u := GroupRemove(t, g);
            Inv(u) && u.entries == t.entries && u.byJid == t.byJid && u.contacts == t.contacts && GroupsSwept(s, u)
  {
    hide InvBut;
    KnownGroup(t, g, -1);
    if t.groups[g].kind == User {
      DeleteGroupInv(t, g);
      assert RemoveGroupFromAll(t, [], g) == t;
    }
  }

  // ---- one visit to an address ----------------------------------------------------------------------------

  function Visited(s: Roster, account: int, j: string): Roster {
    var own := FindEntry(s, account, j);
    if own == -1 || Listed(s, j) == [] then s else ClearOut(s, own, s.byJid[j][0], true)
  }

  /** The entry removed is the one listed first, whether it is the account's or not. */
  lemma FirstRemoved(s: Roster, account: int, j: string)
    requires Inv(s) && FindEntry(s, account, j) != -1
    ensures Listed(s, j) != [] && s.byJid[j][0] in s.entries && s.entries[s.byJid[j][0]].jid == j
    ensures var t := Visited(s, account, j);
            && Removed(s, t, s.byJid[j][0])
            && (if s.byJid[j][0] == FindEntry(s, account, j) then ContactsSwept(s, t) else t.contacts.Keys == s.contacts.Keys)
  {
    hide InvBut;
    hide Removed;
    hide ContactsSwept;
    hide ClearOut;
    var own := FindEntry(s, account, j);
    var h := s.byJid[j][0];
    IndexedEntry(s, j, h);
    if h == own {
      OwnRemoved(s, own);
    } else {
      OtherRemoved(s, own, h);
    }
  }

  /** A visit removes one entry or none, though it looks through all. */
  lemma {:induction false} VisitIs(s: Roster, account: int, j: string, k: nat)
    requires Inv(s) && j in s.byJid && k <= |s.byJid[j]|
    ensures var own := FindEntry(s, account, j);
            VisitAddress(s, account, j, s.byJid[j][..k]) == if own in s.byJid[j][..k] then Visited(s, account, j) else s
  {
    hide InvBut;
    hide ClearOut;
    var own, es := FindEntry(s, account, j), s.byJid[j];
    if k > 0 {
      var e := es[k - 1];
      assert es[..k][..k - 1] == es[..k - 1] && es[..k] == es[..k - 1] + [e];
      VisitIs(s, account, j, k - 1);
      IndexedEntry(s, j, e);
      KnownEntry(s, e);
      OnlyOwn(s, account, j, e);
      if own != -1 {
        FirstRemoved(s, account, j);
      }
      if e == own {
        ListedOnce(s, j, k - 1);
      }
    }
  }

  /** While the entries found under an address are looked through, the next one is still there, and if it is
      the account's, so is the address. */
  lemma VisitNext(s: Roster, account: int, j: string, k: nat)
    requires Inv(s) && j in s.byJid && k < |s.byJid[j]|
    ensures var t, e := VisitAddress(s, account, j, s.byJid[j][..k]), s.byJid[j][k];
            && Inv(t) && e in t.entries
            && (t.entries[e].account == account ==> Listed(t, j) != [] && t.byJid[j][0] in t.entries)
            && Inv(VisitAddress(s, account, j, s.byJid[j][..k + 1]))
            && VisitAddress(s, account, j, s.byJid[j][..k + 1]) == if t.entries[e].account == account then ClearOut(t, e, t.byJid[j][0], true) else t
  {
    hide InvBut;
    hide ClearOut;
    var own, es := FindEntry(s, account, j), s.byJid[j];
    var e := es[k];
    assert es[..k + 1][..k] == es[..k];
    VisitIs(s, account, j, k);
    IndexedEntry(s, j, e);
    OnlyOwn(s, account, j, e);
    ListedOnce(s, j, k);
    if own in es[..k] {
      KnownEntry(s, e);
      NotOwn(s, j);
      FirstRemoved(s, account, j);
      assert es[0] in es[..k];
    } else if e == own {
      KnownEntry(s, e);
      FirstRemoved(s, account, j);
    }
  }

  lemma NotOwn(s: Roster, j: string)
    requires Inv(s)
    ensures -1 !in Listed(s, j)
  {
    if -1 in Listed(s, j) {
      IndexedEntry(s, j, -1);
      KnownEntry(s, -1);
    }
  }

  lemma OnlyOwn(s: Roster, account: int, j: string, e: int)
    requires Inv(s) && e in s.entries && s.entries[e].jid == j
    ensures s.entries[e].account == account <==> e == FindEntry(s, account, j)
  {
    FindEntryExact(s, account, j);
  }

  lemma ListedOnce(s: Roster, j: string, k: nat)
    requires Inv(s) && j in s.byJid && k < |s.byJid[j]|
    ensures s.byJid[j][k] !in s.byJid[j][..k] && s.byJid[j][k] !in s.byJid[j][k + 1..]
  {
    var es := s.byJid[j];
    IndexedEntry(s, j, es[k]);
    assert s.entries[es[k]].jid == j;
    assert Mult(es, es[k]) == 1;
    assert es == es[..k] + [es[k]] + es[k + 1..];
  }

  /** After a visit the first entry is gone from the list, if the account has one there, and nothing else is. */
  lemma VisitLists(s: Roster, account: int, j: string, i: string)
    requires Inv(s)
    ensures var t := Visited(s, account, j);
            Listed(t, i) == if i == j && FindEntry(s, account, j) != -1 then Listed(s, i)[1..] else Listed(s, i)
  {
    hide InvBut;
    if FindEntry(s, account, j) != -1 {
      FirstRemoved(s, account, j);
      ListedOnce(s, j, 0);
      WithoutMissing(s.byJid[j][1..], s.byJid[j][0]);
    }
  }

  // ---- all visits -------------------------------------------------------------------------------------------

  /** How many entries are gone from the list of address `j` once the addresses `done` were visited. */
  function Cut(s: Roster, account: int, host: string, done: seq<string>, j: string): (n: nat)
    ensures n <= |Listed(s, j)|
  {
    var visits := multiset(done)[j];
    if !AtHost(j, host) then 0 else if visits <= Reach(s, account, j) then visits else Reach(s, account, j)
  }

  ghost predicate Trimmed(s: Roster, t: Roster, account: int, host: string, done: seq<string>) {
    Inv(t) && KeptEntries(s, t) && ContactsKept(s, t) && GroupsSwept(s, t)
    && forall j :: Listed(t, j) == Listed(s, j)[Cut(s, account, host, done, j)..]
  }

  predicate KeptEntries(s: Roster, t: Roster) { forall e <- t.entries :: e in s.entries && t.entries[e] == s.entries[e] }

  /** The account's entries are the first ones under the gateway's addresses. */
  predicate OwnFirst(s: Roster, account: int, host: string) {
    forall e <- s.entries :: s.entries[e].account == account && AtHost(s.entries[e].jid, host) ==>
      s.entries[e].jid in s.byJid && s.byJid[s.entries[e].jid] != [] && s.byJid[s.entries[e].jid][0] == e
  }

  lemma VisitsNext(s: Roster, account: int, host: string, done: seq<string>, j: string)
    requires Inv(VisitAddresses(s, account, host, done))
    ensures var t := VisitAddresses(s, account, host, done);
            VisitAddresses(s, account, host, done + [j]) == if AtHost(j, host) then Visited(t, account, j) else t
  {
    hide InvBut;
    hide ClearOut;
    var t := VisitAddresses(s, account, host, done);
    assert (done + [j])[..|done|] == done;
    if AtHost(j, host) && j in t.byJid {
      VisitIs(t, account, j, |t.byJid[j]|);
      assert t.byJid[j][..|t.byJid[j]|] == t.byJid[j];
    }
  }

  lemma ReachIs(s: Roster, account: int, j: string)
    requires Inv(s)
    ensures var own := FindEntry(s, account, j);
            if own == -1 then Reach(s, account, j) == 0 else Reach(s, account, j) == IndexOf(Listed(s, j), own) + 1 > 0
  {
    hide InvBut;
    if FindEntry(s, account, j) != -1 {
      FoundListed(s, account, j);
    } else {
      NotOwn(s, j);
    }
  }

  /** The account's entry under an address is still found until the visits have reached it. */
  lemma StillFound(s: Roster, t: Roster, account: int, host: string, done: seq<string>, j: string)
    requires Inv(s) && Trimmed(s, t, account, host, done)
    ensures var own := FindEntry(s, account, j);
            FindEntry(t, account, j) == if Cut(s, account, host, done, j) < Reach(s, account, j) then own else -1
  {
    hide InvBut;
    hide FindEntry;
    hide Reach;
    hide Listed;
    hide KeptEntries;
    hide ContactsKept;
    hide GroupsSwept;
    FoundFrom(s, t, account, j, Cut(s, account, host, done, j));
  }

  lemma FoundFrom(s: Roster, t: Roster, account: int, j: string, cut: nat)
    requires Inv(s) && Inv(t) && KeptEntries(s, t) && cut <= |Listed(s, j)| && Listed(t, j) == Listed(s, j)[cut..]
    ensures FindEntry(t, account, j) == if cut < Reach(s, account, j) then FindEntry(s, account, j) else -1
  {
    hide InvBut;
    hide FindEntry;
    hide Reach;
    var own, es := FindEntry(s, account, j), Listed(s, j);
    ReachIs(s, account, j);
    if cut < Reach(s, account, j) {
      FoundListed(s, account, j);
      assert es[cut..][Reach(s, account, j) - 1 - cut] == own;
      IndexedEntry(t, j, own);
      OnlyOwn(t, account, j, own);
    } else if FindEntry(t, account, j) != -1 {
      NotLater(s, t, account, j, cut);
    }
  }

  /** What is found later was there before. */
  lemma NotLater(s: Roster, t: Roster, account: int, j: string, cut: nat)
    requires Inv(s) && Inv(t) && KeptEntries(s, t) && FindEntry(t, account, j) != -1
    requires cut <= |Listed(s, j)| && Listed(t, j) == Listed(s, j)[cut..]
    ensures cut < Reach(s, account, j)
  {
    hide InvBut;
    var f, es := FindEntry(t, account, j), Listed(s, j);
    FoundListed(t, account, j);
    OnlyOwn(s, account, j, f);
    var k :| 0 <= k < |es| - cut && es[cut..][k] == f;
    ListedOnce(s, j, cut + k);
  }

  lemma FoundListed(s: Roster, account: int, j: string)
    requires Inv(s) && FindEntry(s, account, j) != -1
    ensures var e := FindEntry(s, account, j);
            e in Listed(s, j) && e in s.entries && s.entries[e].jid == j && s.entries[e].account == account
  {
    hide InvBut;
    IndexedEntry(s, j, FindEntry(s, account, j));
  }

  lemma KeptTwice(s: Roster, t: Roster, u: Roster)
    requires Inv(s) && Inv(t) && KeptEntries(s, t) && KeptEntries(t, u)
    requires ContactsKept(s, t) && ContactsKept(t, u) && GroupsSwept(s, t) && GroupsSwept(t, u)
    ensures KeptEntries(s, u) && ContactsKept(s, u) && GroupsSwept(s, u)
  {
    hide InvBut;
    ListsOk(s);
    ListsOk(t);
    GroupsSweptTwice(s, t, u);
    forall c | c in s.contacts && c !in u.contacts ensures LostAll(s, u, c) {
      if c in t.contacts {
        var f := Head(t.contacts[c].entries);
        assert Mult(s.contacts[c].entries, f) == 1;
        forall e | e in s.contacts[c].entries && e in t.entries ensures e in t.contacts[c].entries {
          assert Mult(t.contacts[c].entries, e) == 1;
        }
      }
    }
  }

  lemma FirstIsOwn(s: Roster, t: Roster, account: int, host: string, done: seq<string>, j: string)
    requires Inv(s) && Trimmed(s, t, account, host, done) && OwnFirst(s, account, host) && AtHost(j, host)
    requires FindEntry(t, account, j) != -1 && j in t.byJid && t.byJid[j] != []
    ensures t.byJid[j][0] == FindEntry(t, account, j)
  {
    hide InvBut;
    StillFound(s, t, account, host, done, j);
    FoundListed(s, account, j);
    assert Reach(s, account, j) == 1;
    assert Listed(t, j) == Listed(s, j)[0..];
  }

  lemma NoVisit(s: Roster, account: int, j: string)
    requires FindEntry(s, account, j) == -1
    ensures Visited(s, account, j) == s
  {
  }

  lemma CutNext(s: Roster, t: Roster, account: int, host: string, done: seq<string>, j: string, i: string)
    requires Inv(s) && Trimmed(s, t, account, host, done)
    ensures Listed(if AtHost(j, host) then Visited(t, account, j) else t, i) == Listed(s, i)[Cut(s, account, host, done + [j], i)..]
  {
    hide InvBut;
    hide ContactsKept;
    hide GroupsSwept;
    hide Visited;
    hide FindEntry;
    hide Reach;
    var cut, next := Cut(s, account, host, done, i), Cut(s, account, host, done + [j], i);
    assert multiset(done + [j])[i] == multiset(done)[i] + if i == j then 1 else 0;
    assert Listed(t, i) == Listed(s, i)[cut..];
    StillFound(s, t, account, host, done, j);
    ReachIs(s, account, j);
    VisitLists(t, account, j, i);
    if AtHost(j, host) && i == j && FindEntry(t, account, j) != -1 {
      assert next == cut + 1;
    } else {
      assert next == cut;
    }
  }

  lemma OneMoreVisit(s: Roster, t: Roster, account: int, host: string, done: seq<string>, j: string)
    requires Inv(s) && Trimmed(s, t, account, host, done)
    ensures Trimmed(s, if AtHost(j, host) then Visited(t, account, j) else t, account, host, done + [j])
    ensures OwnFirst(s, account, host) && ContactsSwept(s, t) ==> ContactsSwept(s, if AtHost(j, host) then Visited(t, account, j) else t)
  {
    hide InvBut;
    hide ContactsKept;
    hide ContactsSwept;
    hide GroupsSwept;
    hide Visited;
    hide FindEntry;
    var u := if AtHost(j, host) then Visited(t, account, j) else t;
    StillFound(s, t, account, host, done, j);
    forall i ensures Listed(u, i) == Listed(s, i)[Cut(s, account, host, done + [j], i)..] {
      CutNext(s, t, account, host, done, j, i);
    }
    if AtHost(j, host) {
      if FindEntry(t, account, j) != -1 {
        FirstRemoved(t, account, j);
        KeptTwice(s, t, u);
        if OwnFirst(s, account, host) && ContactsSwept(s, t) {
          FirstIsOwn(s, t, account, host, done, j);
          ListsOk(s);
          ListsOk(t);
          ContactsSweptTwice(s, t, u);
        }
      } else {
        NoVisit(t, account, j);
      }
    }
  }

  lemma {:induction false} VisitsTrim(s: Roster, account: int, host: string, js: seq<string>)
    requires Inv(s)
    ensures var t := VisitAddresses(s, account, host, js);
            Trimmed(s, t, account, host, js) && (OwnFirst(s, account, host) ==> ContactsSwept(s, t))
  {
    hide Trimmed;
    hide ContactsSwept;
    hide OwnFirst;
    if js == [] {
      NothingTrimmed(s, account, host);
    } else {
      var rest, j := js[..|js| - 1], js[|js| - 1];
      assert js == rest + [j];
      VisitsTrim(s, account, host, rest);
      TrimmedInv(s, VisitAddresses(s, account, host, rest), account, host, rest);
      VisitsNext(s, account, host, rest, j);
      OneMoreVisit(s, VisitAddresses(s, account, host, rest), account, host, rest, j);
    }
  }

  lemma TrimmedInv(s: Roster, t: Roster, account: int, host: string, done: seq<string>)
    requires Trimmed(s, t, account, host, done)
    ensures Inv(t)
  {
  }

  lemma NothingTrimmed(s: Roster, account: int, host: string)
    requires Inv(s)
    ensures Trimmed(s, s, account, host, []) && ContactsSwept(s, s)
  {
    hide InvBut;
    NothingSwept(s);
    forall j ensures Listed(s, j) == Listed(s, j)[Cut(s, account, host, [], j)..] {
    }
  }

  // ---- the walk over all addresses --------------------------------------------------------------------------

  lemma {:induction false} Repeated(n: nat, j: string, i: string)
    ensures multiset(seq(n, _ => j))[i] == if i == j then n else 0
  {
    if n > 0 {
      Repeated(n - 1, j, i);
      assert seq(n, _ => j) == seq(n - 1, _ => j) + [j];
    }
  }

  /** Every address is visited as often as there are entries under it. */
  lemma {:induction false} KeysListed(byJid: map<string, seq<int>>, js: seq<string>, i: string)
    requires NoDup(js) && forall j <- js :: j in byJid
    ensures multiset(KeyList(byJid, js))[i] == if i in js then |byJid[i]| else 0
  {
    if js != [] {
      var j := js[|js| - 1];
      KeysListed(byJid, js[..|js| - 1], i);
      Repeated(|byJid[j]|, j, i);
      assert js == js[..|js| - 1] + [j];
    }
  }

  /** The entry is filed no earlier than one of the account under the same address of the gateway. */
  predicate Reached(s: Roster, account: int, host: string, e: int)
    requires e in s.entries
  {
    var j := s.entries[e].jid;
    AtHost(j, host) && IndexOf(Listed(s, j), e) < Reach(s, account, j)
  }

  predicate Targeted(s: Roster, account: int, host: string, e: int)
    requires e in s.entries
  {
    s.entries[e].account == account && AtHost(s.entries[e].jid, host)
  }

  lemma Filed(s: Roster, e: int)
    requires Inv(s) && e in s.entries
    ensures s.entries[e].jid in s.byJid && e in s.byJid[s.entries[e].jid]
  {
    assert Mult(s.byJid[s.entries[e].jid], e) == 1;
  }

  lemma LeftInList(s: Roster, t: Roster, e: int, cut: nat)
    requires Inv(s) && Inv(t) && KeptEntries(s, t) && e in s.entries && cut <= |Listed(s, s.entries[e].jid)|
    requires Listed(t, s.entries[e].jid) == Listed(s, s.entries[e].jid)[cut..]
    ensures e in t.entries <==> IndexOf(Listed(s, s.entries[e].jid), e) >= cut
  {
    hide InvBut;
    var j := s.entries[e].jid;
    var es := Listed(s, j);
    var i := IndexOf(es, e);
    Filed(s, e);
    if e in t.entries {
      Filed(t, e);
      var k :| 0 <= k < |es| - cut && es[cut..][k] == e;
      ListedOnce(s, j, cut + k);
    }
    if i >= cut {
      assert es[cut..][i - cut] == e;
      IndexedEntry(t, j, e);
    }
  }

  /** Exactly the entries listed up to the account's own under an address of the gateway are removed; the
      others stay the same; a contact goes only if it lost all its entries; the graph stays whole. */
  lemma RemoveTransportEffect(s: Roster, account: int, host: string)
    requires Inv(s)
    ensures var t := RemoveTransport(s, account, host);
            && (forall e <- s.entries :: e !in t.entries <==> Reached(s, account, host, e))
            && Inv(t) && KeptEntries(s, t) && ContactsKept(s, t) && GroupsSwept(s, t)
            && (OwnFirst(s, account, host) ==> ContactsSwept(s, t))
  {
    hide InvBut;
    hide VisitAddresses;
    hide ContactsKept;
    hide ContactsSwept;
    hide GroupsSwept;
    var js := Alphabetic(s.byJid.Keys);
    var keys := KeyList(s.byJid, js);
    var t := RemoveTransport(s, account, host);
    VisitsTrim(s, account, host, keys);
    forall e | e in s.entries ensures e !in t.entries <==> Reached(s, account, host, e) {
      var j := s.entries[e].jid;
      KeysListed(s.byJid, js, j);
      Filed(s, e);
      LeftInList(s, t, e, Cut(s, account, host, keys, j));
    }
  }

  /** The contact has entries, and all of them are the account's on the gateway. */
  predicate OnlyTargeted(s: Roster, account: int, host: string, c: int)
    requires c in s.contacts
  {
    s.contacts[c].entries != [] && forall e <- s.contacts[c].entries :: e in s.entries && Targeted(s, account, host, e)
  }

  /** No entry of the account is left on the gateway, and all entries elsewhere are. That no other entry is
      removed holds if and only if the account's entries come first under their addresses; then the contacts
      removed are exactly those that had no other entries. */
  lemma RemoveTransportExact(s: Roster, account: int, host: string)
    requires Inv(s)
    ensures var t := RemoveTransport(s, account, host);
            && (forall e <- s.entries :: Targeted(s, account, host, e) ==> e !in t.entries)
            && (forall e <- s.entries :: !AtHost(s.entries[e].jid, host) ==> e in t.entries && t.entries[e] == s.entries[e])
            && ((forall e <- s.entries :: e !in t.entries <==> Targeted(s, account, host, e)) <==> OwnFirst(s, account, host))
            && (OwnFirst(s, account, host) ==> forall c <- s.contacts :: c !in t.contacts <==> OnlyTargeted(s, account, host, c))
  {
    hide InvBut;
    hide RemoveTransport;
    hide ContactsKept;
    hide GroupsSwept;
    hide Reach;
    RemoveTransportEffect(s, account, host);
    var t := RemoveTransport(s, account, host);
    forall e | e in s.entries
      ensures Targeted(s, account, host, e) ==> Reached(s, account, host, e)
      ensures OwnFirst(s, account, host) && Reached(s, account, host, e) ==> Targeted(s, account, host, e)
    {
      ReachedOwn(s, account, host, e);
    }
    if forall e <- s.entries :: e !in t.entries <==> Targeted(s, account, host, e) {
      forall e | e in s.entries && Targeted(s, account, host, e)
        ensures s.entries[e].jid in s.byJid && s.byJid[s.entries[e].jid] != [] && s.byJid[s.entries[e].jid][0] == e
      {
        FirstReached(s, account, host, e);
      }
    }
    if OwnFirst(s, account, host) {
      forall c | c in s.contacts ensures c !in t.contacts <==> OnlyTargeted(s, account, host, c) {
        KnownContact(s, c);
      }
    }
  }

  lemma ReachedOwn(s: Roster, account: int, host: string, e: int)
    requires Inv(s) && e in s.entries
    ensures Targeted(s, account, host, e) ==> Reached(s, account, host, e)
    ensures OwnFirst(s, account, host) && Reached(s, account, host, e) ==> Targeted(s, account, host, e)
  {
    hide InvBut;
    var j := s.entries[e].jid;
    OnlyOwn(s, account, j, e);
    ReachIs(s, account, j);
    Filed(s, e);
    KnownEntry(s, e);
    if OwnFirst(s, account, host) && Reached(s, account, host, e) {
      FoundListed(s, account, j);
    }
  }

  /** The entry listed first before one of the account is removed with it. */
  lemma FirstReached(s: Roster, account: int, host: string, e: int)
    requires Inv(s) && e in s.entries && Targeted(s, account, host, e)
    ensures var j := s.entries[e].jid;
            && j in s.byJid && s.byJid[j] != [] && s.byJid[j][0] in s.entries && Reached(s, account, host, s.byJid[j][0])
            && (Targeted(s, account, host, s.byJid[j][0]) ==> s.byJid[j][0] == e)
  {
    hide InvBut;
    var j := s.entries[e].jid;
    Filed(s, e);
    var h := s.byJid[j][0];
    IndexedEntry(s, j, h);
    OnlyOwn(s, account, j, e);
    OnlyOwn(s, account, j, h);
    KnownEntry(s, e);
    ReachIs(s, account, j);
  }
}
