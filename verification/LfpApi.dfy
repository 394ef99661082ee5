/** The roster part of the bridge object, with its groups, contacts and entries as objects that
    point at each other. Every method is proved to do to the view of these objects what
    RosterModel says. */
module LfpApi {
  import opened Lists
  import M = RosterModel
  import I = RosterInvariant
  import Mirror = RosterMirror
  import O = RosterOps
  import R = RosterRuns
  import T = RosterTransport

  class Group {
    const id: int
    var kind: M.GroupKind
    var name: string
    var contacts: seq<Contact>

    constructor (id: int, kind: M.GroupKind, name: string)
      ensures this.id == id && this.kind == kind && this.name == name && contacts == []
    {
      this.id, this.kind, this.name, contacts := id, kind, name, [];
    }
  }

  class Contact {
    const id: int
    var name: string
    var alt: string
    var tag: string
    var groups: seq<Group>
    var entries: seq<ContactEntry>

    constructor (id: int, name: string, group: Group)
      ensures this.id == id && this.name == name && alt == "" && tag == "" && groups == [group] && entries == []
    {
      this.id, this.name, alt, tag, groups, entries := id, name, "", "", [group], [];
    }

    predicate InList()
      reads this, groups
    {
      groups != [] && groups[0].kind != M.NotInList
    }
  }

  class ContactEntry {
    const id: int
    const account: int
    const jid: string
    var name: string
    var sub: string
    var ask: bool
    var groups: seq<string>
    var mainGroup: string
    var contact: Contact

    constructor (id: int, v: M.Entry, contact: Contact)
      ensures this.id == id && account == v.account && jid == v.jid && name == v.name && sub == v.sub && ask == v.ask
      ensures groups == v.groups && mainGroup == v.mainGroup && this.contact == contact
    {
      this.id, account, jid, name, sub, ask := id, v.account, v.jid, v.name, v.sub, v.ask;
      groups, mainGroup, this.contact := v.groups, v.mainGroup, contact;
    }
  }

  function GroupId(g: Group): int { g.id }
  function ContactId(c: Contact): int { c.id }
  function EntryId(e: ContactEntry): int { e.id }

  function GroupIds(gs: seq<Group>): seq<int> { Each(GroupId, gs) }
  function ContactIds(cs: seq<Contact>): seq<int> { Each(ContactId, cs) }
  function EntryIds(es: seq<ContactEntry>): seq<int> { Each(EntryId, es) }

  ghost function GroupOf(g: Group): M.Group
    reads g
  {
    M.Group(g.kind, g.name, ContactIds(g.contacts))
  }

  ghost function ContactOf(c: Contact): M.Contact
    reads c
  {
    M.Contact(c.name, c.alt, c.tag, GroupIds(c.groups), EntryIds(c.entries))
  }

  ghost function EntryOf(e: ContactEntry): M.Entry
    reads e
  {
    M.Entry(e.account, e.jid, e.name, e.sub, e.ask, e.groups, e.mainGroup, e.contact.id)
  }

  class LfpApi {
    var groups: seq<Group>
    var groupsByID: map<int, Group>
    var contactsByID: map<int, Contact>
    var contactsByMetacontactTag: map<string, Contact>
    var entriesByID: map<int, ContactEntry>
    var entriesByBareJID: map<string, seq<ContactEntry>>
    var idGroup: int
    var idContact: int
    var idEntry: int
    var active: set<int>
    var notes: seq<M.Note>
    var sent: seq<M.Stanza>

    ghost function Objects(): set<object>
      reads this`groupsByID, this`contactsByID, this`entriesByID
    {
      (set i <- groupsByID :: groupsByID[i]) + (set i <- contactsByID :: contactsByID[i]) + (set i <- entriesByID :: entriesByID[i])
    }

    predicate KnownG(g: Group) reads this`groupsByID { g.id in groupsByID && groupsByID[g.id] == g }
    predicate KnownC(c: Contact) reads this`contactsByID { c.id in contactsByID && contactsByID[c.id] == c }
    predicate KnownE(e: ContactEntry) reads this`entriesByID { e.id in entriesByID && entriesByID[e.id] == e }

    ghost predicate GroupsWf()
      reads this`groups, this`groupsByID, this`contactsByID, this`idGroup, groupsByID.Values
    {
      && 0 <= idGroup
      && (forall i <- groupsByID :: 0 <= i < idGroup && groupsByID[i].id == i)
      && (forall g <- groups :: KnownG(g))
      && (forall i <- groupsByID :: forall c <- groupsByID[i].contacts :: KnownC(c))
    }

    ghost predicate ContactsWf()
      reads this`groupsByID, this`contactsByID, this`entriesByID, this`contactsByMetacontactTag, this`idContact, contactsByID.Values
    {
      && 0 <= idContact
      && (forall i <- contactsByID :: 0 <= i < idContact && contactsByID[i].id == i)
      && (forall i <- contactsByID :: forall g <- contactsByID[i].groups :: KnownG(g))
      && (forall i <- contactsByID :: forall e <- contactsByID[i].entries :: KnownE(e))
      && (forall t <- contactsByMetacontactTag :: KnownC(contactsByMetacontactTag[t]))
    }

    ghost predicate EntriesWf()
      reads this`contactsByID, this`entriesByID, this`entriesByBareJID, this`idEntry, entriesByID.Values
    {
      && 0 <= idEntry
      && (forall i <- entriesByID :: 0 <= i < idEntry && entriesByID[i].id == i)
      && (forall i <- entriesByID :: KnownC(entriesByID[i].contact))
      && (forall j <- entriesByBareJID :: forall e <- entriesByBareJID[j] :: KnownE(e))
    }

    /** Objects are filed under their own identifiers, and refer to filed objects only. */
    ghost predicate Wf()
      reads this`groups, this`groupsByID, this`contactsByID, this`entriesByID, this`contactsByMetacontactTag, this`entriesByBareJID,
            this`idGroup, this`idContact, this`idEntry, groupsByID.Values, contactsByID.Values, entriesByID.Values
    {
      GroupsWf() && ContactsWf() && EntriesWf()
    }

    ghost function GroupsView(): map<int, M.Group>
      reads this`groupsByID, groupsByID.Values
    {
      map i <- groupsByID :: GroupOf(groupsByID[i])
    }

    ghost function ContactsView(): map<int, M.Contact>
      reads this`contactsByID, contactsByID.Values
    {
      map i <- contactsByID :: ContactOf(contactsByID[i])
    }

    ghost function EntriesView(): map<int, M.Entry>
      reads this`entriesByID, entriesByID.Values
    {
      map i <- entriesByID :: EntryOf(entriesByID[i])
    }

    ghost function TagsView(): map<string, int>
      reads this`contactsByMetacontactTag
    {
      map t <- contactsByMetacontactTag :: contactsByMetacontactTag[t].id
    }

    ghost function JidsView(): map<string, seq<int>>
      reads this`entriesByBareJID
    {
      map j <- entriesByBareJID :: EntryIds(entriesByBareJID[j])
    }

    /** The roster these objects stand for. */
    ghost function View(): M.Roster
      reads this, groupsByID.Values, contactsByID.Values, entriesByID.Values
    {
      M.Roster(GroupIds(groups), GroupsView(), ContactsView(), EntriesView(), TagsView(), JidsView(),
               idGroup, idContact, idEntry, active, notes, sent)
    }

    // ---- writing to one object --------------------------------------------------------------

    /** Groups that no one wrote to look as before. */
    twostate lemma GroupsSame(written: object)
      requires unchanged(this) && unchanged(old(Objects()) - {written}) && forall i <- groupsByID :: groupsByID[i] != written
      ensures GroupsView() == old(GroupsView()) && (old(GroupsWf()) ==> GroupsWf())
    {
      forall i | i in groupsByID ensures GroupOf(groupsByID[i]) == old(GroupOf(groupsByID[i])) && unchanged(groupsByID[i]) {
        assert groupsByID[i] in old(Objects()) - {written};
      }
    }

    /** Contacts that no one wrote to look as before. */
    twostate lemma ContactsSame(written: object)
      requires unchanged(this) && unchanged(old(Objects()) - {written}) && forall i <- contactsByID :: contactsByID[i] != written
      ensures ContactsView() == old(ContactsView()) && (old(ContactsWf()) ==> ContactsWf())
    {
      forall i | i in contactsByID ensures ContactOf(contactsByID[i]) == old(ContactOf(contactsByID[i])) && unchanged(contactsByID[i]) {
        assert contactsByID[i] in old(Objects()) - {written};
      }
    }

    /** Entries that no one wrote to look as before. */
    twostate lemma EntriesSame(written: object)
      requires unchanged(this) && unchanged(old(Objects()) - {written}) && forall i <- entriesByID :: entriesByID[i] != written
      ensures EntriesView() == old(EntriesView()) && (old(EntriesWf()) ==> EntriesWf())
    {
      forall i | i in entriesByID ensures EntryOf(entriesByID[i]) == old(EntryOf(entriesByID[i])) && unchanged(entriesByID[i]) {
        assert entriesByID[i] in old(Objects()) - {written};
      }
    }

    twostate lemma GroupWritten(g: Group)
      requires old(Wf()) && old(KnownG(g)) && unchanged(this) && unchanged(old(Objects()) - {g})
      requires forall c <- g.contacts :: KnownC(c)
      ensures Wf() && View() == M.SetGroup(old(View()), g.id, GroupOf(g))
    {
      ContactsSame(g);
      EntriesSame(g);
      forall i | i in groupsByID && i != g.id ensures GroupOf(groupsByID[i]) == old(GroupOf(groupsByID[i])) && unchanged(groupsByID[i]) {
        assert groupsByID[i] in old(Objects()) - {g};
      }
      assert GroupsView() == old(GroupsView())[g.id := GroupOf(g)];
    }

    twostate lemma ContactWritten(c: Contact)
      requires old(Wf()) && old(KnownC(c)) && unchanged(this) && unchanged(old(Objects()) - {c})
      requires (forall g <- c.groups :: KnownG(g)) && (forall e <- c.entries :: KnownE(e))
      ensures Wf() && View() == M.SetContact(old(View()), c.id, ContactOf(c))
    {
      GroupsSame(c);
      EntriesSame(c);
      forall i | i in contactsByID && i != c.id ensures ContactOf(contactsByID[i]) == old(ContactOf(contactsByID[i])) && unchanged(contactsByID[i]) {
        assert contactsByID[i] in old(Objects()) - {c};
      }
      assert ContactsView() == old(ContactsView())[c.id := ContactOf(c)];
    }

    twostate lemma EntryWritten(e: ContactEntry)
      requires old(Wf()) && old(KnownE(e)) && unchanged(this) && unchanged(old(Objects()) - {e})
      requires KnownC(e.contact)
      ensures Wf() && View() == M.SetEntry(old(View()), e.id, EntryOf(e))
    {
      GroupsSame(e);
      ContactsSame(e);
      forall i | i in entriesByID && i != e.id ensures EntryOf(entriesByID[i]) == old(EntryOf(entriesByID[i])) && unchanged(entriesByID[i]) {
        assert entriesByID[i] in old(Objects()) - {e};
      }
      assert EntriesView() == old(EntriesView())[e.id := EntryOf(e)];
    }

    // ---- filing and unfiling --------------------------------------------------------------------

    twostate lemma GroupsGrown(new g: Group)
      requires unchanged(old(Objects())) && groupsByID == old(groupsByID)[g.id := g] && g.id !in old(groupsByID)
      ensures GroupsView() == old(GroupsView())[g.id := GroupOf(g)]
    {
      var now, want := GroupsView(), old(GroupsView())[g.id := GroupOf(g)];
      forall i | i in now ensures i in want && now[i] == want[i] {
        if i != g.id {
          assert i in old(groupsByID) && groupsByID[i] == old(groupsByID)[i];
          assert groupsByID[i] in old(Objects());
        }
      }
      forall i | i in want ensures i in now {
        assert i in groupsByID;
      }
    }

    twostate lemma GroupsShrunk(k: int)
      requires unchanged(old(Objects())) && groupsByID == old(groupsByID) - {k}
      ensures GroupsView() == old(GroupsView()) - {k}
    {
      var now, want := GroupsView(), old(GroupsView()) - {k};
      forall i | i in now ensures i in want && now[i] == want[i] {
        assert i in old(groupsByID) && groupsByID[i] == old(groupsByID)[i];
        assert groupsByID[i] in old(Objects());
      }
      forall i | i in want ensures i in now {
        assert i in groupsByID;
      }
    }

    twostate lemma ContactsGrown(new c: Contact)
      requires unchanged(old(Objects())) && contactsByID == old(contactsByID)[c.id := c] && c.id !in old(contactsByID)
      ensures ContactsView() == old(ContactsView())[c.id := ContactOf(c)]
    {
      var now, want := ContactsView(), old(ContactsView())[c.id := ContactOf(c)];
      forall i | i in now ensures i in want && now[i] == want[i] {
        if i != c.id {
          assert i in old(contactsByID) && contactsByID[i] == old(contactsByID)[i];
          assert contactsByID[i] in old(Objects());
        }
      }
      forall i | i in want ensures i in now {
        assert i in contactsByID;
      }
    }

    twostate lemma ContactsShrunk(k: int)
      requires unchanged(old(Objects())) && contactsByID == old(contactsByID) - {k}
      ensures ContactsView() == old(ContactsView()) - {k}
    {
      var now, want := ContactsView(), old(ContactsView()) - {k};
      forall i | i in now ensures i in want && now[i] == want[i] {
        assert i in old(contactsByID) && contactsByID[i] == old(contactsByID)[i];
        assert contactsByID[i] in old(Objects());
      }
      forall i | i in want ensures i in now {
        assert i in contactsByID;
      }
    }

    twostate lemma EntriesGrown(new e: ContactEntry)
      requires unchanged(old(Objects())) && entriesByID == old(entriesByID)[e.id := e] && e.id !in old(entriesByID)
      ensures EntriesView() == old(EntriesView())[e.id := EntryOf(e)]
    {
      var now, want := EntriesView(), old(EntriesView())[e.id := EntryOf(e)];
      forall i | i in now ensures i in want && now[i] == want[i] {
        if i != e.id {
          assert i in old(entriesByID) && entriesByID[i] == old(entriesByID)[i];
          assert entriesByID[i] in old(Objects());
        }
      }
      forall i | i in want ensures i in now {
        assert i in entriesByID;
      }
    }

    twostate lemma EntriesShrunk(k: int)
      requires unchanged(old(Objects())) && entriesByID == old(entriesByID) - {k}
      ensures EntriesView() == old(EntriesView()) - {k}
    {
      var now, want := EntriesView(), old(EntriesView()) - {k};
      forall i | i in now ensures i in want && now[i] == want[i] {
        assert i in old(entriesByID) && entriesByID[i] == old(entriesByID)[i];
        assert entriesByID[i] in old(Objects());
      }
      forall i | i in want ensures i in now {
        assert i in entriesByID;
      }
    }

    twostate lemma JidsGrown(new e: ContactEntry)
      requires var was := if e.jid in old(entriesByBareJID) then old(entriesByBareJID)[e.jid] else [];
               entriesByBareJID == old(entriesByBareJID)[e.jid := [e] + was]
      ensures var v := old(JidsView());
              JidsView() == v[e.jid := [e.id] + if e.jid in v then v[e.jid] else []]
    {
      var was := if e.jid in old(entriesByBareJID) then old(entriesByBareJID)[e.jid] else [];
      assert EntryIds([e] + was) == [e.id] + EntryIds(was);
    }

    twostate lemma JidsShrunk(e: ContactEntry)
      requires entriesByBareJID == DropFiled(old(entriesByBareJID), e)
      requires e.jid in old(entriesByBareJID) ==> forall f <- old(entriesByBareJID)[e.jid] :: f.id == e.id ==> f == e
      ensures JidsView() == M.DropIndexed(old(JidsView()), e.jid, e.id)
    {
      if e.jid in old(entriesByBareJID) {
        EachWithout(EntryId, old(entriesByBareJID)[e.jid], e);
      }
    }

    /** Groups stay well-formed when all contacts they list stay filed. */
    twostate lemma GroupsStillWf(gone: set<Contact>)
      requires old(GroupsWf()) && unchanged(old(Objects())) && unchanged(`groups) && unchanged(`groupsByID) && unchanged(`idGroup)
      requires forall i <- old(contactsByID) :: (i in contactsByID && contactsByID[i] == old(contactsByID)[i]) || old(contactsByID)[i] in gone
      requires forall i <- groupsByID :: forall c <- groupsByID[i].contacts :: c !in gone
      ensures GroupsWf()
    {
      GroupsKept();
    }

    twostate lemma ContactsStillWf(gone: set<Group>)
      requires old(ContactsWf()) && unchanged(old(Objects())) && unchanged(`entriesByID)
      requires unchanged(`contactsByID) && unchanged(`contactsByMetacontactTag) && unchanged(`idContact)
      requires forall i <- old(groupsByID) :: (i in groupsByID && groupsByID[i] == old(groupsByID)[i]) || old(groupsByID)[i] in gone
      requires forall i <- contactsByID :: forall g <- contactsByID[i].groups :: g !in gone
      ensures ContactsWf()
    {
      ContactsKept();
    }

    twostate lemma ContactsStillWfToo(lost: set<ContactEntry>)
      requires old(ContactsWf()) && unchanged(old(Objects())) && unchanged(`groupsByID)
      requires unchanged(`contactsByID) && unchanged(`contactsByMetacontactTag) && unchanged(`idContact)
      requires forall i <- old(entriesByID) :: (i in entriesByID && entriesByID[i] == old(entriesByID)[i]) || old(entriesByID)[i] in lost
      requires forall i <- contactsByID :: forall e <- contactsByID[i].entries :: e !in lost
      ensures ContactsWf()
    {
      ContactsKept();
    }

    twostate lemma EntriesStillWf(gone: set<Contact>)
      requires old(EntriesWf()) && unchanged(old(Objects())) && unchanged(`entriesByID) && unchanged(`entriesByBareJID) && unchanged(`idEntry)
      requires forall i <- old(contactsByID) :: (i in contactsByID && contactsByID[i] == old(contactsByID)[i]) || old(contactsByID)[i] in gone
      requires forall i <- entriesByID :: entriesByID[i].contact !in gone
      ensures EntriesWf()
    {
      EntriesKept();
    }

    twostate lemma ContactsWfGrown(new c: Contact)
      requires old(ContactsWf()) && unchanged(old(Objects())) && c.id == old(idContact) && idContact == old(idContact) + 1
      requires c.entries == [] && (forall g <- c.groups :: KnownG(g)) && contactsByID == old(contactsByID)[c.id := c]
      requires unchanged(`groupsByID) && unchanged(`entriesByID) && unchanged(`contactsByMetacontactTag)
      ensures ContactsWf() && KnownC(c) && c.id !in old(contactsByID)
    {
      ContactsKept();
      OldContactsFine(c);
    }

    twostate lemma OldContactsFine(new c: Contact)
      requires old(ContactsWf()) && unchanged(old(Objects())) && c.id == old(idContact) && contactsByID == old(contactsByID)[c.id := c]
      requires unchanged(`groupsByID) && unchanged(`entriesByID)
      ensures forall i <- old(contactsByID) :: i != c.id && contactsByID[i].id == i && (forall g <- contactsByID[i].groups :: KnownG(g))
                                               && forall e <- contactsByID[i].entries :: KnownE(e)
    {
      forall i | i in old(contactsByID) ensures contactsByID[i] in old(Objects()) {
      }
    }

    twostate lemma ContactsWfShrunk(c: Contact)
      requires old(ContactsWf()) && unchanged(old(Objects())) && unchanged(`idContact) && contactsByID == old(contactsByID) - {c.id}
      requires unchanged(`groupsByID) && unchanged(`entriesByID) && old(KnownC(c))
      requires contactsByMetacontactTag == if c.tag == "" then old(contactsByMetacontactTag) else old(contactsByMetacontactTag) - {c.tag}
      requires forall t <- contactsByMetacontactTag :: contactsByMetacontactTag[t] != c
      ensures ContactsWf()
    {
      ContactsKept();
    }

    twostate lemma EntriesWfGrown(new e: ContactEntry)
      requires old(EntriesWf()) && unchanged(old(Objects())) && e.id == old(idEntry) && idEntry == old(idEntry) + 1 && KnownC(e.contact)
      requires entriesByID == old(entriesByID)[e.id := e] && unchanged(`contactsByID)
      requires var was := if e.jid in old(entriesByBareJID) then old(entriesByBareJID)[e.jid] else [];
               entriesByBareJID == old(entriesByBareJID)[e.jid := [e] + was]
      ensures EntriesWf() && KnownE(e) && e.id !in old(entriesByID)
    {
      EntriesKept();
    }

    twostate lemma EntriesWfShrunk(e: ContactEntry)
      requires old(EntriesWf()) && unchanged(old(Objects())) && unchanged(`contactsByID) && unchanged(`idEntry) && old(KnownE(e))
      requires entriesByID == old(entriesByID) - {e.id} && entriesByBareJID == DropFiled(old(entriesByBareJID), e)
      requires forall j <- old(entriesByBareJID) :: j != e.jid ==> e !in old(entriesByBareJID)[j]
      ensures EntriesWf()
      ensures e.jid in old(entriesByBareJID) ==> forall f <- old(entriesByBareJID)[e.jid] :: f.id == e.id ==> f == e
    {
      EntriesKept();
      forall j | j in entriesByBareJID ensures forall f <- entriesByBareJID[j] :: KnownE(f) {
        assert j != e.jid ==> entriesByBareJID[j] == old(entriesByBareJID)[j];
        assert forall f <- entriesByBareJID[j] :: f in old(entriesByBareJID)[j] && f != e;
      }
    }

    twostate lemma GroupFiledWf(new g: Group, pos: int)
      requires old(Wf()) && unchanged(old(Objects())) && g.id == old(idGroup) && idGroup == old(idGroup) + 1 && g.contacts == []
      requires groups == Place(old(groups), pos, g) && groupsByID == old(groupsByID)[g.id := g]
      requires unchanged(`contactsByID) && unchanged(`entriesByID) && unchanged(`contactsByMetacontactTag) && unchanged(`entriesByBareJID)
      requires unchanged(`idContact) && unchanged(`idEntry) && unchanged(`active) && unchanged(`notes) && unchanged(`sent)
      ensures Wf() && KnownG(g)
      ensures g.id !in old(groupsByID)
    {
      ContactsStillWf({});
      EntriesStillWf({});
      assert GroupsWf() by {
        hide ContactsWf;
        hide EntriesWf;
        GroupsKept();
      }
    }

    twostate lemma GroupFiled(new g: Group, pos: int)
      requires old(Wf()) && unchanged(old(Objects())) && g.id == old(idGroup) && idGroup == old(idGroup) + 1 && g.contacts == []
      requires groups == Place(old(groups), pos, g) && groupsByID == old(groupsByID)[g.id := g]
      requires unchanged(`contactsByID) && unchanged(`entriesByID) && unchanged(`contactsByMetacontactTag) && unchanged(`entriesByBareJID)
      requires unchanged(`idContact) && unchanged(`idEntry) && unchanged(`active) && unchanged(`notes) && unchanged(`sent)
      ensures Wf() && KnownG(g)
      ensures var v := old(View());
              View() == v.(order := Place(v.order, pos, g.id), groups := v.groups[g.id := GroupOf(g)], nextGroup := g.id + 1)
    {
      hide GroupsWf;
      hide ContactsWf;
      hide EntriesWf;
      GroupFiledWf(g, pos);
      hide GroupsView;
      hide ContactsView;
      hide EntriesView;
      assert ContactsView() == old(ContactsView()) by { ContactsKept(); }
      assert EntriesView() == old(EntriesView()) by { EntriesKept(); }
      EachPlace(GroupId, old(groups), pos, g);
      GroupsGrown(g);
    }

    twostate lemma ContactFiledWf(new c: Contact)
      requires old(Wf()) && unchanged(old(Objects())) && c.id == old(idContact) && idContact == old(idContact) + 1
      requires c.entries == [] && forall g <- c.groups :: KnownG(g)
      requires contactsByID == old(contactsByID)[c.id := c]
      requires unchanged(`groups) && unchanged(`groupsByID) && unchanged(`entriesByID) && unchanged(`contactsByMetacontactTag)
      requires unchanged(`entriesByBareJID)
      requires unchanged(`idGroup) && unchanged(`idEntry) && unchanged(`active) && unchanged(`notes) && unchanged(`sent)
      ensures Wf() && KnownC(c)
      ensures c.id !in old(contactsByID)
    {
      hide GroupsWf;
      hide ContactsWf;
      hide EntriesWf;
      ContactsWfGrown(c);
      GroupsStillWf({});
      EntriesStillWf({});
    }

    twostate lemma ContactFiled(new c: Contact)
      requires old(Wf()) && unchanged(old(Objects())) && c.id == old(idContact) && idContact == old(idContact) + 1
      requires c.entries == [] && forall g <- c.groups :: KnownG(g)
      requires contactsByID == old(contactsByID)[c.id := c]
      requires unchanged(`groups) && unchanged(`groupsByID) && unchanged(`entriesByID) && unchanged(`contactsByMetacontactTag)
      requires unchanged(`entriesByBareJID)
      requires unchanged(`idGroup) && unchanged(`idEntry) && unchanged(`active) && unchanged(`notes) && unchanged(`sent)
      ensures Wf() && KnownC(c)
      ensures View() == M.SetContact(old(View()), c.id, ContactOf(c)).(nextContact := c.id + 1)
    {
      hide GroupsWf;
      hide ContactsWf;
      hide EntriesWf;
      ContactFiledWf(c);
      hide GroupsView;
      hide ContactsView;
      hide EntriesView;
      assert GroupsView() == old(GroupsView()) by { GroupsKept(); }
      assert EntriesView() == old(EntriesView()) by { EntriesKept(); }
      ContactsGrown(c);
    }

    twostate lemma EntryFiledWf(new e: ContactEntry)
      requires old(Wf()) && unchanged(old(Objects())) && e.id == old(idEntry) && idEntry == old(idEntry) + 1 && KnownC(e.contact)
      requires entriesByID == old(entriesByID)[e.id := e]
      requires var was := if e.jid in old(entriesByBareJID) then old(entriesByBareJID)[e.jid] else [];
               entriesByBareJID == old(entriesByBareJID)[e.jid := [e] + was]
      requires unchanged(`groups) && unchanged(`groupsByID) && unchanged(`contactsByID) && unchanged(`contactsByMetacontactTag)
      requires unchanged(`idGroup) && unchanged(`idContact) && unchanged(`active) && unchanged(`notes) && unchanged(`sent)
      ensures Wf() && KnownE(e)
      ensures e.id !in old(entriesByID)
    {
      hide GroupsWf;
      hide ContactsWf;
      hide EntriesWf;
      EntriesWfGrown(e);
      GroupsStillWf({});
      ContactsStillWfToo({});
    }

    twostate lemma EntryFiled(new e: ContactEntry)
      requires old(Wf()) && unchanged(old(Objects())) && e.id == old(idEntry) && idEntry == old(idEntry) + 1 && KnownC(e.contact)
      requires entriesByID == old(entriesByID)[e.id := e]
      requires var was := if e.jid in old(entriesByBareJID) then old(entriesByBareJID)[e.jid] else [];
               entriesByBareJID == old(entriesByBareJID)[e.jid := [e] + was]
      requires unchanged(`groups) && unchanged(`groupsByID) && unchanged(`contactsByID) && unchanged(`contactsByMetacontactTag)
      requires unchanged(`idGroup) && unchanged(`idContact) && unchanged(`active) && unchanged(`notes) && unchanged(`sent)
      ensures Wf() && KnownE(e)
      ensures var v := old(View());
              var was := if e.jid in v.byJid then v.byJid[e.jid] else [];
              View() == M.SetEntry(v, e.id, EntryOf(e)).(byJid := v.byJid[e.jid := [e.id] + was], nextEntry := e.id + 1)
    {
      hide GroupsWf;
      hide ContactsWf;
      hide EntriesWf;
      EntryFiledWf(e);
      hide GroupsView;
      hide ContactsView;
      hide EntriesView;
      assert GroupsView() == old(GroupsView()) by { GroupsKept(); }
      assert ContactsView() == old(ContactsView()) by { ContactsKept(); }
      EntriesGrown(e);
      JidsGrown(e);
    }

    twostate lemma GroupUnfiledWf(g: Group)
      requires old(Wf()) && unchanged(old(Objects())) && old(KnownG(g))
      requires groups == Without(old(groups), g) && groupsByID == old(groupsByID) - {g.id}
      requires unchanged(`contactsByID) && unchanged(`entriesByID) && unchanged(`contactsByMetacontactTag) && unchanged(`entriesByBareJID)
      requires unchanged(`idGroup) && unchanged(`idContact) && unchanged(`idEntry) && unchanged(`active) && unchanged(`notes) && unchanged(`sent)
      requires forall i <- contactsByID :: g !in contactsByID[i].groups
      ensures Wf()
      ensures forall h <- old(groups) :: h.id == g.id ==> h == g
    {
      ContactsStillWf({g});
      EntriesStillWf({});
      assert GroupsWf() by {
        hide ContactsWf;
        hide EntriesWf;
        GroupsKept();
      }
    }

    twostate lemma GroupUnfiled(g: Group)
      requires old(Wf()) && unchanged(old(Objects())) && old(KnownG(g))
      requires groups == Without(old(groups), g) && groupsByID == old(groupsByID) - {g.id}
      requires unchanged(`contactsByID) && unchanged(`entriesByID) && unchanged(`contactsByMetacontactTag) && unchanged(`entriesByBareJID)
      requires unchanged(`idGroup) && unchanged(`idContact) && unchanged(`idEntry) && unchanged(`active) && unchanged(`notes) && unchanged(`sent)
      requires forall i <- contactsByID :: g !in contactsByID[i].groups
      ensures Wf()
      ensures View() == old(View()).(order := Without(old(View()).order, g.id), groups := old(View()).groups - {g.id})
    {
      hide GroupsWf;
      hide ContactsWf;
      hide EntriesWf;
      GroupUnfiledWf(g);
      hide GroupsView;
      hide ContactsView;
      hide EntriesView;
      assert EntriesView() == old(EntriesView()) by { EntriesKept(); }
      assert ContactsView() == old(ContactsView()) by { ContactsKept(); }
      EachWithout(GroupId, old(groups), g);
      GroupsShrunk(g.id);
    }

    twostate lemma ContactUnfiledWf(c: Contact)
      requires old(Wf()) && unchanged(old(Objects())) && old(KnownC(c))
      requires contactsByID == old(contactsByID) - {c.id}
      requires contactsByMetacontactTag == if c.tag == "" then old(contactsByMetacontactTag) else old(contactsByMetacontactTag) - {c.tag}
      requires unchanged(`groups) && unchanged(`groupsByID) && unchanged(`entriesByID) && unchanged(`entriesByBareJID)
      requires unchanged(`idGroup) && unchanged(`idContact) && unchanged(`idEntry) && unchanged(`active) && unchanged(`notes) && unchanged(`sent)
      requires (forall i <- groupsByID :: c !in groupsByID[i].contacts) && (forall i <- entriesByID :: entriesByID[i].contact != c)
      requires forall t <- contactsByMetacontactTag :: contactsByMetacontactTag[t] != c
      ensures Wf()
    {
      hide GroupsWf;
      hide ContactsWf;
      hide EntriesWf;
      GroupsStillWf({c});
      EntriesStillWf({c});
      ContactsWfShrunk(c);
    }

    twostate lemma ContactUnfiled(c: Contact)
      requires old(Wf()) && unchanged(old(Objects())) && old(KnownC(c))
      requires contactsByID == old(contactsByID) - {c.id}
      requires contactsByMetacontactTag == if c.tag == "" then old(contactsByMetacontactTag) else old(contactsByMetacontactTag) - {c.tag}
      requires unchanged(`groups) && unchanged(`groupsByID) && unchanged(`entriesByID) && unchanged(`entriesByBareJID)
      requires unchanged(`idGroup) && unchanged(`idContact) && unchanged(`idEntry) && unchanged(`active) && unchanged(`notes) && unchanged(`sent)
      requires (forall i <- groupsByID :: c !in groupsByID[i].contacts) && (forall i <- entriesByID :: entriesByID[i].contact != c)
      requires forall t <- contactsByMetacontactTag :: contactsByMetacontactTag[t] != c
      ensures Wf()
      ensures var v := old(View());
              View() == v.(contacts := v.contacts - {c.id}, byTag := if c.tag == "" then v.byTag else v.byTag - {c.tag})
    {
      hide GroupsWf;
      hide ContactsWf;
      hide EntriesWf;
      ContactUnfiledWf(c);
      hide GroupsView;
      hide ContactsView;
      hide EntriesView;
      assert GroupsView() == old(GroupsView()) by { GroupsKept(); }
      assert EntriesView() == old(EntriesView()) by { EntriesKept(); }
      ContactsShrunk(c.id);
      assert TagsView() == if c.tag == "" then old(TagsView()) else old(TagsView()) - {c.tag};
    }

    twostate lemma EntryUnfiledWf(e: ContactEntry)
      requires old(Wf()) && unchanged(old(Objects())) && old(KnownE(e))
      requires entriesByID == old(entriesByID) - {e.id} && entriesByBareJID == DropFiled(old(entriesByBareJID), e)
      requires unchanged(`groups) && unchanged(`groupsByID) && unchanged(`contactsByID) && unchanged(`contactsByMetacontactTag)
      requires unchanged(`idGroup) && unchanged(`idContact) && unchanged(`idEntry) && unchanged(`active) && unchanged(`notes) && unchanged(`sent)
      requires forall i <- contactsByID :: e !in contactsByID[i].entries
      requires forall j <- old(entriesByBareJID) :: j != e.jid ==> e !in old(entriesByBareJID)[j]
      ensures Wf()
      ensures e.jid in old(entriesByBareJID) ==> forall f <- old(entriesByBareJID)[e.jid] :: f.id == e.id ==> f == e
    {
      hide GroupsWf;
      hide ContactsWf;
      hide EntriesWf;
      GroupsStillWf({});
      ContactsStillWfToo({e});
      EntriesWfShrunk(e);
    }

    twostate lemma EntryUnfiled(e: ContactEntry)
      requires old(Wf()) && unchanged(old(Objects())) && old(KnownE(e))
      requires entriesByID == old(entriesByID) - {e.id} && entriesByBareJID == DropFiled(old(entriesByBareJID), e)
      requires unchanged(`groups) && unchanged(`groupsByID) && unchanged(`contactsByID) && unchanged(`contactsByMetacontactTag)
      requires unchanged(`idGroup) && unchanged(`idContact) && unchanged(`idEntry) && unchanged(`active) && unchanged(`notes) && unchanged(`sent)
      requires forall i <- contactsByID :: e !in contactsByID[i].entries
      requires forall j <- old(entriesByBareJID) :: j != e.jid ==> e !in old(entriesByBareJID)[j]
      ensures Wf()
      ensures var v := old(View()); View() == v.(entries := v.entries - {e.id}, byJid := M.DropIndexed(v.byJid, e.jid, e.id))
    {
      hide GroupsWf;
      hide ContactsWf;
      hide EntriesWf;
      EntryUnfiledWf(e);
      hide GroupsView;
      hide ContactsView;
      hide EntriesView;
      assert GroupsView() == old(GroupsView()) by { GroupsKept(); }
      assert ContactsView() == old(ContactsView()) by { ContactsKept(); }
      EntriesShrunk(e.id);
      JidsShrunk(e);
    }

    static function DropFiled(m: map<string, seq<ContactEntry>>, e: ContactEntry): map<string, seq<ContactEntry>> {
      if e.jid !in m then m
      else
        var rest := Without(m[e.jid], e);
        if rest == [] then m - {e.jid} else m[e.jid := rest]
    }

    /** Objects filed before and now, and not written to, look as before. */
    twostate lemma GroupsKept()
      requires unchanged(old(Objects()))
      ensures forall i :: i in groupsByID && i in old(groupsByID) && groupsByID[i] == old(groupsByID)[i] ==>
                groupsByID[i].contacts == old(groupsByID[i].contacts) && GroupOf(groupsByID[i]) == old(GroupOf(groupsByID[i]))
      ensures groupsByID == old(groupsByID) ==> GroupsView() == old(GroupsView())
    {
      forall i | i in groupsByID && i in old(groupsByID) && groupsByID[i] == old(groupsByID)[i] ensures unchanged(groupsByID[i]) {
        assert groupsByID[i] in old(Objects());
      }
    }

    twostate lemma ContactsKept()
      requires unchanged(old(Objects()))
      ensures forall i :: i in contactsByID && i in old(contactsByID) && contactsByID[i] == old(contactsByID)[i] ==>
                contactsByID[i].groups == old(contactsByID[i].groups) && contactsByID[i].entries == old(contactsByID[i].entries)
                && ContactOf(contactsByID[i]) == old(ContactOf(contactsByID[i]))
      ensures contactsByID == old(contactsByID) ==> ContactsView() == old(ContactsView())
    {
      forall i | i in contactsByID && i in old(contactsByID) && contactsByID[i] == old(contactsByID)[i] ensures unchanged(contactsByID[i]) {
        assert contactsByID[i] in old(Objects());
      }
    }

    twostate lemma EntriesKept()
      requires unchanged(old(Objects()))
      ensures forall i :: i in entriesByID && i in old(entriesByID) && entriesByID[i] == old(entriesByID)[i] ==>
                entriesByID[i].contact == old(entriesByID[i].contact) && EntryOf(entriesByID[i]) == old(EntryOf(entriesByID[i]))
      ensures entriesByID == old(entriesByID) ==> EntriesView() == old(EntriesView())
    {
      forall i | i in entriesByID && i in old(entriesByID) && entriesByID[i] == old(entriesByID)[i] ensures unchanged(entriesByID[i]) {
        assert entriesByID[i] in old(Objects());
      }
    }

    /** Identifiers in use keep their objects, and further objects are new ones. */
    twostate predicate Stable()
      reads this`groupsByID, this`contactsByID, this`entriesByID
    {
      && (forall i :: i in groupsByID && i in old(groupsByID) ==> groupsByID[i] == old(groupsByID[i]))
      && (forall i :: i in contactsByID && i in old(contactsByID) ==> contactsByID[i] == old(contactsByID[i]))
      && (forall i :: i in entriesByID && i in old(entriesByID) ==> entriesByID[i] == old(entriesByID[i]))
      && fresh(Objects() - old(Objects()))
    }

    twostate predicate SameObjects()
      reads this`groupsByID, this`contactsByID, this`entriesByID
    {
      groupsByID == old(groupsByID) && contactsByID == old(contactsByID) && entriesByID == old(entriesByID)
    }

    lemma GroupSeen(g: Group)
      requires Wf() && KnownG(g)
      ensures g in Objects() && g.id in View().groups && View().groups[g.id] == GroupOf(g) && forall c <- g.contacts :: KnownC(c)
      ensures 0 <= g.id
    {
    }

    lemma ContactSeen(c: Contact)
      requires Wf() && KnownC(c)
      ensures c in Objects() && c.id in View().contacts && View().contacts[c.id] == ContactOf(c)
      ensures (forall g <- c.groups :: KnownG(g)) && (forall e <- c.entries :: KnownE(e))
      ensures 0 <= c.id
    {
    }

    lemma EntrySeen(e: ContactEntry)
      requires Wf() && KnownE(e)
      ensures e in Objects() && e.id in View().entries && View().entries[e.id] == EntryOf(e) && KnownC(e.contact)
      ensures 0 <= e.id
    {
    }

    /** What is filed is what is seen. */
    lemma Filed()
      requires Wf()
      ensures forall i :: i in groupsByID <==> i in View().groups
      ensures forall i :: i in contactsByID <==> i in View().contacts
      ensures forall i :: i in entriesByID <==> i in View().entries
    {
    }

    lemma FiledAs(c: int, g: int)
      requires Wf()
      ensures c in contactsByID ==> KnownC(contactsByID[c]) && contactsByID[c].id == c && View().contacts[c] == ContactOf(contactsByID[c])
      ensures g in groupsByID ==> KnownG(groupsByID[g]) && groupsByID[g].id == g && View().groups[g] == GroupOf(groupsByID[g])
    {
    }

    method Notify(n: M.Note)
      requires Wf()
      modifies this`notes
      ensures Wf() && View() == M.Queue(old(View()), n)
    {
      hide Wf;
      hide GroupsView;
      hide ContactsView;
      hide EntriesView;
      notes := notes + [n];
    }

    method Transmit(x: M.Stanza)
      requires Wf()
      modifies this`sent
      ensures Wf() && View() == M.Send(old(View()), x)
    {
      hide Wf;
      hide GroupsView;
      hide ContactsView;
      hide EntriesView;
      sent := sent + [x];
    }

    // ---- look-ups ---------------------------------------------------------------------------

    method FindGroup(kind: M.GroupKind, name: string) returns (r: Group?)
      requires Wf()
      ensures var found := M.FindGroup(View().order, View().groups, kind, name);
              if found == -1 then r == null else r != null && KnownG(r) && r.id == found
    {
      for n := 0 to |groups|
        invariant M.FindGroup(View().order[n..], View().groups, kind, name) == M.FindGroup(View().order, View().groups, kind, name)
      {
        assert View().order[n..][0] == groups[n].id && View().order[n..][1..] == View().order[n + 1..];
        assert KnownG(groups[n]) && View().groups[groups[n].id] == GroupOf(groups[n]);
        if groups[n].kind == kind && groups[n].name == name {
          return groups[n];
        }
      }
      return null;
    }

    method FindContact(name: string, groupName: string, kind: M.GroupKind) returns (r: Contact?)
      requires Wf()
      ensures var found := M.FindContact(View(), name, groupName, kind);
              if found == -1 then r == null else r != null && KnownC(r) && r.id == found
    {
      var g := FindGroup(kind, groupName);
      if g == null {
        return null;
      }
      var ids := ContactIds(g.contacts);
      assert View().groups[g.id] == GroupOf(g);
      for n := 0 to |g.contacts|
        invariant M.FindNamed(ids[n..], View().contacts, name) == M.FindNamed(ids, View().contacts, name)
      {
        var c := g.contacts[n];
        assert ids[n..][0] == c.id && ids[n..][1..] == ids[n + 1..];
        assert c in g.contacts && KnownC(c) && View().contacts[c.id] == ContactOf(c);
        if c.name == name {
          return c;
        }
      }
      return null;
    }

    method FindEntry(account: int, jid: string) returns (r: ContactEntry?)
      requires Wf()
      ensures var found := M.FindEntry(View(), account, jid);
              if found == -1 then r == null else r != null && KnownE(r) && r.id == found && r.account == account
    {
      var es := if jid in entriesByBareJID then entriesByBareJID[jid] else [];
      var ids := EntryIds(es);
      for n := 0 to |es|
        invariant M.FindOwned(ids[n..], View().entries, account) == M.FindOwned(ids, View().entries, account)
      {
        var e := es[n];
        assert ids[n..][0] == e.id && ids[n..][1..] == ids[n + 1..];
        assert e in es && KnownE(e) && View().entries[e.id] == EntryOf(e);
        if e.account == account {
          return e;
        }
      }
      return null;
    }

    // ---- entry texts ------------------------------------------------------------------------

    method EditTexts(e: ContactEntry, d: M.Edit)
      modifies e
      ensures EntryOf(e) == M.Edited(old(EntryOf(e)), d) && e.contact == old(e.contact)
    {
      match d
      case AddName(n) =>
        e.groups := e.groups + [n];
        if e.mainGroup == "" { e.mainGroup := n; }
      case DropName(n) =>
        e.groups := Without(e.groups, n);
        if e.mainGroup == n { e.mainGroup := ""; }
      case SwapNames(drop, add) =>
        if drop.Some? {
          e.groups := Without(e.groups, drop.name);
          if e.mainGroup == drop.name { e.mainGroup := ""; }
        }
        if add.Some? {
          e.groups := e.groups + [add.name];
          if e.mainGroup == "" { e.mainGroup := add.name; }
        }
      case RenameName(o, n) =>
        e.groups := Without(e.groups, o) + [n];
        if e.mainGroup == o { e.mainGroup := n; }
      case SetName(n) =>
        e.name := n;
    }

    /** Gives an entry the name and groups a command leaves it with, and commits them. */
    method CommitEntry(e: ContactEntry, d: M.Edit)
      requires Wf() && KnownE(e)
      modifies this`sent, e
      ensures Wf() && SameObjects()
      ensures var v := M.Edited(old(View()).entries[e.id], d);
              View() == M.Send(M.SetEntry(old(View()), e.id, v), M.Commit(v))
    {
      hide Wf;
      hide View;
      hide M.Edited;
      EntrySeen(e);
      EditTexts(e, d);
      EntryWritten(e);
      Transmit(M.RosterSet(e.account, e.jid, e.name, e.groups));
    }

    method CommitEntries(es: seq<ContactEntry>, d: M.Edit)
      requires Wf() && forall e <- es :: KnownE(e)
      modifies this`sent, Objects()
      ensures Wf() && SameObjects()
      ensures View() == M.CommitEntries(old(View()), EntryIds(es), d)
    {
      hide Wf;
      hide View;
      hide M.CommitEntries;
      ghost var v, ids := View(), EntryIds(es);
      CommittedNone(v, d);
      assert ids[..0] == [];
      for n := 0 to |es|
        invariant Wf() && SameObjects() && View() == M.CommitEntries(v, ids[..n], d)
      {
        CommittedNext(v, ids, n, d);
        assert es[n] in es && KnownE(es[n]);
        EntrySeen(es[n]);
        CommitEntry(es[n], d);
      }
      assert ids[..|es|] == ids;
    }

    static lemma CommittedNone(v: M.Roster, d: M.Edit)
      ensures M.CommitEntries(v, [], d) == v
    {
    }

    static lemma CommittedNext(v: M.Roster, ids: seq<int>, n: nat, d: M.Edit)
      requires n < |ids|
      ensures var t := M.CommitEntries(v, ids[..n], d);
              ids[n] in t.entries ==>
                var w := M.Edited(t.entries[ids[n]], d);
                M.CommitEntries(v, ids[..n + 1], d) == M.Send(M.SetEntry(t, ids[n], w), M.Commit(w))
    {
      assert ids[..n + 1][..n] == ids[..n];
    }

    // ---- contacts and their groups ------------------------------------------------------------

    method RosterContactAddGroup(contactId: int, groupId: int)
      requires Wf()
      modifies this`notes, this`sent, Objects()
      ensures Wf() && SameObjects()
      ensures View() == M.ContactAddGroup(old(View()), contactId, groupId)
    {
      hide Wf;
      hide View;
      hide M.CommitEntries;
      hide M.FindGroup;
      Filed();
      if contactId !in contactsByID {
        return;
      }
      var c := contactsByID[contactId];
      if groupId !in groupsByID {
        return;
      }
      FiledAs(contactId, groupId);
      if groupsByID[groupId].kind != M.User {
        return;
      }
      var g := groupsByID[groupId];
      GroupSeen(g);
      ContactSeen(c);
      GroupIn(c.groups, g);
      if g !in c.groups {
        AddLink(c, g);
        ContactSeen(c);
        CommitEntries(c.entries, M.AddName(g.name));
        Notify(M.ContactGroupAdded(contactId, groupId));
      }
    }

    lemma GroupIn(gs: seq<Group>, g: Group)
      requires KnownG(g) && forall h <- gs :: KnownG(h)
      ensures g in gs <==> g.id in GroupIds(gs)
    {
      if g.id in GroupIds(gs) {
        var i :| 0 <= i < |gs| && GroupIds(gs)[i] == g.id;
        assert gs[i] in gs;
      }
      if g in gs {
        var i :| 0 <= i < |gs| && gs[i] == g;
        assert GroupIds(gs)[i] == g.id;
      }
    }

    method AddLink(c: Contact, g: Group)
      requires Wf() && KnownC(c) && KnownG(g)
      modifies c`groups, g`contacts
      ensures Wf() && SameObjects() && c.groups == old(c.groups) + [g] && g.contacts == old(g.contacts) + [c]
      ensures c.entries == old(c.entries) && g.name == old(g.name) && g.kind == old(g.kind)
      ensures View() == M.Link(old(View()), c.id, g.id)
    {
      hide Wf;
      hide View;
      ContactSeen(c);
      GroupSeen(g);
      EachNext(GroupId, c.groups, g);
      EachNext(ContactId, g.contacts, c);
      c.groups := c.groups + [g];
      ContactWritten(c);
      label A:
      g.contacts := g.contacts + [c];
      GroupWritten@A(g);
    }

    method DropLink(c: Contact, g: Group)
      requires Wf() && KnownC(c) && KnownG(g)
      modifies c`groups, g`contacts
      ensures Wf() && SameObjects() && c.groups == Without(old(c.groups), g) && g.contacts == Without(old(g.contacts), c)
      ensures c.entries == old(c.entries) && g.name == old(g.name) && g.kind == old(g.kind)
      ensures View() == M.Unlink(old(View()), c.id, g.id)
    {
      hide Wf;
      hide View;
      ContactSeen(c);
      GroupSeen(g);
      EachWithout(GroupId, c.groups, g);
      EachWithout(ContactId, g.contacts, c);
      c.groups := Without(c.groups, g);
      ContactWritten(c);
      label A:
      g.contacts := Without(g.contacts, c);
      GroupWritten@A(g);
    }

    method MoveLink(c: Contact, g: Group, h: Group)
      requires Wf() && KnownC(c) && KnownG(g) && KnownG(h)
      modifies c`groups, g`contacts, h`contacts
      ensures Wf() && SameObjects() && forall e <- c.entries :: KnownE(e)
      ensures c.id in old(View()).contacts && g.id in old(View()).groups && h.id in old(View()).groups
      ensures View() == M.Link(M.Unlink(old(View()), c.id, g.id), c.id, h.id)
    {
      hide M.Link;
      hide M.Unlink;
      hide Wf;
      hide View;
      GroupSeen(g);
      GroupSeen(h);
      ContactSeen(c);
      DropLink(c, g);
      AddLink(c, h);
      ContactSeen(c);
    }

    /** The transfer itself, once it is found to be allowed. */
    method Transfer(c: Contact, g: Group, h: Group)
      requires Wf() && KnownC(c) && KnownG(g) && KnownG(h)
      requires M.TransferAllowed(View(), c.id, g.id, h.id)
      modifies this`notes, this`sent, Objects()
      ensures Wf() && SameObjects()
      ensures View() == M.ContactChangeGroup(old(View()), c.id, g.id, h.id)
    {
      hide M.Link;
      hide M.Unlink;
      hide Wf;
      hide View;
      hide M.CommitEntries;
      hide M.FindGroup;
      GroupSeen(g);
      GroupSeen(h);
      ContactSeen(c);
      MoveLink(c, g, h);
      GroupSeen(g);
      GroupSeen(h);
      CommitEntries(c.entries, M.SwapNames(if g.kind == M.User then M.Some(g.name) else M.None,
                                           if h.kind == M.User then M.Some(h.name) else M.None));
      Notify(M.ContactGroupChanged(c.id, g.id, h.id));
    }

    method RosterContactChangeGroup(contactId: int, oldId: int, newId: int)
      requires Wf() && I.Inv(View())
      modifies this`notes, this`sent, Objects()
      ensures Wf() && SameObjects()
      ensures View() == M.ContactChangeGroup(old(View()), contactId, oldId, newId)
    {
      hide I.InvBut;
      Filed();
      if contactId !in contactsByID {
        return;
      }
      var c := contactsByID[contactId];
      ContactSeen(c);
      I.KnownContact(View(), contactId);
      var g := c.groups[0];
      GroupSeen(g);
      if oldId != g.id {
        return;
      }
      if newId !in groupsByID {
        return;
      }
      var h := groupsByID[newId];
      GroupSeen(h);
      if g.kind == M.NotInList || h.kind == M.NotInList {
        return;
      }
      Transfer(c, g, h);
    }

    method RosterContactRemoveGroup(contactId: int, groupId: int)
      requires Wf() && I.Inv(View())
      modifies this`notes, this`sent, Objects()
      ensures Wf() && SameObjects()
      ensures View() == M.ContactRemoveGroup(old(View()), contactId, groupId)
    {
      Filed();
      if contactId !in contactsByID || groupId !in groupsByID {
        return;
      }
      var c, g := contactsByID[contactId], groupsByID[groupId];
      GroupSeen(g);
      ContactSeen(c);
      GroupIn(c.groups, g);
      if g !in c.groups || g.kind == M.NotInList {
        return;
      }
      Ungroup(c, g);
    }

    method ToGeneral(c: Contact, g: Group)
      requires Wf() && KnownC(c) && M.FindGroup(View().order, View().groups, M.NoGroup, M.GENERAL) == 0
      modifies this`notes, Objects()
      ensures Wf() && SameObjects()
      ensures var v := old(View()); c.id in v.contacts && 0 in v.groups && View() == M.Queue(M.Link(v, c.id, 0), M.ContactGroupChanged(c.id, g.id, 0))
    {
      hide Wf;
      hide View;
      hide M.FindGroup;
      hide M.Link;
      ContactSeen(c);
      var general := FindGroup(M.NoGroup, M.GENERAL);
      GroupSeen(general);
      AddLink(c, general);
      Notify(M.ContactGroupChanged(c.id, g.id, general.id));
    }

    /** The removal itself; a contact left without groups goes to the general one. */
    method Ungroup(c: Contact, g: Group)
      requires Wf() && I.Inv(View()) && KnownC(c) && KnownG(g) && g in c.groups && g.kind != M.NotInList
      modifies this`notes, this`sent, Objects()
      ensures Wf() && SameObjects()
      ensures View() == M.ContactRemoveGroup(old(View()), c.id, g.id)
    {
      hide Wf;
      hide View;
      hide M.CommitEntries;
      hide M.FindGroup;
      hide I.InvBut;
      hide M.Link;
      hide M.Unlink;
      GroupSeen(g);
      ContactSeen(c);
      GroupIn(c.groups, g);
      ghost var v := View();
      UngroupedGeneral(v, c.id, g.id, M.SwapNames(M.NamedIfUser(v.groups[g.id]), M.None));
      DropAndCommit(c, g);
      if c.groups == [] {
        ToGeneral(c, g);
      } else {
        Notify(M.ContactGroupRemoved(c.id, g.id));
      }
    }

    method DropAndCommit(c: Contact, g: Group)
      requires Wf() && KnownC(c) && KnownG(g)
      modifies this`sent, Objects()
      ensures Wf() && SameObjects() && GroupIds(c.groups) == Without(old(GroupIds(c.groups)), g.id)
      ensures var v := old(View());
              View() == M.CommitEntries(M.Unlink(v, c.id, g.id), v.contacts[c.id].entries, M.SwapNames(M.NamedIfUser(v.groups[g.id]), M.None))
    {
      hide Wf;
      hide View;
      hide M.CommitEntries;
      GroupSeen(g);
      ContactSeen(c);
      EachWithout(GroupId, c.groups, g);
      DropLink(c, g);
      ContactSeen(c);
      label A:
      CommitEntries(c.entries, M.SwapNames(if g.kind == M.User then M.Some(g.name) else M.None, M.None));
      M.CommitEntriesContacts(old@A(View()), old@A(EntryIds(c.entries)), M.SwapNames(if old(g.kind) == M.User then M.Some(old(g.name)) else M.None, M.None));
      ContactSeen(c);
    }

    lemma UngroupedGeneral(v: M.Roster, c: int, g: int, d: M.Edit)
      requires I.Inv(v) && c in v.contacts && g in v.groups && d == M.SwapNames(M.NamedIfUser(v.groups[g]), M.None)
      ensures var t := M.CommitEntries(M.Unlink(v, c, g), v.contacts[c].entries, d);
              M.FindGroup(t.order, t.groups, M.NoGroup, M.GENERAL) == 0 && c in t.contacts
              && t.contacts[c].groups == Without(v.contacts[c].groups, g)
    {
      hide I.InvBut;
      I.UnlinkInv(v, c, g);
      I.CommitEntriesInv(M.Unlink(v, c, g), v.contacts[c].entries, d, c);
      O.General(M.CommitEntries(M.Unlink(v, c, g), v.contacts[c].entries, d), c);
    }

    // ---- start-up and groups ----------------------------------------------------------------

    constructor ()
      ensures Wf() && View() == M.INITIAL && fresh(Objects())
    {
      var general := new Group(0, M.NoGroup, M.GENERAL);
      var hidden := new Group(1, M.NotInList, M.NOT_IN_LIST);
      groups := [general, hidden];
      groupsByID := map[0 := general, 1 := hidden];
      contactsByID, contactsByMetacontactTag, entriesByID, entriesByBareJID := map[], map[], map[], map[];
      idGroup, idContact, idEntry, active, notes, sent := 2, 0, 0, {}, [], [];
      new;
      hide Wf;
      hide View;
      hide Objects;
      Fresh(general, hidden);
    }

    lemma Fresh(general: Group, hidden: Group)
      requires GroupOf(general) == M.Group(M.NoGroup, M.GENERAL, []) && GroupOf(hidden) == M.Group(M.NotInList, M.NOT_IN_LIST, [])
      requires general.id == 0 && hidden.id == 1 && general.contacts == [] && hidden.contacts == []
      requires groups == [general, hidden] && groupsByID == map[0 := general, 1 := hidden]
      requires contactsByID == map[] && contactsByMetacontactTag == map[] && entriesByID == map[] && entriesByBareJID == map[]
      requires idGroup == 2 && idContact == 0 && idEntry == 0 && active == {} && notes == [] && sent == []
      ensures Wf() && View() == M.INITIAL && forall o <- Objects() :: o == general || o == hidden
    {
      assert GroupIds(groups) == [0, 1];
      assert GroupsView() == M.INITIAL.groups;
      assert ContactsView() == map[] && EntriesView() == map[] && TagsView() == map[] && JidsView() == map[];
    }

    method RosterStart()
      requires Wf()
      modifies this`notes
      ensures Wf() && View() == M.RosterStart(old(View()))
    {
      hide Wf;
      hide View;
      ghost var order := View().order;
      Ordered();
      for n := 0 to |groups|
        invariant Wf() && View() == M.Announce(old(View()), order[..n])
        invariant unchanged(`groups) && unchanged(`groupsByID) && order == GroupIds(groups)
      {
        assert order[..n + 1][..n] == order[..n];
        AnnounceKeeps(old(View()), order[..n]);
        Ordered();
        assert groups[n] in groups;
        GroupSeen(groups[n]);
        Notify(M.GroupAdded(groups[n].id, groups[n].kind, groups[n].name));
      }
      assert order[..|groups|] == order;
    }

    lemma Ordered()
      requires Wf()
      ensures View().order == GroupIds(groups) && forall g <- groups :: KnownG(g)
    {
    }

    static lemma {:induction false} AnnounceKeeps(v: M.Roster, ids: seq<int>)
      ensures var t := M.Announce(v, ids); t == v.(log := t.log)
    {
      if ids != [] {
        AnnounceKeeps(v, ids[..|ids| - 1]);
      }
    }

    method RosterGroupAdd(name: string, pos: int) returns (id: int)
      requires Wf()
      modifies this`groups, this`groupsByID, this`idGroup, this`notes
      ensures Wf() && Stable() && contactsByID == old(contactsByID) && entriesByID == old(entriesByID)
      ensures forall i <- old(groupsByID) :: i in groupsByID
      ensures View() == M.GroupAdd(old(View()), name, pos) && id == M.GroupAddId(old(View()), name)
    {
      hide Wf;
      hide View;
      if name == "" {
        return -1;
      }
      var f := FindGroup(M.User, name);
      if f != null {
        GroupSeen(f);
        return f.id;
      }
      Counters();
      NewGroup(name, pos);
      return idGroup - 1;
    }

    method NewGroup(name: string, pos: int)
      requires Wf()
      modifies this`groups, this`groupsByID, this`idGroup, this`notes
      ensures Wf() && Stable() && contactsByID == old(contactsByID) && entriesByID == old(entriesByID)
      ensures idGroup == old(idGroup) + 1 && forall i <- old(groupsByID) :: i in groupsByID
      ensures var v := old(View());
              View() == M.Queue(v.(order := Place(v.order, pos, v.nextGroup), groups := v.groups[v.nextGroup := M.Group(M.User, name, [])],
                                   nextGroup := v.nextGroup + 1), M.GroupAdded(v.nextGroup, M.User, name))
    {
      hide Wf;
      hide View;
      hide Stable;
      Counters();
      var g := new Group(idGroup, M.User, name);
      idGroup := idGroup + 1;
      groups := Place(groups, pos, g);
      groupsByID := groupsByID[g.id := g];
      GroupFiled(g, pos);
      assert ContactIds(g.contacts) == [];
      Indexed();
      GroupsSettled({g});
      Notify(M.GroupAdded(g.id, M.User, name));
    }

    /** The next identifiers are unused. */
    lemma Counters()
      requires Wf()
      ensures idGroup == View().nextGroup && idContact == View().nextContact && idEntry == View().nextEntry
      ensures idGroup !in groupsByID && idContact !in contactsByID && idEntry !in entriesByID
    {
    }

    twostate lemma GroupsSettled(new extra: set<Group>)
      requires forall i <- groupsByID :: (i in old(groupsByID) && groupsByID[i] == old(groupsByID)[i]) || groupsByID[i] in extra
      requires (forall g <- extra :: fresh(g)) && contactsByID == old(contactsByID) && entriesByID == old(entriesByID)
      requires forall g <- extra :: g.id !in old(groupsByID) && g.id in groupsByID && groupsByID[g.id] == g
      requires forall i <- groupsByID :: groupsByID[i].id == i
      ensures Stable()
    {
    }

    lemma Indexed()
      requires Wf()
      ensures forall i <- groupsByID :: groupsByID[i].id == i
      ensures forall i <- contactsByID :: contactsByID[i].id == i
      ensures forall i <- entriesByID :: entriesByID[i].id == i
    {
    }

    method RosterGroupRemove(groupId: int)
      requires Wf() && I.Inv(View())
      modifies this, Objects()
      ensures Wf() && I.Inv(View()) && Stable() && contactsByID == old(contactsByID) && entriesByID == old(entriesByID)
      ensures Objects() <= old(Objects())
      ensures View() == M.GroupRemove(old(View()), groupId)
    {
      hide M.DeleteGroup;
      hide M.FindGroup;
      hide Wf;
      hide View;
      hide I.InvBut;
      Filed();
      if groupId !in groupsByID {
        return;
      }
      FiledAs(0, groupId);
      var g := groupsByID[groupId];
      if g.kind != M.User {
        return;
      }
      I.KnownGroup(View(), groupId, -1);
      var cs := g.contacts;
      ghost var ids := ContactIds(cs);
      assert ids[..0] == [];
      for n := 0 to |cs|
        invariant Wf() && SameObjects() && I.Inv(View())
        invariant View() == M.RemoveGroupFromAll(old(View()), ids[..n], groupId)
      {
        assert ids[..n + 1][..n] == ids[..n];
        O.RemoveGroupInv(View(), cs[n].id, groupId);
        RosterContactRemoveGroup(cs[n].id, groupId);
      }
      assert ids[..|cs|] == ids;
      O.RemoveGroupFromAllEmpties(old(View()), groupId);
      GroupSeen(g);
      DeleteGroup(g);
    }

    method DeleteGroup(g: Group)
      requires Wf() && I.Inv(View()) && KnownG(g) && g.contacts == [] && g.id > 1
      modifies this
      ensures Wf() && I.Inv(View()) && Stable() && contactsByID == old(contactsByID) && entriesByID == old(entriesByID)
      ensures Objects() <= old(Objects())
      ensures View() == M.DeleteGroup(old(View()), g.id)
    {
      hide Without;
      hide Wf;
      hide View;
      hide I.InvBut;
      hide Stable;
      I.DeleteGroupInv(View(), g.id) by { GroupSeen(g); }
      Ungrouped(g);
      groups := Without(groups, g);
      groupsByID := groupsByID - {g.id};
      GroupUnfiled(g);
      Indexed();
      GroupsSettled({});
      Notify(M.GroupRemoved(g.id));
    }

    lemma Ungrouped(g: Group)
      requires Wf() && I.Inv(View()) && KnownG(g) && g.contacts == []
      ensures forall i <- contactsByID :: g !in contactsByID[i].groups
    {
      hide I.InvBut;
      forall i | i in contactsByID ensures g !in contactsByID[i].groups {
        ContactSeen(contactsByID[i]);
        GroupSeen(g);
        I.KnownContact(View(), i);
        GroupIn(contactsByID[i].groups, g);
      }
    }

    method RosterGroupRename(groupId: int, name: string)
      requires Wf()
      modifies this`notes, this`sent, Objects()
      ensures Wf() && SameObjects()
      ensures View() == M.GroupRename(old(View()), groupId, name)
    {
      hide Wf;
      hide View;
      hide M.CommitContacts;
      Filed();
      FiledAs(0, groupId);
      if name == "" || groupId !in groupsByID {
        return;
      }
      var g := groupsByID[groupId];
      if g.kind != M.User {
        return;
      }
      GroupSeen(g);
      var was := g.name;
      g.name := name;
      GroupWritten(g);
      CommitContacts(g.contacts, M.RenameName(was, name));
      Notify(M.GroupChanged(groupId, M.User, name));
    }

    method CommitContacts(cs: seq<Contact>, d: M.Edit)
      requires Wf() && forall c <- cs :: KnownC(c)
      modifies this`sent, Objects()
      ensures Wf() && SameObjects()
      ensures View() == M.CommitContacts(old(View()), ContactIds(cs), d)
    {
      hide Wf;
      hide View;
      hide M.CommitEntries;
      ghost var ids := ContactIds(cs);
      assert ids[..0] == [];
      for n := 0 to |cs|
        invariant Wf() && SameObjects() && View() == M.CommitContacts(old(View()), ids[..n], d)
      {
        assert ids[..n + 1][..n] == ids[..n] && cs[n] in cs && KnownC(cs[n]);
        ContactSeen(cs[n]);
        CommitEntries(cs[n].entries, d);
      }
      assert ids[..|cs|] == ids;
    }

    method RosterGroupMove(groupId: int, pos: nat)
      requires Wf() && I.Inv(View()) && pos < |groups|
      modifies this`groups, this`notes
      ensures Wf()
      ensures pos < |old(View()).order| && View() == M.GroupMove(old(View()), groupId, pos)
    {
      hide Wf;
      hide View;
      hide I.InvBut;
      Filed();
      Ordered();
      FiledAs(0, groupId);
      if groupId !in groupsByID {
        return;
      }
      var g := groupsByID[groupId];
      if g.kind != M.User {
        return;
      }
      GroupSeen(g);
      I.KnownGroup(View(), groupId, -1);
      GroupIn(groups, g);
      EachIndexOf(GroupId, groups, g);
      var was := groups;
      EachMoved(GroupId, groups, IndexOf(groups, g), pos);
      groups := Moved(groups, IndexOf(groups, g), pos);
      GroupsReordered();
      ReportMoved(was);
    }

    method ReportMoved(was: seq<Group>)
      requires Wf() && |was| == |groups| && forall g <- was :: KnownG(g)
      modifies this`notes
      ensures Wf() && |was| == |old(View()).order| && View() == M.ReportMoved(old(View()), GroupIds(was), |was|)
    {
      hide Wf;
      hide View;
      Ordered();
      for n := 0 to |was|
        invariant Wf() && |was| == |groups| == |old(View()).order| && View() == M.ReportMoved(old(View()), GroupIds(was), n)
      {
        Ordered();
        M.ReportMovedKeeps(old(View()), GroupIds(was), n);
        if groups[n].id != was[n].id {
          assert was[n] in was;
          GroupSeen(was[n]);
          Notify(M.GroupChanged(was[n].id, was[n].kind, was[n].name));
        }
      }
    }

    twostate lemma GroupsReordered()
      requires old(Wf()) && unchanged(old(Objects())) && forall g <- groups :: g in old(groups)
      requires unchanged(`groupsByID) && unchanged(`contactsByID) && unchanged(`entriesByID)
      requires unchanged(`contactsByMetacontactTag) && unchanged(`entriesByBareJID)
      requires unchanged(`idGroup) && unchanged(`idContact) && unchanged(`idEntry) && unchanged(`active) && unchanged(`notes) && unchanged(`sent)
      ensures Wf() && View() == old(View()).(order := GroupIds(groups))
    {
      GroupsKept();
      ContactsKept();
      EntriesKept();
    }

    // ---- contacts ---------------------------------------------------------------------------

    method FileContact(g: Group, name: string) returns (c: Contact)
      requires Wf() && KnownG(g)
      modifies this`contactsByID, this`idContact
      ensures Wf() && KnownC(c) && Stable() && groupsByID == old(groupsByID) && entriesByID == old(entriesByID)
      ensures c.id == old(idContact) && forall i <- old(contactsByID) :: i in contactsByID
      ensures c.id == old(View()).nextContact
      ensures View() == M.SetContact(old(View()), c.id, M.Contact(name, "", "", [g.id], [])).(nextContact := c.id + 1)
    {
      hide Wf;
      hide View;
      hide Stable;
      Counters();
      GroupSeen(g);
      c := new Contact(idContact, name, g);
      idContact := idContact + 1;
      contactsByID := contactsByID[c.id := c];
      ContactFiled(c);
      Indexed();
      ContactsSettled({c});
      assert GroupIds([g]) == [g.id];
    }

    /** Gives a group another list of filed contacts. */
    method ListContacts(g: Group, cs: seq<Contact>)
      requires Wf() && KnownG(g) && forall c <- cs :: KnownC(c)
      modifies g`contacts
      ensures Wf() && g.id in old(View()).groups
      ensures View() == M.SetGroup(old(View()), g.id, old(View()).groups[g.id].(contacts := ContactIds(cs)))
    {
      hide Wf;
      hide View;
      GroupSeen(g);
      g.contacts := cs;
      GroupWritten(g);
    }

    method NewContact(g: Group, name: string, pos: int) returns (c: Contact)
      requires Wf() && KnownG(g)
      modifies this`contactsByID, this`idContact, this`notes, g
      ensures Wf() && KnownC(c) && Stable() && groupsByID == old(groupsByID) && entriesByID == old(entriesByID)
      ensures c.id == old(idContact) && forall i <- old(contactsByID) :: i in contactsByID
      ensures View() == M.NewContact(old(View()), g.id, name, pos)
    {
      hide Wf;
      hide View;
      hide Stable;
      hide Place;
      GroupSeen(g);
      c := FileContact(g, name);
      GroupSeen(g);
      EachPlace(ContactId, g.contacts, pos, c);
      ListContacts(g, Place(g.contacts, pos, c));
      Notify(M.ContactAdded(g.id, c.id, name, ""));
    }

    twostate lemma ContactsSettled(new extra: set<Contact>)
      requires forall i <- contactsByID :: (i in old(contactsByID) && contactsByID[i] == old(contactsByID)[i]) || contactsByID[i] in extra
      requires (forall c <- extra :: fresh(c)) && groupsByID == old(groupsByID) && entriesByID == old(entriesByID)
      requires forall c <- extra :: c.id !in old(contactsByID) && c.id in contactsByID && contactsByID[c.id] == c
      requires forall i <- contactsByID :: contactsByID[i].id == i
      ensures Stable()
    {
    }

    twostate lemma EntriesSettled(new extra: set<ContactEntry>)
      requires forall i <- entriesByID :: (i in old(entriesByID) && entriesByID[i] == old(entriesByID)[i]) || entriesByID[i] in extra
      requires (forall e <- extra :: fresh(e)) && groupsByID == old(groupsByID) && contactsByID == old(contactsByID)
      requires forall e <- extra :: e.id !in old(entriesByID) && e.id in entriesByID && entriesByID[e.id] == e
      requires forall i <- entriesByID :: entriesByID[i].id == i
      ensures Stable()
    {
    }

    method RosterContactAdd(groupId: int, name: string, pos: int) returns (id: int)
      requires Wf()
      modifies this`contactsByID, this`idContact, this`notes, this`sent, Objects()
      ensures Wf() && Stable() && groupsByID == old(groupsByID) && entriesByID == old(entriesByID)
      ensures forall i <- old(contactsByID) :: i in contactsByID
      ensures View() == M.ContactAdd(old(View()), groupId, name, pos) && id == M.ContactAddId(old(View()), groupId, name)
    {
      hide M.FindGroup;
      hide Wf;
      hide View;
      hide M.ContactAddGroup;
      hide M.FindContact;
      hide M.NewContact;
      Filed();
      FiledAs(0, groupId);
      if name == "" || groupId !in groupsByID {
        return -1;
      }
      var g := groupsByID[groupId];
      GroupSeen(g);
      var c := FindContact(name, g.name, g.kind);
      if c != null {
        ContactSeen(c);
        GroupIn(c.groups, g);
        if g !in c.groups {
          RosterContactAddGroup(c.id, groupId);
        }
        return c.id;
      }
      Counters();
      var n := NewContact(g, name, pos);
      return n.id;
    }

    method RosterContactRename(contactId: int, name: string)
      requires Wf()
      modifies this`notes, this`sent, Objects()
      ensures Wf() && SameObjects()
      ensures View() == M.ContactRename(old(View()), contactId, name)
    {
      hide Wf;
      hide View;
      hide M.CommitEntries;
      Filed();
      FiledAs(contactId, 0);
      if name == "" || contactId !in contactsByID {
        return;
      }
      var c := contactsByID[contactId];
      ContactSeen(c);
      c.name := name;
      ContactWritten(c);
      label A:
      CommitEntries(c.entries, M.SetName(name));
      M.CommitEntriesContacts(old@A(View()), old@A(EntryIds(c.entries)), M.SetName(name));
      ContactSeen(c);
      Notify(M.ContactChanged(contactId, c.name, c.alt));
    }

    method RosterContactSetAlt(contactId: int, alt: string)
      requires Wf()
      modifies this`notes, Objects()
      ensures Wf() && SameObjects()
      ensures View() == M.ContactSetAlt(old(View()), contactId, alt)
    {
      hide Wf;
      hide View;
      Filed();
      FiledAs(contactId, 0);
      if contactId !in contactsByID {
        return;
      }
      var c := contactsByID[contactId];
      ContactSeen(c);
      c.alt := alt;
      ContactWritten(c);
      Notify(M.ContactChanged(contactId, c.name, alt));
    }

    method RosterContactMove(contactId: int, pos: nat)
      requires Wf() && I.Inv(View()) && O.MoveOk(View(), contactId, pos)
      modifies this`notes, Objects()
      ensures Wf() && SameObjects()
      ensures View() == M.ContactMove(old(View()), contactId, pos)
    {
      hide Wf;
      hide View;
      hide I.InvBut;
      hide M.ReportMovedContacts;
      Filed();
      FiledAs(contactId, 0);
      if contactId !in contactsByID {
        return;
      }
      var c := contactsByID[contactId];
      ContactSeen(c);
      var g := c.groups[0];
      GroupSeen(g);
      ContactIn(g.contacts, c);
      EachIndexOf(ContactId, g.contacts, c);
      EachMoved(ContactId, g.contacts, IndexOf(g.contacts, c), pos);
      var was := g.contacts;
      var now := Moved(was, IndexOf(was, c), pos);
      g.contacts := now;
      GroupWritten(g);
      ReportMovedContacts(was, now);
    }

    lemma ContactIn(cs: seq<Contact>, c: Contact)
      requires KnownC(c) && forall d <- cs :: KnownC(d)
      ensures c in cs <==> c.id in ContactIds(cs)
    {
      if c.id in ContactIds(cs) {
        var i :| 0 <= i < |cs| && ContactIds(cs)[i] == c.id;
        assert cs[i] in cs;
      }
      if c in cs {
        var i :| 0 <= i < |cs| && cs[i] == c;
        assert ContactIds(cs)[i] == c.id;
      }
    }

    method ReportMovedContacts(was: seq<Contact>, now: seq<Contact>)
      requires Wf() && |was| == |now| && forall c <- was :: KnownC(c)
      modifies this`notes
      ensures Wf() && View() == M.ReportMovedContacts(old(View()), ContactIds(was), ContactIds(now), |was|)
    {
      hide Wf;
      hide View;
      for n := 0 to |was|
        invariant Wf() && View() == M.ReportMovedContacts(old(View()), ContactIds(was), ContactIds(now), n)
      {
        if now[n].id != was[n].id {
          assert was[n] in was;
          ContactSeen(was[n]);
          Notify(M.ContactChanged(was[n].id, was[n].name, was[n].alt));
        }
      }
    }

    // ---- deleting entries and contacts --------------------------------------------------------

    /** Nothing was filed, and no group or contact taken out. */
    twostate predicate FewerEntries()
      reads this`groupsByID, this`contactsByID, this`entriesByID
    {
      groupsByID == old(groupsByID) && contactsByID == old(contactsByID)
      && forall i <- entriesByID :: i in old(entriesByID) && entriesByID[i] == old(entriesByID)[i]
    }

    method DeleteEntry(e: ContactEntry)
      requires Wf() && I.Inv(View()) && KnownE(e)
      modifies this`entriesByID, this`entriesByBareJID, this`notes, e.contact
      ensures Wf() && I.Inv(View()) && FewerEntries()
      ensures View() == M.DeleteEntry(old(View()), e.id)
    {
      hide Wf;
      hide View;
      hide I.InvBut;
      EntrySeen(e);
      var c := e.contact;
      ContactSeen(c);
      I.DeleteEntryInv(View(), e.id);
      OnlyListed(e);
      Counters();
      EachWithout(EntryId, c.entries, e) by { Indexed(); }
      Relist(c, Without(c.entries, e));
      Unfile(e);
      Notify(M.EntryRemoved(e.id));
    }

    /** Takes an entry no contact lists out of both indexes. */
    method Unfile(e: ContactEntry)
      requires Wf() && KnownE(e)
      requires forall i <- contactsByID :: e !in contactsByID[i].entries
      requires forall j <- entriesByBareJID :: j != e.jid ==> e !in entriesByBareJID[j]
      modifies this`entriesByID, this`entriesByBareJID
      ensures Wf() && FewerEntries()
      ensures var v := old(View()); View() == v.(entries := v.entries - {e.id}, byJid := M.DropIndexed(v.byJid, e.jid, e.id))
    {
      hide Wf;
      hide View;
      entriesByID := entriesByID - {e.id};
      entriesByBareJID := DropFiled(entriesByBareJID, e);
      EntryUnfiled(e);
    }

    /** An entry is listed by its own contact only, and indexed under its own address only. */
    lemma OnlyListed(e: ContactEntry)
      requires Wf() && I.Inv(View()) && KnownE(e)
      ensures forall i <- contactsByID :: contactsByID[i] != e.contact ==> e !in contactsByID[i].entries
      ensures forall j <- entriesByBareJID :: j != e.jid ==> e !in entriesByBareJID[j]
    {
      hide I.InvBut;
      forall i | i in contactsByID && contactsByID[i] != e.contact ensures e !in contactsByID[i].entries {
        var c := contactsByID[i];
        FiledAs(i, 0);
        ContactSeen(c);
        EntrySeen(e);
        I.KnownContact(View(), i);
        EntryIn(c.entries, e);
      }
      forall j | j in entriesByBareJID ensures forall f <- entriesByBareJID[j] :: f.jid == j {
        forall f | f in entriesByBareJID[j] ensures f.jid == j {
          EntryIndexed(j, f);
        }
      }
    }

    lemma EntryIn(es: seq<ContactEntry>, e: ContactEntry)
      requires KnownE(e) && forall f <- es :: KnownE(f)
      ensures e in es <==> e.id in EntryIds(es)
    {
      if e.id in EntryIds(es) {
        var i :| 0 <= i < |es| && EntryIds(es)[i] == e.id;
        assert es[i] in es;
      }
      if e in es {
        var i :| 0 <= i < |es| && es[i] == e;
        assert EntryIds(es)[i] == e.id;
      }
    }

    lemma EntryIndexed(j: string, f: ContactEntry)
      requires Wf() && I.Inv(View()) && j in entriesByBareJID && f in entriesByBareJID[j]
      ensures f.jid == j
    {
      hide I.InvBut;
      var i :| 0 <= i < |entriesByBareJID[j]| && entriesByBareJID[j][i] == f;
      assert View().byJid[j][i] == f.id;
      EntrySeen(f);
      I.IndexedEntry(View(), j, f.id);
    }

    method RosterEntryRemove(entryId: int, toServer: bool)
      requires Wf() && I.Inv(View())
      modifies this`entriesByID, this`entriesByBareJID, this`notes, this`sent, Objects()
      ensures Wf() && I.Inv(View()) && FewerEntries()
      ensures View() == M.EntryRemove(old(View()), entryId, toServer)
    {
      hide Wf;
      hide View;
      hide I.InvBut;
      hide M.DeleteEntry;
      Filed();
      if entryId !in entriesByID {
        return;
      }
      var e := entriesByID[entryId];
      Indexed();
      EntrySeen(e);
      var c := e.contact;
      ContactSeen(c);
      I.KnownContact(View(), c.id);
      GroupSeen(c.groups[0]);
      if toServer && c.groups[0].kind != M.NotInList && e.account in active {
        Transmit(M.RosterDelete(e.account, e.jid)) by { ActiveSeen(); }
      }
      ActiveSeen();
      I.SameGraphInv(old(View()), View());
      DeleteEntry(e);
    }

    lemma ActiveSeen()
      ensures View().active == active
    {
    }

    method RemoveEntries(es: seq<ContactEntry>, toServer: bool)
      requires Wf() && I.Inv(View()) && forall e <- es :: 0 <= e.id
      modifies this`entriesByID, this`entriesByBareJID, this`notes, this`sent, Objects()
      ensures Wf() && I.Inv(View()) && FewerEntries()
      ensures View() == M.RemoveEntries(old(View()), EntryIds(es), toServer)
    {
      hide Wf;
      hide View;
      hide I.InvBut;
      hide M.EntryRemove;
      ghost var ids := EntryIds(es);
      assert ids[..0] == [];
      for n := 0 to |es|
        invariant Wf() && I.Inv(View()) && FewerEntries()
        invariant View() == M.RemoveEntries(old(View()), ids[..n], toServer)
      {
        assert ids[..n + 1][..n] == ids[..n];
        RosterEntryRemove(es[n].id, toServer);
      }
      assert ids[..|es|] == ids;
    }

    method RosterContactRemove(contactId: int, toServer: bool)
      requires Wf() && I.Inv(View())
      modifies this, Objects()
      ensures Wf() && I.Inv(View()) && Fewer()
      ensures View() == M.ContactRemove(old(View()), contactId, toServer)
    {
      hide Wf;
      hide View;
      hide I.InvBut;
      hide M.RemoveEntries;
      hide M.DeleteContact;
      Filed();
      FiledAs(contactId, 0);
      if contactId !in contactsByID {
        return;
      }
      var c := contactsByID[contactId];
      ContactSeen(c);
      NonNegative(c.entries);
      O.RemoveEntriesEmpties(View(), contactId, toServer);
      RemoveEntries(c.entries, toServer);
      ContactSeen(c);
      assert EntryIds(c.entries) == [];
      assert forall g <- c.groups :: KnownG(g) && g in old(Objects());
      DeleteContact(c);
    }

    /** Nothing was filed, and no group taken out. */
    twostate predicate Fewer()
      reads this`groupsByID, this`contactsByID, this`entriesByID
    {
      groupsByID == old(groupsByID)
      && (forall i <- contactsByID :: i in old(contactsByID) && contactsByID[i] == old(contactsByID)[i])
      && (forall i <- entriesByID :: i in old(entriesByID) && entriesByID[i] == old(entriesByID)[i])
    }

    lemma NonNegative(es: seq<ContactEntry>)
      requires Wf() && forall e <- es :: KnownE(e)
      ensures forall e <- es :: 0 <= e.id
    {
    }

    method DeleteContact(c: Contact)
      requires Wf() && I.Inv(View()) && KnownC(c) && c.entries == []
      modifies this`contactsByID, this`contactsByMetacontactTag, this`notes, c.groups
      ensures Wf() && I.Inv(View()) && Fewer()
      ensures c.id in old(View()).contacts && View() == M.DeleteContact(old(View()), c.id)
    {
      hide Without;
      hide Wf;
      hide View;
      hide I.InvBut;
      hide M.DropFromGroups;
      ContactSeen(c);
      assert EntryIds(c.entries) == [];
      I.DeleteContactInv(View(), c.id);
      Unlisted(c);
      ListedBy(c);
      DropFromGroups(c);
      ContactSeen(c);
      label A:
      contactsByID := contactsByID - {c.id};
      if c.tag != "" {
        contactsByMetacontactTag := contactsByMetacontactTag - {c.tag};
      }
      ContactUnfiled@A(c);
      Notify(M.ContactRemoved(c.id));
    }

    /** A contact without entries is no entry's contact, and only its own tag leads to it. */
    lemma Unlisted(c: Contact)
      requires Wf() && I.Inv(View()) && KnownC(c) && c.entries == []
      ensures forall i <- entriesByID :: entriesByID[i].contact != c
      ensures forall t <- contactsByMetacontactTag :: contactsByMetacontactTag[t] == c ==> c.tag == t && t != ""
    {
      hide I.InvBut;
      ContactSeen(c);
      forall i | i in entriesByID ensures entriesByID[i].contact != c {
        Indexed();
        EntrySeen(entriesByID[i]);
        I.KnownEntry(View(), i);
      }
      forall t | t in contactsByMetacontactTag && contactsByMetacontactTag[t] == c ensures c.tag == t && t != "" {
        assert View().byTag[t] == c.id;
        I.TaggedContact(View(), t);
      }
    }

    lemma ListedBy(c: Contact)
      requires Wf() && I.Inv(View()) && KnownC(c)
      ensures forall i <- groupsByID :: c in groupsByID[i].contacts ==> groupsByID[i] in c.groups
    {
      hide I.InvBut;
      forall i | i in groupsByID && c in groupsByID[i].contacts ensures groupsByID[i] in c.groups {
        var g := groupsByID[i];
        FiledAs(0, i);
        GroupSeen(g);
        ContactSeen(c);
        ContactIn(g.contacts, c);
        GroupIn(c.groups, g);
        I.BothSides(View(), c.id, i);
      }
    }

    method DropFromGroups(c: Contact)
      requires Wf() && KnownC(c)
      modifies c.groups
      ensures Wf() && View() == M.DropFromGroups(old(View()), c.id, GroupIds(c.groups))
      ensures forall g <- c.groups :: c !in g.contacts
    {
      hide Wf;
      hide View;
      hide Without;
      hide Each;
      hide M.SetGroup;
      hide M.DropFromGroups;
      ContactSeen(c);
      ghost var v, ids := View(), GroupIds(c.groups);
      DroppedNone(v, c.id);
      assert ids[..0] == [];
      for n := 0 to |c.groups|
        invariant Wf() && View() == M.DropFromGroups(v, c.id, ids[..n])
        invariant forall k :: 0 <= k < n ==> c !in c.groups[k].contacts
      {
        DroppedNext(v, c.id, ids, n);
        assert c.groups[n] in c.groups && KnownG(c.groups[n]);
        DropOne(c, c.groups[n]);
      }
      assert ids[..|c.groups|] == ids;
    }

    static lemma DroppedNone(v: M.Roster, c: int)
      ensures M.DropFromGroups(v, c, []) == v
    {
    }

    static lemma DroppedNext(v: M.Roster, c: int, ids: seq<int>, n: nat)
      requires n < |ids|
      ensures var t := M.DropFromGroups(v, c, ids[..n]);
              ids[n] in t.groups ==>
                M.DropFromGroups(v, c, ids[..n + 1]) == M.SetGroup(t, ids[n], t.groups[ids[n]].(contacts := Without(t.groups[ids[n]].contacts, c)))
    {
      assert ids[..n + 1][..n] == ids[..n];
    }

    method DropOne(c: Contact, g: Group)
      requires Wf() && KnownC(c) && KnownG(g)
      modifies g`contacts
      ensures Wf() && g.contacts == Without(old(g.contacts), c) && g.id in old(View()).groups
      ensures var v := old(View());
              View() == M.SetGroup(v, g.id, v.groups[g.id].(contacts := Without(v.groups[g.id].contacts, c.id)))
    {
      hide Wf;
      hide View;
      GroupSeen(g);
      EachWithout(ContactId, g.contacts, c);
      g.contacts := Without(g.contacts, c);
      GroupWritten(g);
    }

    // ---- entries ------------------------------------------------------------------------------

    method NewEntry(v: M.Entry, c: Contact, pos: int) returns (e: ContactEntry)
      requires Wf() && KnownC(c) && v.contact == c.id
      modifies this`entriesByID, this`entriesByBareJID, this`idEntry, this`notes, c
      ensures Wf() && KnownE(e) && Stable() && groupsByID == old(groupsByID) && contactsByID == old(contactsByID)
      ensures e.id == old(idEntry)
      ensures c.id in old(View()).contacts && View() == M.NewEntry(old(View()), v, pos)
    {
      hide Wf;
      hide View;
      hide Stable;
      hide Place;
      hide Each;
      hide M.NewEntry;
      ContactSeen(c);
      Counters();
      ghost var r := View();
      e := FileEntry(v, c);
      assert EntryOf(e) == v;
      ContactSeen(c);
      EachPlace(EntryId, c.entries, pos, e);
      Relist(c, Place(c.entries, pos, e));
      Notify(M.EntryAdded(c.id, e.id, M.EntryProps(e.account, e.jid, e.sub, e.ask)));
      NewEntryIs(r, v, pos);
    }

    static lemma NewEntryIs(r: M.Roster, v: M.Entry, pos: int)
      requires v.contact in r.contacts
      ensures var n, listed := r.nextEntry, if v.jid in r.byJid then r.byJid[v.jid] else [];
              var t := M.SetEntry(r, n, v).(byJid := r.byJid[v.jid := [n] + listed], nextEntry := n + 1);
              var u := M.SetContact(t, v.contact, t.contacts[v.contact].(entries := Place(t.contacts[v.contact].entries, pos, n)));
              M.NewEntry(r, v, pos) == M.Queue(u, M.EntryAdded(v.contact, n, M.Props(v)))
    {
    }

    method FileEntry(v: M.Entry, c: Contact) returns (e: ContactEntry)
      requires Wf() && KnownC(c) && v.contact == c.id
      modifies this`entriesByID, this`entriesByBareJID, this`idEntry
      ensures Wf() && KnownE(e) && Stable() && groupsByID == old(groupsByID) && contactsByID == old(contactsByID)
      ensures e.id == old(idEntry) && EntryOf(e) == v && e.contact == c && fresh(e)
      ensures var r := old(View());
              View() == M.SetEntry(r, r.nextEntry, v).(
                byJid := r.byJid[v.jid := [r.nextEntry] + if v.jid in r.byJid then r.byJid[v.jid] else []], nextEntry := r.nextEntry + 1)
    {
      hide Wf;
      hide View;
      hide Stable;
      Counters();
      e := new ContactEntry(idEntry, v, c);
      idEntry := idEntry + 1;
      entriesByID := entriesByID[e.id := e];
      entriesByBareJID := entriesByBareJID[e.jid := [e] + if e.jid in entriesByBareJID then entriesByBareJID[e.jid] else []];
      EntryFiled(e);
      Indexed();
      EntriesSettled({e});
    }

    method Relist(c: Contact, es: seq<ContactEntry>)
      requires Wf() && KnownC(c) && forall e <- es :: KnownE(e)
      modifies c`entries
      ensures Wf() && c.entries == es && c.id in old(View()).contacts
      ensures View() == M.SetContact(old(View()), c.id, old(View()).contacts[c.id].(entries := EntryIds(es)))
    {
      hide Wf;
      hide View;
      ContactSeen(c);
      c.entries := es;
      ContactWritten(c);
    }

    method PointTo(e: ContactEntry, to: Contact)
      requires Wf() && KnownE(e) && KnownC(to)
      modifies e`contact
      ensures Wf() && e.contact == to && e.id in old(View()).entries
      ensures View() == M.SetEntry(old(View()), e.id, old(View()).entries[e.id].(contact := to.id))
    {
      hide Wf;
      hide View;
      EntrySeen(e);
      e.contact := to;
      EntryWritten(e);
    }

    method MoveEntry(e: ContactEntry, to: Contact)
      requires Wf() && KnownE(e) && KnownC(to) && e.contact != to
      modifies this`notes, e`contact, e.contact`entries, to`entries
      ensures Wf() && SameObjects()
      ensures var v := old(View());
              e.id in v.entries && v.entries[e.id].contact in v.contacts && to.id in v.contacts && View() == M.MoveEntry(v, e.id, to.id)
      ensures e.contact == to && old(e.contact).entries == Without(old(e.contact.entries), e)
    {
      hide Each;
      hide Wf;
      hide View;
      hide Without;
      EntrySeen(e);
      var was := e.contact;
      ContactSeen(was);
      ContactSeen(to);
      Indexed();
      EachWithout(EntryId, was.entries, e);
      EachNext(EntryId, to.entries, e);
      Relist(was, Without(was.entries, e));
      Relist(to, to.entries + [e]);
      PointTo(e, to);
      Notify(M.EntryContactChanged(e.id, was.id, to.id));
    }

    method UserNames(gs: seq<Group>) returns (names: seq<string>)
      requires Wf() && forall g <- gs :: KnownG(g)
      ensures names == M.UserNames(GroupIds(gs), View().groups)
    {
      hide Wf;
      hide View;
      names := [];
      ghost var ids := GroupIds(gs);
      assert ids[..0] == [];
      for n := 0 to |gs|
        invariant names == M.UserNames(ids[..n], View().groups)
      {
        assert ids[..n + 1][..n] == ids[..n];
        assert gs[n] in gs;
        GroupSeen(gs[n]);
        if gs[n].kind == M.User {
          names := names + [gs[n].name];
        }
      }
      assert ids[..|gs|] == ids;
    }

    method RosterEntryChangeContact(entryId: int, oldId: int, newId: int)
      requires Wf()
      modifies this`notes, this`sent, Objects()
      ensures Wf() && SameObjects()
      ensures View() == M.EntryChangeContact(old(View()), entryId, oldId, newId)
    {
      hide Wf;
      hide View;
      hide M.MoveEntry;
      Filed();
      Indexed();
      if entryId !in entriesByID || oldId !in contactsByID || newId !in contactsByID {
        return;
      }
      var e, from, to := entriesByID[entryId], contactsByID[oldId], contactsByID[newId];
      EntrySeen(e);
      ContactSeen(to);
      if e.contact != from || from == to {
        return;
      }
      TakeTexts(e, to);
      Transmit(M.RosterSet(e.account, e.jid, e.name, e.groups));
      MoveEntry(e, to);
    }

    /** The entry takes over the contact's name and the names of its user groups. */
    method TakeTexts(e: ContactEntry, to: Contact)
      requires Wf() && KnownE(e) && KnownC(to)
      modifies e`name, e`groups, e`mainGroup
      ensures Wf() && e.id in old(View()).entries && to.id in old(View()).contacts
      ensures var v := old(View()); var names := M.UserNames(v.contacts[to.id].groups, v.groups);
              e.name == v.contacts[to.id].name && e.groups == names
              && View() == M.SetEntry(v, e.id, v.entries[e.id].(name := e.name, groups := names, mainGroup := M.First(names)))
    {
      hide Wf;
      hide View;
      hide M.UserNames;
      EntrySeen(e);
      ContactSeen(to);
      var names := UserNames(to.groups);
      e.name := to.name;
      e.groups := names;
      e.mainGroup := M.First(names);
      EntryWritten(e);
    }

    method RosterEntryAdd(contactId: int, account: int, address: string, nick: string, reason: string, pos: int) returns (id: int)
      requires Wf() && I.Inv(View())
      modifies this, Objects()
      ensures Wf()
      ensures View() == M.EntryAdd(old(View()), contactId, account, address, nick, reason, pos)
      ensures id == M.EntryAddId(old(View()), contactId, account, address)
    {
      hide Wf;
      hide View;
      hide I.InvBut;
      hide M.EntryChangeContact;
      hide M.NewEntry;
      hide M.FindEntry;
      hide M.ContactRemove;
      Filed();
      FiledAs(contactId, 0);
      if address == "" || contactId !in contactsByID {
        return -1;
      }
      var c := contactsByID[contactId];
      var e := FindEntry(account, address);
      if e != null {
        EntrySeen(e);
        id := e.id;
        if e.contact != c {
          TakeEntry(e, c, nick, reason);
        }
      } else {
        Counters();
        id := idEntry;
        AddFresh(c, account, address, nick, reason, pos);
      }
    }

    /** Moves an entry that is there already; someone not in the list yet is asked for a subscription. */
    method TakeEntry(e: ContactEntry, c: Contact, nick: string, reason: string)
      requires Wf() && I.Inv(View()) && KnownE(e) && KnownC(c) && e.contact != c
      modifies this, Objects()
      ensures Wf()
      ensures var v := old(View()); var from := old(e.contact).id;
              var t := M.EntryChangeContact(v, e.id, from, c.id);
              var u := if from in t.contacts && t.contacts[from].entries == [] then M.ContactRemove(t, from, true) else t;
              View() == if !M.InList(v, from) then M.Send(u, M.Subscribe(e.account, e.jid, nick, reason)) else u
    {
      hide Wf;
      hide View;
      hide I.InvBut;
      hide M.EntryChangeContact;
      hide M.ContactRemove;
      EntrySeen(e);
      var from := e.contact;
      var listed := IsInList(from);
      ContactSeen(from);
      O.EntryChangeContactInv(View(), e.id, from.id, c.id);
      RosterEntryChangeContact(e.id, from.id, c.id);
      ContactSeen(from);
      if from.entries == [] {
        RosterContactRemove(from.id, true);
      }
      if !listed {
        Transmit(M.Subscribe(e.account, e.jid, nick, reason));
      }
    }

    method IsInList(c: Contact) returns (r: bool)
      requires Wf() && KnownC(c)
      ensures r == M.InList(View(), c.id)
    {
      hide Wf;
      hide View;
      ContactSeen(c);
      if c.groups == [] {
        return false;
      }
      GroupSeen(c.groups[0]);
      r := c.groups[0].kind != M.NotInList;
    }

    /** A new entry takes the name of its contact and of the contact's first group. */
    method FreshTexts(c: Contact, account: int, jid: string) returns (n: M.Entry)
      requires Wf() && KnownC(c)
      ensures c.id in View().contacts && n == M.FreshEntry(View(), c.id, account, jid)
      ensures n.account == account && n.jid == jid && n.contact == c.id
    {
      hide Wf;
      hide View;
      ContactSeen(c);
      var names := [];
      if c.groups != [] {
        GroupSeen(c.groups[0]);
        if c.groups[0].kind == M.User {
          names := [c.groups[0].name];
        }
      }
      n := M.Entry(account, jid, c.name, "none", false, names, M.First(names), c.id);
    }

    method AddFresh(c: Contact, account: int, jid: string, nick: string, reason: string, pos: int)
      requires Wf() && KnownC(c)
      modifies this`entriesByID, this`entriesByBareJID, this`idEntry, this`notes, this`sent, c
      ensures Wf()
      ensures c.id in old(View()).contacts
      ensures var v := old(View());
              var n := M.FreshEntry(v, c.id, account, jid);
              View() == M.NewEntry(if M.InList(v, c.id) then M.Send(M.Send(v, M.Commit(n)), M.Subscribe(account, jid, nick, reason)) else v, n, pos)
    {
      hide Wf;
      hide View;
      hide M.NewEntry;
      hide M.FreshEntry;
      hide M.InList;
      ContactSeen(c);
      var n := FreshTexts(c, account, jid);
      var listed := IsInList(c);
      if listed {
        Transmit(M.RosterSet(account, jid, n.name, n.groups));
        Transmit(M.Subscribe(account, jid, nick, reason));
      }
      var e := NewEntry(n, c, pos);
    }

    // ---- roster pushes ------------------------------------------------------------------------

    method EnsureGroup(item: M.Item) returns (g: Group)
      requires Wf() && I.GroupsOk(View().order, View().groups, View().nextGroup) && O.ItemOk(item)
      modifies this`groups, this`groupsByID, this`idGroup, this`notes
      ensures Wf() && Stable() && contactsByID == old(contactsByID) && entriesByID == old(entriesByID)
      ensures forall i <- old(groupsByID) :: i in groupsByID
      ensures KnownG(g) && g.id == M.EnsuredGroup(old(View()), item)
      ensures View() == M.EnsureGroup(old(View()), item)
    {
      hide Wf;
      hide View;
      hide M.FindGroup;
      hide M.GroupAdd;
      var f := FindGroup(if item.groups == [] then M.NoGroup else M.User, if item.groups == [] then M.GENERAL else item.groups[0]);
      if f != null {
        GroupSeen(f);
        return f;
      }
      I.BuiltIns(View());
      var id := RosterGroupAdd(item.groups[0], -1);
      M.AddedGroup(old(View()), item.groups[0], -1);
      Filed();
      Indexed();
      g := groupsByID[id];
    }

    method ClientRosterItemAdded(account: int, item: M.Item)
      requires Wf() && I.Inv(View()) && O.ItemOk(item) && O.AdoptOk(View(), account, item)
      modifies this, Objects()
      ensures Wf()
      ensures View() == M.ItemAdded(old(View()), account, item)
    {
      hide Wf;
      hide View;
      hide I.InvBut;
      hide M.FindEntry;
      hide M.FindGroup;
      hide M.EnsureGroup;
      hide M.EnsuredGroup;
      hide M.InList;
      hide M.AdoptGroups;
      hide M.NewEntry;
      hide M.ContactAdd;
      hide M.ContactAddId;
      hide M.FindContact;
      hide M.Link;
      hide M.Unlink;
      hide M.Queue;
      var e := FindEntry(account, item.jid);
      if e != null {
        EntrySeen(e);
        var listed := IsInList(e.contact);
        if listed {
          return;
        }
      }
      O.EnsureGroupInv(View(), item);
      if e != null {
        HeadSeen(e);
      }
      var g := EnsureGroup(item);
      GroupSeen(g);
      if e != null {
        EntrySeen(e);
        Adopt(e, g, item);
      } else {
        AddPushed(account, item, g);
      }
    }

    lemma HeadSeen(e: ContactEntry)
      requires Wf() && KnownE(e)
      ensures e.contact.id in View().contacts
      ensures View().contacts[e.contact.id].entries == EntryIds(e.contact.entries)
      ensures e.contact.entries != [] && e.contact.entries[0].id == e.id ==> e.contact.entries[0] == e
    {
      if e.contact.entries != [] {
        assert e.contact.entries[0] in e.contact.entries;
      }
    }

    /** A hidden entry comes into the list with its contact. */
    method Adopt(e: ContactEntry, g: Group, item: M.Item)
      requires Wf() && I.Inv(View()) && KnownE(e) && KnownG(g)
      requires item.groups != [] || e.groups == [] || (e.contact.entries != [] && e.contact.entries[0] == e)
      modifies this`notes, Objects()
      ensures Wf()
      ensures var t := old(View()); var c := old(e.contact).id;
              c in t.contacts && e.id in t.entries && M.FindGroup(t.order, t.groups, M.NotInList, M.NOT_IN_LIST) == 1
              && 1 in t.groups && g.id in t.groups && e.id != -1 && t.entries[e.id].contact == c
      ensures var t := old(View()); var c := old(e.contact).id;
              var u := M.Queue(M.Link(M.Unlink(t, c, 1), c, g.id), M.ContactGroupChanged(c, 1, g.id));
              e.id in u.entries && c in u.contacts
              && View() == M.AdoptGroups(M.SetEntry(u, e.id, u.entries[e.id].(sub := item.sub, ask := item.ask)), u.contacts[c].entries, e.id, item)
    {
      hide Wf;
      hide View;
      hide I.InvBut;
      hide M.AdoptGroups;
      hide M.FindGroup;
      hide M.Link;
      hide M.Unlink;
      EntrySeen(e);
      var c := e.contact;
      var es := c.entries;
      ContactSeen(c);
      AllFiled(es);
      Unhide(c, g);
      TakeStatus(e, item);
      ContactSeen(c);
      AdoptGroups(es, e, item);
    }

    lemma AllFiled(es: seq<ContactEntry>)
      requires forall d <- es :: KnownE(d)
      ensures forall d <- es :: d in Objects()
    {
    }

    method Unhide(c: Contact, g: Group)
      requires Wf() && I.Inv(View()) && KnownC(c) && KnownG(g)
      modifies this`notes, c`groups, set i <- groupsByID :: groupsByID[i]
      ensures Wf() && SameObjects()
      ensures var t := old(View());
              c.id in t.contacts && M.FindGroup(t.order, t.groups, M.NotInList, M.NOT_IN_LIST) == 1 && 1 in t.groups && g.id in t.groups
              && M.Link(M.Unlink(t, c.id, 1), c.id, g.id).entries == t.entries
              && c.id in M.Link(M.Unlink(t, c.id, 1), c.id, g.id).contacts
              && M.Link(M.Unlink(t, c.id, 1), c.id, g.id).contacts[c.id].entries == t.contacts[c.id].entries
              && View() == M.Queue(M.Link(M.Unlink(t, c.id, 1), c.id, g.id), M.ContactGroupChanged(c.id, 1, g.id))
    {
      hide Wf;
      hide View;
      hide I.InvBut;
      hide M.FindGroup;
      hide M.Link;
      hide M.Unlink;
      hide Without;
      O.General(View(), -1);
      var hidden := FindGroup(M.NotInList, M.NOT_IN_LIST);
      GroupSeen(g);
      GroupSeen(hidden);
      ContactSeen(c);
      M.RelinkKeeps(View(), c.id, 1, g.id);
      DropLink(c, hidden);
      AddLink(c, g);
      Notify(M.ContactGroupChanged(c.id, hidden.id, g.id));
    }

    method TakeStatus(e: ContactEntry, item: M.Item)
      requires Wf() && KnownE(e)
      modifies e`sub, e`ask
      ensures Wf() && e.id in old(View()).entries
      ensures View() == M.SetEntry(old(View()), e.id, old(View()).entries[e.id].(sub := item.sub, ask := item.ask))
    {
      hide Wf;
      hide View;
      EntrySeen(e);
      e.sub := item.sub;
      e.ask := item.ask;
      EntryWritten(e);
    }

    method AdoptGroups(es: seq<ContactEntry>, e: ContactEntry, item: M.Item)
      requires Wf() && KnownE(e) && forall d <- es :: KnownE(d)
      requires item.groups != [] || e.groups == [] || (es != [] && es[0] == e)
      modifies this`notes, es
      ensures Wf() && e.id in old(View()).entries
      ensures View() == M.AdoptGroups(old(View()), EntryIds(es), e.id, item)
    {
      hide Wf;
      hide View;
      EntrySeen(e);
      ghost var ids := EntryIds(es);
      NothingAdopted(View(), e.id, item);
      hide M.AdoptGroups;
      hide M.Queue;
      hide M.SetEntry;
      hide M.First;
      assert ids[..0] == [];
      for n := 0 to |es|
        invariant Wf() && e.id in old(View()).entries
        invariant if n == 0 then e.groups == old(e.groups) else item.groups == [] ==> e.groups == []
        invariant View() == M.AdoptGroups(old(View()), ids[..n], e.id, item)
      {
        AdoptedNext(old(View()), ids, n, e.id, item);
        assert es[n] in es && KnownE(es[n]);
        EntrySeen(es[n]);
        AdoptOne(es[n], e, item);
      }
      assert ids[..|es|] == ids;
    }

    method AdoptOne(d: ContactEntry, e: ContactEntry, item: M.Item)
      requires Wf() && KnownE(e) && KnownE(d)
      requires item.groups != [] || e.groups == [] || d == e
      modifies this`notes, d`groups, d`mainGroup
      ensures Wf() && e.id in old(View()).entries && d.id in old(View()).entries
      ensures item.groups == [] ==> e.groups == []
      ensures var t := old(View());
              var known := if d.id == e.id then item.groups else t.entries[e.id].groups;
              var v := t.entries[d.id].(groups := item.groups, mainGroup := if known == [] then "" else M.First(item.groups));
              View() == M.Queue(M.SetEntry(t, d.id, v), M.EntryChanged(d.id, M.Props(v)))
    {
      hide Wf;
      hide View;
      EntrySeen(d);
      EntrySeen(e);
      d.groups := item.groups;
      d.mainGroup := if e.groups == [] then "" else d.groups[0];
      EntryWritten(d);
      Notify(M.EntryChanged(d.id, M.EntryProps(d.account, d.jid, d.sub, d.ask)));
    }

    method AddPushed(account: int, item: M.Item, g: Group)
      requires Wf() && KnownG(g) && O.ItemOk(item)
      modifies this, Objects()
      ensures Wf() && g.id in old(View()).groups
      ensures var t := old(View());
              var name := M.PushedEntry(account, item, 0).name;
              var found := M.FindContact(t, name, t.groups[g.id].name, t.groups[g.id].kind);
              var u := if found != -1 then t else M.ContactAdd(t, g.id, name, -1);
              var c := if found != -1 then found else M.ContactAddId(t, g.id, name);
              c in u.contacts && View() == M.NewEntry(u, M.PushedEntry(account, item, c), -1)
    {
      hide Wf;
      hide View;
      hide M.NewEntry;
      hide M.ContactAdd;
      hide M.FindContact;
      hide M.ContactAddId;
      GroupSeen(g);
      var name := if item.name == "" then item.jid else item.name;
      var c := EnsureContact(g, name);
      ContactSeen(c);
      var main := if item.groups == [] then "" else item.groups[0];
      var e := NewEntry(M.Entry(account, item.jid, name, item.sub, item.ask, item.groups, main, c.id), c, -1);
    }

    /** The contact of that name in the group, made if there is none. */
    method EnsureContact(g: Group, name: string) returns (c: Contact)
      requires Wf() && KnownG(g) && name != ""
      modifies this`contactsByID, this`idContact, this`notes, this`sent, Objects()
      ensures Wf() && Stable() && groupsByID == old(groupsByID) && entriesByID == old(entriesByID) && KnownC(c)
      ensures forall i <- old(contactsByID) :: i in contactsByID
      ensures g.id in old(View()).groups
      ensures var t := old(View());
              var found := M.FindContact(t, name, t.groups[g.id].name, t.groups[g.id].kind);
              c.id == (if found != -1 then found else M.ContactAddId(t, g.id, name))
              && View() == if found != -1 then t else M.ContactAdd(t, g.id, name, -1)
    {
      hide Wf;
      hide View;
      hide M.ContactAdd;
      hide M.FindContact;
      hide M.ContactAddId;
      GroupSeen(g);
      Filed();
      var f := FindContact(name, g.name, g.kind);
      if f != null {
        return f;
      }
      M.AddedContact(View(), g.id, name, -1);
      var id := RosterContactAdd(g.id, name, -1);
      Filed();
      Indexed();
      c := contactsByID[id];
    }

    method ClientRosterItemUpdated(account: int, item: M.Item)
      requires Wf() && I.Inv(View()) && O.ItemOk(item) && O.UpdateOk(View(), account, item)
      modifies this, Objects()
      ensures Wf()
      ensures View() == M.ItemUpdated(old(View()), account, item)
    {
      hide Wf;
      hide View;
      hide I.InvBut;
      hide M.FindEntry;
      hide M.EnsureGroup;
      hide M.EnsuredGroup;
      hide M.FindContact;
      hide M.ContactAdd;
      hide M.ContactAddId;
      hide M.Rehome;
      var e := FindEntry(account, item.jid);
      if e == null {
        return;
      }
      EntrySeen(e);
      ghost var v := EntryOf(e);
      I.KnownEntry(View(), e.id);
      O.UpdatedEntryOk(v, item);
      I.SetEntryInv(View(), e.id, M.UpdatedEntry(v, item), -1);
      O.EnsureGroupInv(M.SetEntry(View(), e.id, M.UpdatedEntry(v, item)), item);
      M.EnsuredSame(View(), e.id, M.UpdatedEntry(v, item), item);
      var changed := UpdateEntry(e, item);
      EntrySeen(e);
      if changed {
        Regroup(e, item);
      }
      EntrySeen(e);
      Notify(M.EntryChanged(e.id, M.EntryProps(e.account, e.jid, e.sub, e.ask)));
    }

    /** Takes over what the push says about the entry itself, and tells whether its group changes. */
    method UpdateEntry(e: ContactEntry, item: M.Item) returns (groupChanged: bool)
      requires Wf() && KnownE(e)
      modifies e`sub, e`ask, e`groups, e`mainGroup, e`name
      ensures Wf() && SameObjects() && e.id in old(View()).entries && groupChanged == M.ChangesGroup(old(View()).entries[e.id], item)
      ensures View() == M.SetEntry(old(View()), e.id, M.UpdatedEntry(old(View()).entries[e.id], item))
    {
      hide Wf;
      hide View;
      EntrySeen(e);
      e.sub := item.sub;
      e.ask := item.ask;
      groupChanged := (e.groups == [] && item.groups != []) || (e.groups != [] && e.mainGroup !in item.groups);
      if groupChanged {
        e.mainGroup := if item.groups == [] then "" else item.groups[0];
      }
      e.groups := item.groups;
      if item.name != "" && e.name != item.name {
        e.name := item.name;
      }
      EntryWritten(e);
    }

    method Regroup(e: ContactEntry, item: M.Item)
      requires Wf() && I.Inv(View()) && KnownE(e) && O.ItemOk(item) && e.name != ""
      modifies this, Objects()
      ensures Wf() && KnownE(e)
      ensures e.id in old(View()).entries
      ensures var r := old(View()); var v := r.entries[e.id];
              var t, g := M.EnsureGroup(r, item), M.EnsuredGroup(r, item);
              g in t.groups &&
              var found := M.FindContact(t, v.name, t.groups[g].name, t.groups[g].kind);
              var u := if found != -1 then t else M.ContactAdd(t, g, v.name, -1);
              var to := if found != -1 then found else M.ContactAddId(t, g, v.name);
              e.id in u.entries && View() == M.Rehome(u, e.id, to)
    {
      hide Wf;
      hide View;
      hide I.InvBut;
      hide M.EnsureGroup;
      hide M.EnsuredGroup;
      hide M.FindContact;
      hide M.ContactAdd;
      hide M.ContactAddId;
      hide M.Rehome;
      EntrySeen(e);
      O.EnsureGroupInv(View(), item);
      var g := EnsureGroup(item);
      GroupSeen(g);
      EntrySeen(e);
      ghost var t := View();
      O.ContactAddInv(t, g.id, e.name, -1);
      var to := EnsureContact(g, e.name);
      EntrySeen(e);
      Rehome(e, to);
    }

    /** Moves the entry unless it is there already, and deletes the contact it leaves empty. */
    method Rehome(e: ContactEntry, to: Contact)
      requires Wf() && I.Inv(View()) && KnownE(e) && KnownC(to)
      modifies this, Objects()
      ensures Wf() && KnownE(e) && e.contact == to
      ensures e.id in old(View()).entries && View() == M.Rehome(old(View()), e.id, to.id)
    {
      hide Wf;
      hide View;
      hide I.InvBut;
      hide M.MoveEntry;
      hide M.ContactRemove;
      EntrySeen(e);
      ContactSeen(to);
      var from := e.contact;
      ContactSeen(from);
      if from != to {
        I.MoveEntryInv(View(), e.id, to.id);
        MoveEntry(e, to);
        ContactSeen(from);
        if from.entries == [] {
          O.EmptyContactRemoveKeeps(View(), from.id, true);
          EntrySeen(e);
          label A:
          RosterContactRemove(from.id, true);
          Filed();
          assert View().entries == old@A(View()).entries;
          assert e.id in entriesByID;
          EntrySeen(e);
          assert e.contact.id == to.id;
        }
      }
    }

    method ClientRosterItemRemoved(account: int, item: M.Item)
      requires Wf() && I.Inv(View())
      modifies this, Objects()
      ensures Wf()
      ensures View() == M.ItemRemoved(old(View()), account, item)
    {
      hide Wf;
      hide View;
      hide I.InvBut;
      hide M.FindEntry;
      hide M.DeleteEntry;
      hide M.ContactRemove;
      var e := FindEntry(account, item.jid);
      if e == null {
        return;
      }
      EntrySeen(e);
      var c := e.contact;
      ContactSeen(c);
      DeleteEntry(e);
      ContactSeen(c);
      if c.entries == [] {
        RosterContactRemove(c.id, true);
      }
    }

    // ---- people not in the list ------------------------------------------------------------------

    /** Makes a hidden contact holding one entry. */
    method AddHidden(account: int, jid: string, contactName: string, entryName: string) returns (e: ContactEntry)
      requires Wf() && I.Inv(View())
      modifies this, Objects()
      ensures Wf() && KnownE(e) && e.id == old(View()).nextEntry
      ensures View() == M.AddHidden(old(View()), account, jid, contactName, entryName)
    {
      hide Wf;
      hide View;
      hide I.InvBut;
      hide M.NewContact;
      hide M.NewEntry;
      O.General(View(), -1);
      Counters();
      var g := FindGroup(M.NotInList, M.NOT_IN_LIST);
      GroupSeen(g);
      var c := NewContact(g, contactName, -1);
      ContactSeen(c);
      Counters();
      e := NewEntry(M.Entry(account, jid, entryName, "none", false, [], "", c.id), c, -1);
    }

    method ClientSubscription(account: int, jid: string, kind: M.SubscriptionType, nick: string, reason: string)
      requires Wf() && I.Inv(View())
      modifies this, Objects()
      ensures Wf()
      ensures View() == M.Subscription(old(View()), account, jid, kind, nick, reason)
    {
      hide Wf;
      hide View;
      hide I.InvBut;
      hide M.FindEntry;
      hide M.AddHidden;
      var e := FindEntry(account, jid);
      if e == null {
        var name := if nick == "" then jid else nick;
        e := AddHidden(account, jid, name, name);
      }
      EntrySeen(e);
      match kind {
        case SubscribeRequest => Notify(M.AuthRequest(e.id, nick, reason));
        case Subscribed => Notify(M.AuthGranted(e.id));
        case Unsubscribed => Notify(M.AuthLost(e.id));
        case OtherType =>
      }
    }

    /** The entry a chat from that address belongs to, made if there is none. */
    method EntryForChat(account: int, jid: string) returns (e: ContactEntry)
      requires Wf() && I.Inv(View())
      modifies this, Objects()
      ensures Wf() && KnownE(e) && View() == M.ChatFrom(old(View()), account, jid)
    {
      hide Wf;
      hide View;
      hide I.InvBut;
      hide M.FindEntry;
      hide M.AddHidden;
      var f := FindEntry(account, jid);
      if f != null {
        EntrySeen(f);
        return f;
      }
      e := AddHidden(account, jid, jid, "");
    }

    // ---- metacontacts ----------------------------------------------------------------------------

    /** Files the contact under a tag instead of the one it had. */
    method Retag(c: Contact, tag: string)
      requires Wf() && KnownC(c)
      modifies this`contactsByMetacontactTag, c`tag
      ensures Wf() && SameObjects() && c.id in old(View()).contacts
      ensures View() == M.Retag(old(View()), c.id, tag)
    {
      hide Wf;
      hide View;
      ContactSeen(c);
      var was := c.tag;
      c.tag := tag;
      ContactWritten(c);
      FileTag(was, tag, c);
    }

    method FileTag(was: string, tag: string, c: Contact)
      requires Wf() && KnownC(c)
      modifies this`contactsByMetacontactTag
      ensures Wf()
      ensures View() == old(View()).(byTag := (if was != "" then old(View()).byTag - {was} else old(View()).byTag)[tag := c.id])
    {
      hide GroupsView;
      hide ContactsView;
      hide EntriesView;
      hide JidsView;
      hide GroupsWf;
      hide EntriesWf;
      var kept := contactsByMetacontactTag;
      if was != "" {
        kept := kept - {was};
      }
      contactsByMetacontactTag := kept[tag := c];
      assert TagsView() == (if was != "" then old(TagsView()) - {was} else old(TagsView()))[tag := c.id];
    }

    /** Tells the directories of the contact's entries its tag; the entries whose directory reports
        the change back are announced again. */
    method TellDirectories(c: Contact, changed: set<int>)
      requires Wf() && KnownC(c)
      modifies this`notes
      ensures Wf() && SameObjects() && c.id in old(View()).contacts
      ensures View() == M.ReportEntries(old(View()), M.Changed(old(View()).contacts[c.id].entries, changed))
    {
      hide Wf;
      hide View;
      ContactSeen(c);
      ghost var ids := EntryIds(c.entries);
      assert ids[..0] == [];
      for n := 0 to |c.entries|
        invariant Wf() && View() == M.ReportEntries(old(View()), M.Changed(ids[..n], changed))
      {
        assert ids[..n + 1][..n] == ids[..n] && ids[..n + 1][n] == c.entries[n].id;
        var e := c.entries[n];
        assert e in c.entries;
        ContactSeen(c);
        EntrySeen(e);
        ghost var rest := M.Changed(ids[..n], changed);
        assert (rest + [e.id])[..|rest|] == rest;
        if e.id in changed {
          Notify(M.EntryChanged(e.id, M.EntryProps(e.account, e.jid, e.sub, e.ask)));
        }
      }
      assert ids[..|c.entries|] == ids;
    }

    method MintTag(contactId: int, uuid: string, changed: set<int>)
      requires Wf()
      modifies this`contactsByMetacontactTag, this`notes, Objects()
      ensures Wf() && SameObjects()
      ensures View() == M.MintTag(old(View()), contactId, uuid, changed)
    {
      hide Wf;
      hide View;
      hide M.ReportEntries;
      hide M.Changed;
      Filed();
      FiledAs(contactId, 0);
      if contactId in contactsByID {
        var c := contactsByID[contactId];
        if c.tag == "" {
          Retag(c, uuid);
          TellDirectories(c, changed);
        }
      }
    }

    method MetacontactInfoForJIDDidChange(account: int, jid: string, tag: string, changed: set<int>)
      requires Wf() && Mirror.Sound(View()) && O.TagOk(View(), account, jid, tag)
      modifies this, Objects()
      ensures Wf()
      ensures View() == M.TagChanged(old(View()), account, jid, tag, changed)
    {
      hide Wf;
      hide View;
      hide I.InvBut;
      hide Mirror.Agrees;
      hide M.FindEntry;
      hide M.TagTarget;
      hide O.TagHome;
      hide M.Rehome;
      var e := FindEntry(account, jid);
      if e == null {
        return;
      }
      EntrySeen(e);
      ContactSeen(e.contact);
      I.KnownContact(View(), e.contact.id);
      O.TagChangedVia(View(), account, jid, tag, changed);
      if tag != e.contact.tag {
        O.TagTargetKnown(View(), e.id, tag);
        O.TagHomeSound(View(), e.id, tag, changed);
        TagHomeIs(View(), e.id, tag, changed);
        var found := TagContact(e, tag);
        var to := TagHome(e, found, tag, changed);
        EntrySeen(e);
        Rehome(e, to);
      }
      EntrySeen(e);
      Notify(M.EntryChanged(e.id, M.EntryProps(e.account, e.jid, e.sub, e.ask)));
    }

    static lemma TagHomeIs(v: M.Roster, e: int, tag: string, changed: set<int>)
      requires e in v.entries && v.entries[e].contact in v.contacts && v.contacts[v.entries[e].contact].groups != []
      ensures var found, g, name := M.TagTarget(v, e, tag), v.contacts[v.entries[e].contact].groups[0], v.entries[e].name;
              var t, to, home := M.ContactAdd(v, g, name, -1), M.ContactAddId(v, g, name), O.TagHome(v, e, tag, changed);
              && (found != -1 ==> home.0 == v && home.1 == found)
              && (found == -1 && to in t.contacts ==>
                    && home.0 == (if tag == "" then t else M.ReportEntries(M.Retag(t, to, tag), M.Changed(t.contacts[to].entries, changed)))
                    && home.1 == to)
    {
      hide M.TagTarget;
      hide M.ContactAdd;
      hide M.ContactAddId;
      hide M.ReportEntries;
      hide M.Retag;
    }

    /** The contact of that tag or, without one, the contact of the entry's own name, made if need be. */
    method TagHome(e: ContactEntry, found: Contact?, tag: string, changed: set<int>) returns (to: Contact)
      requires Wf() && I.Inv(View()) && KnownE(e) && tag != e.contact.tag
      requires e.id in View().entries && e.contact.id in View().contacts && View().entries[e.id].contact == e.contact.id
      requires View().contacts[e.contact.id].groups != []
      requires if M.TagTarget(View(), e.id, tag) == -1 then found == null && e.name != ""
               else found != null && KnownC(found) && found.id == M.TagTarget(View(), e.id, tag)
      modifies this, Objects()
      ensures Wf() && KnownE(e) && KnownC(to) && fresh(Objects() - old(Objects()))
      ensures var v := old(View());
              var found, g, name := M.TagTarget(v, e.id, tag), v.contacts[v.entries[e.id].contact].groups[0], v.entries[e.id].name;
              var t, id := M.ContactAdd(v, g, name, -1), M.ContactAddId(v, g, name);
              if found != -1 then View() == v && to.id == found
              else to.id == id && id in t.contacts
                   && View() == if tag == "" then t else M.ReportEntries(M.Retag(t, id, tag), M.Changed(t.contacts[id].entries, changed))
    {
      hide Each;
      hide Wf;
      hide View;
      hide M.Retag;
      hide I.InvBut;
      hide M.TagTarget;
      hide M.ContactAdd;
      hide M.ContactAddId;
      hide M.ReportEntries;
      hide M.Changed;
      EntrySeen(e);
      ContactSeen(e.contact);
      if found != null {
        ContactSeen(found);
        return found;
      }
      to := NewHome(e.contact.groups[0], e.name, tag, changed);
    }

    method NewHome(g: Group, name: string, tag: string, changed: set<int>) returns (to: Contact)
      requires Wf() && KnownG(g) && name != ""
      modifies this, Objects()
      ensures Wf() && KnownC(to) && entriesByID == old(entriesByID) && fresh(Objects() - old(Objects())) && g.id in old(View()).groups
      ensures var t := M.ContactAdd(old(View()), g.id, name, -1);
              to.id == M.ContactAddId(old(View()), g.id, name) && to.id in t.contacts
              && View() == if tag == "" then t else M.ReportEntries(M.Retag(t, to.id, tag), M.Changed(t.contacts[to.id].entries, changed))
    {
      hide Wf;
      hide View;
      hide M.ContactAdd;
      hide M.ContactAddId;
      hide M.Retag;
      hide M.ReportEntries;
      hide M.Changed;
      to := NamedContact(g, name);
      ContactSeen(to);
      TagNew(to, tag, changed);
    }

    method NamedContact(g: Group, name: string) returns (to: Contact)
      requires Wf() && KnownG(g) && name != ""
      modifies this`contactsByID, this`idContact, this`notes, this`sent, Objects()
      ensures Wf() && Stable() && entriesByID == old(entriesByID) && KnownC(to) && g.id in old(View()).groups
      ensures to.id == M.ContactAddId(old(View()), g.id, name) && View() == M.ContactAdd(old(View()), g.id, name, -1)
    {
      hide Wf;
      hide View;
      hide M.ContactAdd;
      hide M.ContactAddId;
      GroupSeen(g);
      M.AddedContact(View(), g.id, name, -1);
      var id := RosterContactAdd(g.id, name, -1);
      Filed();
      Indexed();
      to := contactsByID[id];
    }

    method TagNew(c: Contact, tag: string, changed: set<int>)
      requires Wf() && KnownC(c)
      modifies this`contactsByMetacontactTag, this`notes, c`tag
      ensures Wf() && SameObjects() && c.id in old(View()).contacts
      ensures var t := old(View());
              View() == if tag == "" then t else M.ReportEntries(M.Retag(t, c.id, tag), M.Changed(t.contacts[c.id].entries, changed))
    {
      hide Wf;
      hide View;
      hide M.ReportEntries;
      hide M.Changed;
      ContactSeen(c);
      if tag != "" {
        Retag(c, tag);
        TellDirectories(c, changed);
      }
    }

    method TagContact(e: ContactEntry, tag: string) returns (to: Contact?)
      requires Wf() && I.Inv(View()) && KnownE(e) && tag != e.contact.tag
      ensures e.id in View().entries && e.contact.id in View().contacts && View().entries[e.id].contact == e.contact.id
      ensures if M.TagTarget(View(), e.id, tag) == -1 then to == null else to != null && KnownC(to) && to.id == M.TagTarget(View(), e.id, tag)
    {
      hide Wf;
      hide View;
      hide I.InvBut;
      hide M.FindContact;
      EntrySeen(e);
      ContactSeen(e.contact);
      I.KnownContact(View(), e.contact.id);
      TagSeen(tag);
      if tag != "" {
        return if tag in contactsByMetacontactTag then contactsByMetacontactTag[tag] else null;
      }
      var g := e.contact.groups[0];
      GroupSeen(g);
      to := FindContact(e.name, g.name, g.kind);
      if to != null {
        ContactSeen(to);
        if to.tag != "" {
          to := null;
        }
      }
    }

    lemma TagSeen(tag: string)
      requires Wf()
      ensures tag in contactsByMetacontactTag <==> tag in View().byTag
      ensures tag in contactsByMetacontactTag ==>
                KnownC(contactsByMetacontactTag[tag]) && View().byTag[tag] == contactsByMetacontactTag[tag].id && 0 <= View().byTag[tag]
    {
    }

    // ---- accounts --------------------------------------------------------------------------------

    method SetActive(account: int, on: bool)
      requires Wf()
      modifies this`active
      ensures Wf() && View() == M.SetActive(old(View()), account, on)
    {
      hide Wf;
      hide GroupsView;
      hide ContactsView;
      hide EntriesView;
      active := if on then active + {account} else active - {account};
    }

    /** Removes entry `gone`, then what is empty of the contact and the main group entry `e` had. */
    method ClearOut(e: ContactEntry, gone: ContactEntry, toServer: bool)
      requires Wf() && I.Inv(View()) && KnownE(e) && KnownE(gone)
      modifies this, Objects()
      ensures Wf() && e.id in old(View()).entries && View() == M.ClearOut(old(View()), e.id, gone.id, toServer)
      ensures forall i <- entriesByID :: i in old(entriesByID) && entriesByID[i] == old(entriesByID)[i]
      ensures Objects() <= old(Objects())
    {
      hide Wf;
      hide View;
      hide I.InvBut;
      hide M.ClearOut;
      hide M.GroupRemove;
      hide M.FindGroup;
      hide WithoutEntry;
      EntrySeen(e);
      ClearIs(View(), e.id, gone.id, toServer);
      if e.mainGroup == "" {
        ClearContact(e, gone, toServer);
      } else {
        ClearBoth(e, gone, toServer);
      }
    }

    /** The group is looked up before the entry goes. */
    method ClearBoth(e: ContactEntry, gone: ContactEntry, toServer: bool)
      requires Wf() && I.Inv(View()) && KnownE(e) && KnownE(gone)
      modifies this, Objects()
      ensures Wf() && Objects() <= old(Objects())
      ensures forall i <- entriesByID :: i in old(entriesByID) && entriesByID[i] == old(entriesByID)[i]
      ensures var v := old(View());
              var u, g := WithoutEntry(v, old(e.contact).id, gone.id, toServer), M.FindGroup(v.order, v.groups, M.User, old(e.mainGroup));
              View() == if g != -1 && g in u.groups && u.groups[g].contacts == [] then M.GroupRemove(u, g) else u
    {
      hide Wf;
      hide View;
      hide I.InvBut;
      hide M.GroupRemove;
      hide M.FindGroup;
      hide WithoutEntry;
      EntrySeen(e);
      var g := FindGroup(M.User, e.mainGroup);
      ClearContact(e, gone, toServer);
      if g != null {
        SweepGroup(g);
      }
    }

    /** The roster without entry `gone`, and without contact `c` if that has no entry left. */
    static ghost function WithoutEntry(v: M.Roster, c: int, gone: int, toServer: bool): M.Roster {
      var t := M.EntryRemove(v, gone, toServer);
      if c in t.contacts && t.contacts[c].entries == [] then M.ContactRemove(t, c, toServer) else t
    }

    static lemma ClearIs(v: M.Roster, e: int, gone: int, toServer: bool)
      requires e in v.entries
      ensures var main, u := v.entries[e].mainGroup, WithoutEntry(v, v.entries[e].contact, gone, toServer);
              var g := if main == "" then -1 else M.FindGroup(v.order, v.groups, M.User, main);
              M.ClearOut(v, e, gone, toServer) == if g != -1 && g in u.groups && u.groups[g].contacts == [] then M.GroupRemove(u, g) else u
    {
      hide M.EntryRemove;
      hide M.ContactRemove;
      hide M.GroupRemove;
      hide M.FindGroup;
    }

    method SweepGroup(g: Group)
      requires Wf() && I.Inv(View()) && KnownG(g)
      modifies this, Objects()
      ensures Wf() && entriesByID == old(entriesByID) && Objects() <= old(Objects())
      ensures var u := old(View());
              g.id in u.groups && 0 <= g.id && View() == if u.groups[g.id].contacts == [] then M.GroupRemove(u, g.id) else u
    {
      hide Wf;
      hide View;
      hide I.InvBut;
      hide M.GroupRemove;
      GroupSeen(g);
      if g.contacts == [] {
        RosterGroupRemove(g.id);
      }
    }

    method ClearContact(e: ContactEntry, gone: ContactEntry, toServer: bool)
      requires Wf() && I.Inv(View()) && KnownE(e) && KnownE(gone)
      modifies this, Objects()
      ensures Wf() && I.Inv(View()) && groupsByID == old(groupsByID) && Objects() <= old(Objects())
      ensures forall i <- entriesByID :: i in old(entriesByID) && entriesByID[i] == old(entriesByID)[i]
      ensures View() == WithoutEntry(old(View()), old(e.contact).id, gone.id, toServer)
    {
      hide Wf;
      hide View;
      hide I.InvBut;
      hide M.EntryRemove;
      hide M.ContactRemove;
      EntrySeen(e);
      var c := e.contact;
      ContactSeen(c);
      RosterEntryRemove(gone.id, toServer);
      ContactSeen(c);
      if c.entries == [] {
        RosterContactRemove(c.id, toServer);
      }
    }

    /** Walks over the entries as they are at the start, while each removal changes the maps. */
    method RemoveAllContactEntriesForAccount(account: int)
      requires Wf() && I.Inv(View())
      modifies this, Objects()
      ensures Wf() && View() == M.RemoveAccount(old(View()), account)
    {
      hide Wf;
      hide View;
      hide I.InvBut;
      hide M.SweepEntry;
      hide M.Sweep;
      hide Ascending;
      var ids := Ascending(entriesByID.Keys);
      KeysSeen();
      ghost var v := View();
      NoSweep(v, account);
      assert ids[..0] == [];
      for n := 0 to |ids|
        invariant Wf() && Objects() <= old(Objects())
        invariant View() == M.Sweep(v, account, ids[..n])
      {
        SweepNext(v, account, ids, n);
        SweepAt(v, account, ids, n);
      }
      assert ids[..|ids|] == ids;
    }

    /** The next entry is still there, whatever the removals before it took away. */
    method SweepAt(ghost v: M.Roster, account: int, ids: seq<int>, n: nat)
      requires Wf() && I.Inv(v) && ids == Ascending(v.entries.Keys) && n < |ids| && View() == M.Sweep(v, account, ids[..n])
      modifies this, Objects()
      ensures Wf() && View() == M.Sweep(v, account, ids[..n + 1])
      ensures Objects() <= old(Objects())
    {
      hide Wf;
      hide View;
      hide I.InvBut;
      hide M.SweepEntry;
      hide M.Sweep;
      hide R.Swept;
      R.SweepEffect(v, account, ids[..n]);
      StillThere(v, account, ids, n);
      SweepNext(v, account, ids, n);
      assert ids[n] in View().entries;
      Filed();
      Indexed();
      var e := entriesByID[ids[n]];
      EntrySeen(e);
      if e.account == account {
        ClearOut(e, e, false);
      }
    }

    /** The map's keys are the identifiers seen. */
    lemma KeysSeen()
      requires Wf()
      ensures entriesByID.Keys == View().entries.Keys
    {
    }

    /** Walks over the addresses as they are at the start; what is looked up is the entry filed last. */
    method RemoveAllContactEntriesForTransport(account: int, host: string)
      requires Wf() && I.Inv(View())
      modifies this, Objects()
      ensures Wf() && View() == M.RemoveTransport(old(View()), account, host)
    {
      hide Wf;
      hide View;
      hide I.InvBut;
      hide M.VisitAddress;
      hide M.VisitAddresses;
      ghost var v := View();
      var keys := M.KeyList(entriesByBareJID, Alphabetic(entriesByBareJID.Keys));
      AddressesSeen();
      NoVisits(v, account, host);
      assert keys[..0] == [];
      for n := 0 to |keys|
        invariant Wf() && I.Inv(View()) && Objects() <= old(Objects())
        invariant View() == M.VisitAddresses(v, account, host, keys[..n])
      {
        VisitsNext(v, account, host, keys, n);
        if M.AtHost(keys[n], host) {
          VisitAddress(account, keys[n]);
        }
      }
      assert keys[..|keys|] == keys;
    }

    method VisitAddress(account: int, jid: string)
      requires Wf() && I.Inv(View())
      modifies this, Objects()
      ensures Wf() && I.Inv(View()) && Objects() <= old(Objects())
      ensures var v := old(View()); View() == if jid in v.byJid then M.VisitAddress(v, account, jid, v.byJid[jid]) else v
    {
      hide Wf;
      hide View;
      hide I.InvBut;
      hide M.VisitAddress;
      hide M.ClearOut;
      AddressSeen(jid);
      if jid !in entriesByBareJID {
        return;
      }
      ghost var v := View();
      var entries := entriesByBareJID[jid];
      ghost var ids := v.byJid[jid];
      NoVisit(v, account, jid);
      assert ids[..0] == [];
      for n := 0 to |entries|
        invariant Wf() && I.Inv(View()) && Objects() <= old(Objects())
        invariant forall i <- entriesByID :: i in old(entriesByID) && entriesByID[i] == old(entriesByID)[i]
        invariant View() == M.VisitAddress(v, account, jid, ids[..n])
      {
        T.VisitNext(v, account, jid, n);
        var e := entries[n];
        Filed();
        EntrySeen(e);
        if e.account == account {
          AddressSeen(jid);
          ClearOut(e, entriesByBareJID[jid][0], true);
        }
      }
      assert ids[..|ids|] == ids;
    }

    lemma AddressSeen(jid: string)
      requires Wf()
      ensures jid in entriesByBareJID <==> jid in View().byJid
      ensures jid in entriesByBareJID ==> |entriesByBareJID[jid]| == |View().byJid[jid]|
      ensures jid in entriesByBareJID ==> forall k :: 0 <= k < |entriesByBareJID[jid]| ==>
                KnownE(entriesByBareJID[jid][k]) && entriesByBareJID[jid][k].id == View().byJid[jid][k]
    {
    }

    lemma AddressesSeen()
      requires Wf()
      ensures M.KeyList(entriesByBareJID, Alphabetic(entriesByBareJID.Keys)) == M.KeyList(View().byJid, Alphabetic(View().byJid.Keys))
    {
      SameKeyList(entriesByBareJID, View().byJid, Alphabetic(entriesByBareJID.Keys));
      assert entriesByBareJID.Keys == View().byJid.Keys;
    }

    method DeleteEmptyGroups()
      requires Wf() && I.Inv(View())
      modifies this, Objects()
      ensures Wf() && View() == M.DeleteEmptyGroups(old(View()))
    {
      hide Wf;
      hide View;
      hide I.InvBut;
      hide M.GroupRemove;
      hide M.DropEmptyGroups;
      Ordered();
      var gs := groups;
      ghost var v, ids := View(), GroupIds(gs);
      DistinctGroups();
      SweptNone(v);
      assert ids[..0] == [];
      for n := 0 to |gs|
        invariant Wf() && I.Inv(View()) && fresh(Objects() - old(Objects()))
        invariant forall k :: n <= k < |gs| ==> KnownG(gs[k])
        invariant View() == M.DropEmptyGroups(v, ids[..n])
      {
        SweptNext(v, ids, n);
        GroupSeen(gs[n]);
        if gs[n].contacts == [] {
          DropEmpty(gs[n]);
        }
      }
      assert ids[..|gs|] == ids;
    }

    static lemma SweptNone(v: M.Roster)
      ensures M.DropEmptyGroups(v, []) == v
    {
    }

    static lemma SweptNext(v: M.Roster, ids: seq<int>, n: nat)
      requires n < |ids|
      ensures var t, g := M.DropEmptyGroups(v, ids[..n]), ids[n];
              M.DropEmptyGroups(v, ids[..n + 1]) == if g in t.groups && t.groups[g].contacts == [] then M.GroupRemove(t, g) else t
    {
      assert ids[..n + 1][..n] == ids[..n];
    }

    /** Removing a group nobody is in takes no other group away. */
    method DropEmpty(g: Group)
      requires Wf() && I.Inv(View()) && KnownG(g) && g.contacts == []
      modifies this, Objects()
      ensures Wf() && I.Inv(View()) && View() == M.GroupRemove(old(View()), g.id)
      ensures fresh(Objects() - old(Objects()))
      ensures forall i <- old(groupsByID) :: i != g.id ==> i in groupsByID && groupsByID[i] == old(groupsByID)[i]
    {
      hide Wf;
      hide View;
      hide I.InvBut;
      GroupSeen(g);
      ghost var v := View();
      assert M.RemoveGroupFromAll(v, [], g.id) == v;
      assert M.GroupRemove(v, g.id).groups == v.groups || M.GroupRemove(v, g.id).groups == v.groups - {g.id};
      Filed();
      RosterGroupRemove(g.id);
      Filed();
    }

    lemma DistinctGroups()
      requires Wf() && I.Inv(View())
      ensures forall j, k :: 0 <= j < k < |groups| ==> groups[j].id != groups[k].id
    {
      hide Wf;
      Ordered();
      forall j, k | 0 <= j < k < |groups| ensures groups[j].id != groups[k].id {
        GroupSeen(groups[j]);
        TwiceIsTwo(View().order, j, k);
      }
    }

    // ---- events ----------------------------------------------------------------------------------

    /** Whatever the event, the objects end up as the state machine says. */
    method Handle(ev: R.Event)
      requires Wf() && Mirror.Sound(View()) && R.Legal(View(), ev)
      modifies this, Objects()
      ensures Wf() && View() == R.Step(old(View()), ev) && Mirror.Sound(View())
    {
      hide Wf;
      hide View;
      hide I.InvBut;
      R.StepSound(View(), ev);
      if R.UserCommand(ev) {
        Command(ev);
      } else {
        HandleOther(ev);
      }
    }

    method Command(ev: R.Event)
      requires Wf() && I.Inv(View()) && R.Legal(View(), ev) && R.UserCommand(ev)
      modifies this, Objects()
      ensures Wf() && View() == R.Step(old(View()), ev)
    {
      hide Wf;
      hide View;
      hide I.InvBut;
      hide M.ContactAdd;
      hide M.ContactRemove;
      hide M.ContactRename;
      hide M.ContactSetAlt;
      hide M.ContactMove;
      hide M.ContactAddGroup;
      hide M.ContactChangeGroup;
      hide M.ContactRemoveGroup;
      if R.GroupCommand(ev) {
        GroupCommand(ev);
        return;
      }
      match ev {
        case AddContact(g, name, pos) => var id := RosterContactAdd(g, name, pos);
        case RemoveContact(c) => RosterContactRemove(c, true);
        case RenameContact(c, name) => RosterContactRename(c, name);
        case SetAlt(c, name) => RosterContactSetAlt(c, name);
        case MoveContact(c, at) => RosterContactMove(c, at);
        case AddToGroup(c, g) => RosterContactAddGroup(c, g);
        case ChangeGroup(c, from, to) => RosterContactChangeGroup(c, from, to);
        case RemoveFromGroup(c, g) => RosterContactRemoveGroup(c, g);
      }
    }

    method GroupCommand(ev: R.Event)
      requires Wf() && I.Inv(View()) && R.Legal(View(), ev) && R.GroupCommand(ev)
      modifies this, Objects()
      ensures Wf() && View() == R.Step(old(View()), ev)
    {
      hide Wf;
      hide View;
      hide I.InvBut;
      hide M.RosterStart;
      hide M.GroupAdd;
      hide M.GroupRemove;
      hide M.GroupRename;
      hide M.GroupMove;
      Ordered();
      match ev {
        case Start => RosterStart();
        case AddGroup(name, pos) => var id := RosterGroupAdd(name, pos);
        case RemoveGroup(g) => RosterGroupRemove(g);
        case RenameGroup(g, name) => RosterGroupRename(g, name);
        case MoveGroup(g, at) => RosterGroupMove(g, at);
      }
    }

    method HandleOther(ev: R.Event)
      requires Wf() && Mirror.Sound(View()) && R.Legal(View(), ev) && !R.UserCommand(ev)
      modifies this, Objects()
      ensures Wf() && View() == R.Step(old(View()), ev)
    {
      hide Mirror.Agrees;
      hide M.EntryAdd;
      hide M.EntryRemove;
      hide M.EntryChangeContact;
      hide M.ItemAdded;
      hide M.ItemUpdated;
      hide M.ItemRemoved;
      hide M.Subscription;
      hide M.ChatFrom;
      hide M.TagChanged;
      hide M.MintTag;
      hide M.RemoveAccount;
      hide M.RemoveTransport;
      hide M.DeleteEmptyGroups;
      hide Wf;
      hide View;
      hide I.InvBut;
      match ev {
        case AddEntry(c, account, jid, nick, reason, pos) => var id := RosterEntryAdd(c, account, jid, nick, reason, pos);
        case RemoveEntry(e) => RosterEntryRemove(e, true);
        case ChangeContact(e, from, to) => RosterEntryChangeContact(e, from, to);
        case PushAdded(account, item) => ClientRosterItemAdded(account, item);
        case PushUpdated(account, item) => ClientRosterItemUpdated(account, item);
        case PushRemoved(account, item) => ClientRosterItemRemoved(account, item);
        case SubscriptionReceived(account, jid, kind, nick, reason) => ClientSubscription(account, jid, kind, nick, reason);
        case ChatReceived(account, jid) => var e := EntryForChat(account, jid);
        case TagReported(account, jid, tag, changed) => MetacontactInfoForJIDDidChange(account, jid, tag, changed);
        case TagMinted(c, uuid, changed) => MintTag(c, uuid, changed);
        case Connection(account, on) => SetActive(account, on);
        case DeleteAccount(account) => RemoveAllContactEntriesForAccount(account);
        case DeleteTransport(account, host) => RemoveAllContactEntriesForTransport(account, host);
        case CleanUpGroups => DeleteEmptyGroups();
      }
    }
  }

  lemma TwiceIsTwo(s: seq<int>, j: nat, k: nat)
    requires j < k < |s| && I.Mult(s, s[j]) == 1
    ensures s[j] != s[k]
  {
    assert s == s[..k] + [s[k]] + s[k + 1..];
    assert s[..k][j] == s[j];
  }

  lemma NothingAdopted(v: M.Roster, e: int, item: M.Item)
    requires e in v.entries
    ensures M.AdoptGroups(v, [], e, item) == v
  {
  }

  lemma AdoptedNext(v: M.Roster, ids: seq<int>, n: nat, e: int, item: M.Item)
    requires n < |ids| && e in v.entries
    ensures var t, d := M.AdoptGroups(v, ids[..n], e, item), ids[n];
            d in t.entries && e in t.entries ==>
              var known := if d == e then item.groups else t.entries[e].groups;
              var w := t.entries[d].(groups := item.groups, mainGroup := if known == [] then "" else M.First(item.groups));
              M.AdoptGroups(v, ids[..n + 1], e, item) == M.Queue(M.SetEntry(t, d, w), M.EntryChanged(d, M.Props(w)))
  {
    assert ids[..n + 1][..n] == ids[..n] && ids[..n + 1][n] == ids[n];
  }

  lemma NoSweep(v: M.Roster, account: int)
    ensures M.Sweep(v, account, []) == v
  {
  }

  lemma SweepNext(v: M.Roster, account: int, ids: seq<int>, n: nat)
    requires n < |ids|
    ensures var t := M.Sweep(v, account, ids[..n]);
            && M.Sweep(v, account, ids[..n + 1]) == M.SweepEntry(t, account, ids[n])
            && (ids[n] in t.entries ==>
                  M.SweepEntry(t, account, ids[n]) == if t.entries[ids[n]].account == account then M.ClearOut(t, ids[n], ids[n], false) else t)
  {
    assert ids[..n + 1][..n] == ids[..n];
  }

  lemma NoVisits(v: M.Roster, account: int, host: string)
    ensures M.VisitAddresses(v, account, host, []) == v
  {
  }

  lemma NoVisit(v: M.Roster, account: int, jid: string)
    ensures M.VisitAddress(v, account, jid, []) == v
  {
  }

  lemma VisitsNext(v: M.Roster, account: int, host: string, js: seq<string>, n: nat)
    requires n < |js|
    ensures var t, j := M.VisitAddresses(v, account, host, js[..n]), js[n];
            M.VisitAddresses(v, account, host, js[..n + 1]) == if !M.AtHost(j, host) || j !in t.byJid then t else M.VisitAddress(t, account, j, t.byJid[j])
  {
    assert js[..n + 1][..n] == js[..n];
  }

  lemma {:induction false} SameKeyList<T, U>(a: map<string, seq<T>>, b: map<string, seq<U>>, js: seq<string>)
    requires a.Keys == b.Keys && forall j <- a :: |a[j]| == |b[j]|
    ensures M.KeyList(a, js) == M.KeyList(b, js)
  {
    if js != [] {
      SameKeyList(a, b, js[..|js| - 1]);
    }
  }

  /** An entry not reached yet is still there. */
  lemma StillThere(v: M.Roster, account: int, ids: seq<int>, n: nat)
    requires ids == Ascending(v.entries.Keys) && n < |ids| && R.Swept(v, M.Sweep(v, account, ids[..n]), account, ids[..n])
    ensures ids[n] in M.Sweep(v, account, ids[..n]).entries
  {
    assert ids[n] in ids && ids[n] in v.entries;
    assert ids[n] !in ids[..n];
  }
}
