/** When a reported metacontact tag puts the entry with a contact of that tag, and when it does not. */
module RosterTags {
  import opened Lists
  import opened RosterModel
  import opened RosterInvariant
  import opened RosterMirror
  import opened RosterOps
  import opened RosterHidden

  /** The tag was cleared, but the contact found by the entry's name is itself a tagged one. The code
      means to make a new contact then, but asks for it by the same name and is given the old one. */
  predicate Stuck(s: Roster, e: int, tag: string)
    requires e in s.entries && s.entries[e].contact in s.contacts
  {
    var c := s.contacts[s.entries[e].contact];
    tag == "" && c.tag != "" && c.groups != [] && c.groups[0] in s.groups &&
    var found := FindContact(s, s.entries[e].name, s.groups[c.groups[0]].name, s.groups[c.groups[0]].kind);
    found != -1 && s.contacts[found].tag != ""
  }

  /** Asking for a contact gives a new untagged one, or the one of that name with its tag. */
  lemma AddedTag(s: Roster, g: int, name: string)
    requires Inv(s) && name != "" && g in s.groups
    ensures var found := FindContact(s, name, s.groups[g].name, s.groups[g].kind);
            var t, to := ContactAdd(s, g, name, -1), ContactAddId(s, g, name);
            to in t.contacts && t.contacts[to].tag == if found == -1 then "" else s.contacts[found].tag
  {
    hide InvBut;
    AddedContact(s, g, name, -1);
    var c := FindContact(s, name, s.groups[g].name, s.groups[g].kind);
    if c != -1 {
      CommitEntriesContacts(Link(s, c, g), s.contacts[c].entries, AddName(s.groups[g].name));
    }
  }

  lemma RehomedTag(s: Roster, e: int, to: int)
    requires Sound(s) && e in s.entries && to in s.contacts
    ensures var t := Rehome(s, e, to); to in t.contacts && t.contacts[to].tag == s.contacts[to].tag
  {
    hide InvBut;
    hide Agrees;
    var from := s.entries[e].contact;
    KnownEntry(s, e);
    if from != to {
      var t := MoveEntry(s, e, to);
      if t.contacts[from].entries == [] {
        assert RemoveEntries(t, [], true) == t;
        DropFromGroupsShape(t, from, t.contacts[from].groups);
      }
    }
  }

  /** The contact the entry is to join has the reported tag, unless the entry is stuck. */
  lemma HomeTag(s: Roster, e: int, tag: string, changed: set<int>)
    requires Sound(s) && e in s.entries && s.entries[e].contact in s.contacts
    requires tag != s.contacts[s.entries[e].contact].tag && s.contacts[s.entries[e].contact].groups != []
    requires TagTarget(s, e, tag) == -1 ==> s.entries[e].name != ""
    ensures var (u, to) := TagHome(s, e, tag, changed);
            to in u.contacts && (u.contacts[to].tag == tag <==> !Stuck(s, e, tag))
  {
    hide InvBut;
    hide Agrees;
    var c := s.entries[e].contact;
    var found, g, name := TagTarget(s, e, tag), s.contacts[c].groups[0], s.entries[e].name;
    KnownContact(s, c);
    if found == -1 {
      AddedTag(s, g, name);
      var t, to := ContactAdd(s, g, name, -1), ContactAddId(s, g, name);
      if tag != "" {
        ReportEntriesKeeps(Retag(t, to, tag), Changed(t.contacts[to].entries, changed));
      }
    } else if tag != "" {
      TaggedContact(s, tag);
    }
  }

  /** After a report, the entry belongs to a contact carrying exactly the reported tag, if and only if
      it is not stuck. */
  lemma TagFollowed(s: Roster, account: int, jid: string, tag: string, changed: set<int>)
    requires Sound(s) && TagOk(s, account, jid, tag)
    requires FindEntry(s, account, jid) != -1 && s.entries[FindEntry(s, account, jid)].contact in s.contacts
    ensures var t, e := TagChanged(s, account, jid, tag, changed), FindEntry(s, account, jid);
            && e in t.entries && t.entries[e].contact in t.contacts
            && (t.contacts[t.entries[e].contact].tag == tag <==> !Stuck(s, e, tag))
  {
    hide InvBut;
    hide Agrees;
    hide TagTarget;
    hide Rehome;
    var e := FindEntry(s, account, jid);
    var c := s.entries[e].contact;
    KnownContact(s, c);
    if tag != s.contacts[c].tag {
      TagTargetKnown(s, e, tag);
      TagHomeSound(s, e, tag, changed);
      HomeTag(s, e, tag, changed);
      var (u, to) := TagHome(s, e, tag, changed);
      RehomeSound(u, e, to, -1);
      RehomedTag(u, e, to);
    }
  }

  /** While a contact is given a tag, each of its entries reports that tag back; the report finds the
      entry in place and only announces it once more. */
  lemma NestedReport(s: Roster, c: int, tag: string, e: int, changed: set<int>)
    requires Inv(s) && c in s.contacts && e in s.contacts[c].entries && tag != "" && (tag in s.byTag ==> s.byTag[tag] == c)
    ensures e in s.entries
    ensures var t := Retag(s, c, tag); TagChanged(t, s.entries[e].account, s.entries[e].jid, tag, changed) == ReportEntry(t, e)
  {
    KnownContact(s, c);
    FindEntryExact(s, s.entries[e].account, s.entries[e].jid);
  }
}
