/** The GUI's copy of the roster, rebuilt from the queued notifications alone, and the small
    steps that keep it equal to the core's roster. */
module RosterMirror {
  import opened Lists
  import opened RosterModel
  import opened RosterInvariant

  datatype Face = Face(kind: GroupKind, name: string)
  datatype Card = Card(name: string, alt: string, groups: seq<int>)
  datatype Line = Line(props: EntryProps, contact: int)

  /** `ok` stays true as long as every notification names only things the copy knows, which is
      what the receiver asserts. */
  datatype Mirror = Mirror(ok: bool, groups: map<int, Face>, contacts: map<int, Card>, entries: map<int, Line>)

  const BLANK := Mirror(true, map[], map[], map[])

  /** The receiver adds a contact to a group at most once. */
  function AddOnce(s: seq<int>, x: int): seq<int> {
    if x in s then s else s + [x]
  }

  /** What the receiver asserts before it acts. */
  predicate Accepts(m: Mirror, n: Note) {
    match n
    case GroupAdded(g, k, name) => true
    case GroupChanged(g, k, name) => g in m.groups
    case GroupRemoved(g) => g in m.groups
    case ContactAdded(g, c, name, alt) => g in m.groups
    case ContactChanged(c, name, alt) => c in m.contacts
    case ContactRemoved(c) => c in m.contacts
    case ContactGroupAdded(c, g) => c in m.contacts && g in m.groups
    case ContactGroupChanged(c, from, to) => c in m.contacts && from in m.groups && to in m.groups
    case ContactGroupRemoved(c, g) => c in m.contacts && g in m.groups
    case EntryAdded(c, e, props) => c in m.contacts
    case EntryChanged(e, props) => e in m.entries
    case EntryContactChanged(e, from, to) => e in m.entries && to in m.contacts
    case EntryRemoved(e) => e in m.entries && m.entries[e].contact in m.contacts
    case AuthRequest(e, nick, reason) => e in m.entries
    case AuthGranted(e) => e in m.entries
    case AuthLost(e) => e in m.entries
  }

  function Apply(m: Mirror, n: Note): Mirror {
    if !Accepts(m, n) then m.(ok := false)
    else match n
      case GroupAdded(g, k, name) => m.(groups := m.groups[g := Face(k, name)])
      case GroupChanged(g, k, name) => m.(groups := m.groups[g := Face(k, name)])
      case GroupRemoved(g) => m.(groups := m.groups - {g})
      case ContactAdded(g, c, name, alt) =>
        var gs := if c in m.contacts then m.contacts[c].groups else [];
        m.(contacts := m.contacts[c := Card(name, alt, AddOnce(gs, g))])
      case ContactChanged(c, name, alt) => m.(contacts := m.contacts[c := Card(name, alt, m.contacts[c].groups)])
      case ContactRemoved(c) => m.(contacts := m.contacts - {c})
      case ContactGroupAdded(c, g) =>
        m.(contacts := m.contacts[c := m.contacts[c].(groups := AddOnce(m.contacts[c].groups, g))])
      case ContactGroupChanged(c, from, to) =>
        m.(contacts := m.contacts[c := m.contacts[c].(groups := AddOnce(Without(m.contacts[c].groups, from), to))])
      case ContactGroupRemoved(c, g) =>
        m.(contacts := m.contacts[c := m.contacts[c].(groups := Without(m.contacts[c].groups, g))])
      case EntryAdded(c, e, props) => m.(entries := m.entries[e := Line(props, c)])
      case EntryChanged(e, props) => m.(entries := m.entries[e := Line(props, m.entries[e].contact)])
      case EntryContactChanged(e, from, to) => m.(entries := m.entries[e := m.entries[e].(contact := to)])
      case EntryRemoved(e) => m.(entries := m.entries - {e})
      case AuthRequest(e, nick, reason) => m
      case AuthGranted(e) => m
      case AuthLost(e) => m
  }

  /** The copy after all queued notifications have been delivered in order. */
  function Replay(log: seq<Note>): Mirror {
    if log == [] then BLANK else Apply(Replay(log[..|log| - 1]), log[|log| - 1])
  }

  lemma ReplayNext(log: seq<Note>, n: Note)
    ensures Replay(log + [n]) == Apply(Replay(log), n)
  {
    assert (log + [n])[..|log|] == log;
  }

  /** The groups of a contact, each once, in the order of their first appearance. */
  function Once(s: seq<int>): (r: seq<int>)
    ensures forall x :: x in r <==> x in s
  {
    if s == [] then [] else
      assert s == s[..|s| - 1] + [s[|s| - 1]];
      AddOnce(Once(s[..|s| - 1]), s[|s| - 1])
  }

  lemma OnceNext(s: seq<int>, x: int)
    ensures Once(s + [x]) == AddOnce(Once(s), x)
  {
    assert (s + [x])[..|s|] == s;
  }

  lemma {:induction false} WithoutNext(s: seq<int>, y: int, x: int)
    ensures Without(s + [y], x) == if y == x then Without(s, x) else Without(s, x) + [y]
  {
    if s == [] {
      assert [y][1..] == [];
    } else {
      assert (s + [y])[1..] == s[1..] + [y] && (s + [y])[0] == s[0];
      WithoutNext(s[1..], y, x);
    }
  }

  lemma {:induction false} OnceWithout(s: seq<int>, x: int)
    ensures Once(Without(s, x)) == Without(Once(s), x)
  {
    if s != [] {
      var p, y := s[..|s| - 1], s[|s| - 1];
      assert s == p + [y];
      OnceWithout(p, x);
      WithoutNext(p, y, x);
      OnceNext(Without(p, x), y);
      WithoutNext(Once(p), y, x);
    }
  }

  // ---- agreement with the core ----------------------------------------------------------------

  ghost predicate GroupsAgree(mine: map<int, Face>, groups: map<int, Group>) {
    (forall g :: g in mine <==> g in groups) && forall g <- groups :: mine[g] == Face(groups[g].kind, groups[g].name)
  }

  ghost predicate ContactsAgree(mine: map<int, Card>, contacts: map<int, Contact>) {
    (forall c :: c in mine <==> c in contacts) && forall c <- contacts :: CardOf(mine[c], contacts[c])
  }

  predicate CardOf(card: Card, v: Contact) {
    card == Card(v.name, v.alt, Once(v.groups))
  }

  /** Entry `x` may show an old subscription state. */
  ghost predicate EntriesAgree(mine: map<int, Line>, entries: map<int, Entry>, x: int) {
    (forall e :: e in mine <==> e in entries) && forall e <- entries :: LineOf(mine[e], entries[e], e == x)
  }

  predicate LineOf(line: Line, v: Entry, lax: bool) {
    line.contact == v.contact && line.props.account == v.account && line.props.jid == v.jid
    && (lax || line.props == Props(v))
  }

  ghost predicate Agrees(m: Mirror, s: Roster, x: int) {
    m.ok && GroupsAgree(m.groups, s.groups) && ContactsAgree(m.contacts, s.contacts) && EntriesAgree(m.entries, s.entries, x)
  }

  /** The invariant holds and replaying the notifications gives exactly the core's roster, but for
      the subscription state of entry `x`. */
  ghost predicate SoundBut(s: Roster, x: int) {
    Inv(s) && Agrees(Replay(s.log), s, x)
  }

  /** Entries have identifiers from 0 on, so this allows no exception. */
  ghost predicate Sound(s: Roster) { SoundBut(s, -1) }

  lemma SendSound(s: Roster, x: Stanza, e: int)
    requires SoundBut(s, e)
    ensures SoundBut(Send(s, x), e)
  {
  }

  // ---- groups ---------------------------------------------------------------------------------

  lemma GroupAddSound(s: Roster, name: string, pos: int, x: int)
    requires SoundBut(s, x)
    ensures SoundBut(GroupAdd(s, name, pos), x)
    ensures name != "" ==> GroupAddId(s, name) in GroupAdd(s, name, pos).groups
  {
    GroupAddInv(s, name, pos);
    GroupAddAgrees(s, name, pos, x);
  }

  lemma GroupAddAgrees(s: Roster, name: string, pos: int, x: int)
    requires Agrees(Replay(s.log), s, x)
    ensures var t := GroupAdd(s, name, pos); Agrees(Replay(t.log), t, x)
  {
    ReplayNext(s.log, GroupAdded(s.nextGroup, User, name));
  }

  lemma DeleteGroupSound(s: Roster, g: int)
    requires Sound(s) && g in s.groups && g > 1 && s.groups[g].contacts == []
    ensures Sound(DeleteGroup(s, g))
  {
    DeleteGroupInv(s, g);
    ReplayNext(s.log, GroupRemoved(g));
  }

  /** Announcing a known group again, or reporting its present name, changes nothing. */
  lemma ReportGroupSound(s: Roster, g: int)
    requires Sound(s) && g in s.groups
    ensures Sound(Queue(s, GroupChanged(g, s.groups[g].kind, s.groups[g].name)))
    ensures Sound(Queue(s, GroupAdded(g, s.groups[g].kind, s.groups[g].name)))
  {
    ReplayNext(s.log, GroupChanged(g, s.groups[g].kind, s.groups[g].name));
    ReplayNext(s.log, GroupAdded(g, s.groups[g].kind, s.groups[g].name));
  }

  // ---- contacts -------------------------------------------------------------------------------

  lemma NewContactSound(s: Roster, g: int, name: string, pos: int, x: int)
    requires SoundBut(s, x) && g in s.groups && name != ""
    ensures SoundBut(NewContact(s, g, name, pos), x)
  {
    NewContactInv(s, g, name, pos);
    assert s.nextContact !in s.contacts;
    NewContactAgrees(s, g, name, pos, x);
  }

  lemma NewContactAgrees(s: Roster, g: int, name: string, pos: int, x: int)
    requires Agrees(Replay(s.log), s, x) && g in s.groups && s.nextContact !in s.contacts
    ensures var t := NewContact(s, g, name, pos); Agrees(Replay(t.log), t, x)
  {
    ReplayNext(s.log, ContactAdded(g, s.nextContact, name, ""));
    assert [g][..0] == [];
    assert Once([g]) == AddOnce(Once([]), g) == AddOnce([], g);
  }

  lemma DeleteContactSound(s: Roster, c: int, x: int)
    requires SoundBut(s, x) && c in s.contacts && s.contacts[c].entries == []
    ensures SoundBut(DeleteContact(s, c), x)
  {
    hide InvBut;
    hide Agrees;
    DeleteContactInv(s, c);
    DeleteContactAgrees(s, c, x);
  }

  lemma SameFaces(mine: map<int, Face>, a: map<int, Group>, b: map<int, Group>)
    requires GroupsAgree(mine, a) && (forall g :: g in a <==> g in b)
    requires forall g <- a :: b[g].kind == a[g].kind && b[g].name == a[g].name
    ensures GroupsAgree(mine, b)
  {
  }

  lemma FewerCards(mine: map<int, Card>, contacts: map<int, Contact>, c: int)
    requires ContactsAgree(mine, contacts)
    ensures ContactsAgree(mine - {c}, contacts - {c})
  {
  }

  lemma DeleteContactAgrees(s: Roster, c: int, x: int)
    requires Agrees(Replay(s.log), s, x) && c in s.contacts
    ensures var t := DeleteContact(s, c); Agrees(Replay(t.log), t, x)
  {
    hide Replay;
    hide GroupsAgree;
    hide ContactsAgree;
    hide EntriesAgree;
    var m, t := Replay(s.log), DeleteContact(s, c);
    DropFromGroupsShape(s, c, s.contacts[c].groups);
    ReplayNext(s.log, ContactRemoved(c));
    CardKnown(m.contacts, s.contacts, c);
    SameFaces(m.groups, s.groups, t.groups);
    FewerCards(m.contacts, s.contacts, c);
  }

  lemma ReportContactSound(s: Roster, c: int)
    requires Sound(s) && c in s.contacts
    ensures Sound(Queue(s, ContactChanged(c, s.contacts[c].name, s.contacts[c].alt)))
  {
    ReplayNext(s.log, ContactChanged(c, s.contacts[c].name, s.contacts[c].alt));
  }

  // ---- entries --------------------------------------------------------------------------------

  lemma NewEntrySound(s: Roster, v: Entry, pos: int)
    requires Sound(s) && v.contact in s.contacts && EntryTextsOk(v) && Unlisted(s.entries, v)
    ensures Sound(NewEntry(s, v, pos))
  {
    NewEntryInv(s, v, pos);
    NewEntryAgrees(s, v, pos);
  }

  lemma NewEntryAgrees(s: Roster, v: Entry, pos: int)
    requires Agrees(Replay(s.log), s, -1) && v.contact in s.contacts
    ensures var t := NewEntry(s, v, pos); Agrees(Replay(t.log), t, -1)
  {
    ReplayNext(s.log, EntryAdded(v.contact, s.nextEntry, Props(v)));
    SameCards(Replay(s.log).contacts, s.contacts, NewEntry(s, v, pos).contacts);
  }

  lemma SameCards(mine: map<int, Card>, a: map<int, Contact>, b: map<int, Contact>)
    requires ContactsAgree(mine, a) && (forall c :: c in a <==> c in b)
    requires forall c <- a :: b[c].name == a[c].name && b[c].alt == a[c].alt && b[c].groups == a[c].groups
    ensures ContactsAgree(mine, b)
  {
  }

  lemma DeleteEntrySound(s: Roster, e: int)
    requires Sound(s) && e in s.entries
    ensures Sound(DeleteEntry(s, e))
  {
    assert s.entries[e].contact in s.contacts;
    hide InvBut;
    hide Agrees;
    DeleteEntryInv(s, e);
    DeleteEntryAgrees(s, e);
  }

  lemma LineKnown(mine: map<int, Line>, entries: map<int, Entry>, x: int, e: int)
    requires EntriesAgree(mine, entries, x) && e in entries
    ensures e in mine && mine[e].contact == entries[e].contact
  {
    assert LineOf(mine[e], entries[e], e == x);
  }

  lemma FewerLines(mine: map<int, Line>, entries: map<int, Entry>, x: int, e: int)
    requires EntriesAgree(mine, entries, x)
    ensures EntriesAgree(mine - {e}, entries - {e}, x)
  {
  }

  lemma DeleteEntryAgrees(s: Roster, e: int)
    requires Agrees(Replay(s.log), s, -1) && e in s.entries && s.entries[e].contact in s.contacts
    ensures var t := DeleteEntry(s, e); Agrees(Replay(t.log), t, -1)
  {
    hide Replay;
    hide GroupsAgree;
    hide ContactsAgree;
    hide EntriesAgree;
    var m, t := Replay(s.log), DeleteEntry(s, e);
    ReplayNext(s.log, EntryRemoved(e));
    LineKnown(m.entries, s.entries, -1, e);
    CardKnown(m.contacts, s.contacts, s.entries[e].contact);
    FewerLines(m.entries, s.entries, -1, e);
    SameCards(m.contacts, s.contacts, t.contacts);
  }

  lemma MoveEntrySound(s: Roster, e: int, to: int, x: int)
    requires SoundBut(s, x) && e in s.entries && to in s.contacts && s.entries[e].contact != to
    ensures s.entries[e].contact in s.contacts && SoundBut(MoveEntry(s, e, to), x)
  {
    MoveEntryInv(s, e, to);
    MoveEntryAgrees(s, e, to, x);
  }

  lemma CardKnown(mine: map<int, Card>, contacts: map<int, Contact>, c: int)
    requires ContactsAgree(mine, contacts) && c in contacts
    ensures c in mine
  {
  }

  lemma MoveEntryAgrees(s: Roster, e: int, to: int, x: int)
    requires Agrees(Replay(s.log), s, x) && e in s.entries && to in s.contacts
    requires s.entries[e].contact in s.contacts && s.entries[e].contact != to
    ensures var t := MoveEntry(s, e, to); Agrees(Replay(t.log), t, x)
  {
    hide GroupsAgree;
    hide ContactsAgree;
    var n := EntryContactChanged(e, s.entries[e].contact, to);
    ReplayNext(s.log, n);
    assert MoveEntry(s, e, to).log == s.log + [n];
    hide MoveEntry;
    MovedShape(s, e, to);
    CardKnown(Replay(s.log).contacts, s.contacts, to);
    MovedCards(Replay(s.log).contacts, s.contacts, e, s.entries[e].contact, to);
  }

  lemma MovedCards(mine: map<int, Card>, contacts: map<int, Contact>, e: int, from: int, to: int)
    requires ContactsAgree(mine, contacts) && from in contacts && to in contacts && from != to
    ensures ContactsAgree(mine, MovedContacts(contacts, e, from, to))
  {
    SameCards(mine, contacts, MovedContacts(contacts, e, from, to));
  }

  /** Changing texts, and the state of entry `x` only. */
  lemma SetEntrySound(s: Roster, e: int, v: Entry, x: int)
    requires SoundBut(s, x) && e in s.entries && SamePlace(s.entries[e], v) && EntryTextsOk(v)
    requires e != x ==> v.sub == s.entries[e].sub && v.ask == s.entries[e].ask
    ensures SoundBut(SetEntry(s, e, v), x)
  {
    SetEntryInv(s, e, v, -1);
  }

  /** Reporting the entry brings its line up to date. */
  lemma ReportEntrySound(s: Roster, e: int, x: int)
    requires SoundBut(s, x) && e in s.entries
    ensures SoundBut(ReportEntry(s, e), if e == x then -1 else x)
  {
    ReplayNext(s.log, EntryChanged(e, Props(s.entries[e])));
  }

  lemma SameLines(mine: map<int, Line>, a: map<int, Entry>, b: map<int, Entry>, x: int)
    requires EntriesAgree(mine, a, x) && SamePlaces(a, b) && SameStatus(a, b)
    ensures EntriesAgree(mine, b, x)
  {
    forall e | e in b ensures LineOf(mine[e], b[e], e == x) {
      assert SamePlace(a[e], b[e]) && LineOf(mine[e], a[e], e == x);
    }
  }
}
