/** What the roster bridge holds, as a value, and what each of its operations makes of it.
    The objects of LfpApi.dfy are proved to carry out exactly these functions. */
module RosterModel {
  import opened Lists

  datatype GroupKind = User | NoGroup | NotInList

  const GENERAL := "General"
  const NOT_IN_LIST := "Not In List"

  datatype Group = Group(kind: GroupKind, name: string, contacts: seq<int>)
  datatype Contact = Contact(name: string, alt: string, tag: string, groups: seq<int>, entries: seq<int>)
  datatype Entry = Entry(account: int, jid: string, name: string, sub: string, ask: bool,
                         groups: seq<string>, mainGroup: string, contact: int)

  /** A bridge notification, in the order queued. Property maps carry what they say at that time. */
  datatype Note =
    | GroupAdded(g: int, kind: GroupKind, name: string)
    | GroupChanged(g: int, kind: GroupKind, name: string)
    | GroupRemoved(g: int)
    | ContactAdded(g: int, c: int, name: string, alt: string)
    | ContactChanged(c: int, name: string, alt: string)
    | ContactRemoved(c: int)
    | ContactGroupAdded(c: int, g: int)
    | ContactGroupChanged(c: int, from: int, to: int)
    | ContactGroupRemoved(c: int, g: int)
    | EntryAdded(c: int, e: int, props: EntryProps)
    | EntryChanged(e: int, props: EntryProps)
    | EntryContactChanged(e: int, from: int, to: int)
    | EntryRemoved(e: int)
    | AuthRequest(e: int, nick: string, reason: string)
    | AuthGranted(e: int)
    | AuthLost(e: int)

  datatype EntryProps = EntryProps(account: int, jid: string, sub: string, ask: bool)

  /** A stanza handed to an account's connection. */
  datatype Stanza =
    | RosterSet(account: int, jid: string, name: string, groups: seq<string>)
    | RosterDelete(account: int, jid: string)
    | Subscribe(account: int, jid: string, nick: string, reason: string)

  /** A roster push, reduced to what the bridge reads. `jid` is the bare address. */
  datatype Item = Item(jid: string, name: string, groups: seq<string>, sub: string, ask: bool)

  datatype Roster = Roster(
    order: seq<int>,
    groups: map<int, Group>,
    contacts: map<int, Contact>,
    entries: map<int, Entry>,
    byTag: map<string, int>,
    byJid: map<string, seq<int>>,
    nextGroup: int, nextContact: int, nextEntry: int,
    active: set<int>,
    log: seq<Note>,
    sent: seq<Stanza>)

  const INITIAL := Roster(
    [0, 1], map[0 := Group(NoGroup, GENERAL, []), 1 := Group(NotInList, NOT_IN_LIST, [])],
    map[], map[], map[], map[], 2, 0, 0, {}, [], [])

  // ---- look-ups ---------------------------------------------------------------------------

  function FindGroup(order: seq<int>, groups: map<int, Group>, kind: GroupKind, name: string): (g: int)
    ensures g != -1 ==> g in order && g in groups && groups[g].kind == kind && groups[g].name == name
    ensures g == -1 && -1 !in order ==> forall h :: h in order && h in groups ==> groups[h].kind != kind || groups[h].name != name
  {
    if order == [] then -1
    else if order[0] in groups && groups[order[0]].kind == kind && groups[order[0]].name == name then order[0]
    else FindGroup(order[1..], groups, kind, name)
  }

  function FindNamed(ids: seq<int>, contacts: map<int, Contact>, name: string): (c: int)
    ensures c != -1 ==> c in ids && c in contacts && contacts[c].name == name
    ensures c == -1 && -1 !in ids ==> forall d :: d in ids && d in contacts ==> contacts[d].name != name
  {
    if ids == [] then -1
    else if ids[0] in contacts && contacts[ids[0]].name == name then ids[0]
    else FindNamed(ids[1..], contacts, name)
  }

  /** First contact called `name` in the first group of that kind and name. */
  function FindContact(s: Roster, name: string, groupName: string, kind: GroupKind): (c: int)
    ensures c != -1 ==> c in s.contacts && s.contacts[c].name == name
  {
    var g := FindGroup(s.order, s.groups, kind, groupName);
    if g == -1 then -1 else FindNamed(s.groups[g].contacts, s.contacts, name)
  }

  function FindOwned(ids: seq<int>, entries: map<int, Entry>, account: int): (e: int)
    ensures e != -1 ==> e in ids && e in entries && entries[e].account == account
    ensures e == -1 && -1 !in ids ==> forall f :: f in ids && f in entries ==> entries[f].account != account
  {
    if ids == [] then -1
    else if ids[0] in entries && entries[ids[0]].account == account then ids[0]
    else FindOwned(ids[1..], entries, account)
  }

  function FindEntry(s: Roster, account: int, jid: string): (e: int)
    ensures e != -1 ==> e in s.entries && s.entries[e].account == account
  {
    if jid in s.byJid then FindOwned(s.byJid[jid], s.entries, account) else -1
  }

  /** The contact's first group is not the "not in list" one. */
  predicate InList(s: Roster, c: int) {
    c in s.contacts && s.contacts[c].groups != [] && s.contacts[c].groups[0] in s.groups
    && s.groups[s.contacts[c].groups[0]].kind != NotInList
  }

  function Props(v: Entry): EntryProps {
    EntryProps(v.account, v.jid, v.sub, v.ask)
  }

  // ---- small steps the operations are made of ---------------------------------------------

  function Queue(s: Roster, n: Note): Roster {
    s.(log := s.log + [n])
  }

  function Send(s: Roster, x: Stanza): Roster {
    s.(sent := s.sent + [x])
  }

  function SetContact(s: Roster, c: int, v: Contact): Roster {
    s.(contacts := s.contacts[c := v])
  }

  function SetGroup(s: Roster, g: int, v: Group): Roster {
    s.(groups := s.groups[g := v])
  }

  function SetEntry(s: Roster, e: int, v: Entry): Roster {
    s.(entries := s.entries[e := v])
  }

  /** What a command does to the name and group names stored with an entry. */
  datatype Edit =
    | AddName(name: string)
    | DropName(name: string)
    | SwapNames(drop: Option, add: Option)
    | RenameName(was: string, name: string)
    | SetName(name: string)

  datatype Option = None | Some(name: string)

  function Dropped(v: Entry, name: string): Entry {
    v.(groups := Without(v.groups, name), mainGroup := if v.mainGroup == name then "" else v.mainGroup)
  }

  function Added(v: Entry, name: string): Entry {
    v.(groups := v.groups + [name], mainGroup := if v.mainGroup == "" then name else v.mainGroup)
  }

  function Edited(v: Entry, d: Edit): Entry {
    match d
    case AddName(n) => Added(v, n)
    case DropName(n) => Dropped(v, n)
    case SwapNames(drop, add) =>
      var w := if drop.Some? then Dropped(v, drop.name) else v;
      if add.Some? then Added(w, add.name) else w
    case RenameName(o, n) =>
      v.(groups := Without(v.groups, o) + [n], mainGroup := if v.mainGroup == o then n else v.mainGroup)
    case SetName(n) => v.(name := n)
  }

  function Commit(v: Entry): Stanza {
    RosterSet(v.account, v.jid, v.name, v.groups)
  }

  /** Edits the listed entries in order, committing each to its account. */
  function CommitEntries(s: Roster, ids: seq<int>, d: Edit): Roster {
    if ids == [] then s
    else
      var t := CommitEntries(s, ids[..|ids| - 1], d);
      var e := ids[|ids| - 1];
      if e !in t.entries then t
      else
        var v := Edited(t.entries[e], d);
        Send(SetEntry(t, e, v), Commit(v))
  }

  lemma {:induction false} CommitEntriesContacts(s: Roster, ids: seq<int>, d: Edit)
    ensures var t := CommitEntries(s, ids, d); t == s.(entries := t.entries, sent := t.sent)
  {
    if ids != [] {
      CommitEntriesContacts(s, ids[..|ids| - 1], d);
    }
  }

  /** Edits the entries of the listed contacts, contact by contact. */
  function CommitContacts(s: Roster, cs: seq<int>, d: Edit): Roster {
    if cs == [] then s
    else
      var t := CommitContacts(s, cs[..|cs| - 1], d);
      var c := cs[|cs| - 1];
      if c !in t.contacts then t else CommitEntries(t, t.contacts[c].entries, d)
  }

  // ---- groups -----------------------------------------------------------------------------

  /** Announces the groups in list order. */
  function Announce(s: Roster, ids: seq<int>): Roster {
    if ids == [] then s
    else
      var t := Announce(s, ids[..|ids| - 1]);
      var g := ids[|ids| - 1];
      if g !in t.groups then t else Queue(t, GroupAdded(g, t.groups[g].kind, t.groups[g].name))
  }

  function RosterStart(s: Roster): Roster {
    Announce(s, s.order)
  }

  function GroupAddId(s: Roster, name: string): int {
    if name == "" then -1
    else
      var g := FindGroup(s.order, s.groups, User, name);
      if g != -1 then g else s.nextGroup
  }

  function GroupAdd(s: Roster, name: string, pos: int): Roster {
    if name == "" || FindGroup(s.order, s.groups, User, name) != -1 then s
    else
      var g := s.nextGroup;
      Queue(s.(order := Place(s.order, pos, g),
               groups := s.groups[g := Group(User, name, [])],
               nextGroup := g + 1),
            GroupAdded(g, User, name))
  }

  lemma AddedGroup(s: Roster, name: string, pos: int)
    requires name != ""
    ensures GroupAddId(s, name) in GroupAdd(s, name, pos).groups
  {
  }

  /** Puts contact `c` at the end of group `g`, on both sides. */
  function Link(s: Roster, c: int, g: int): Roster
    requires c in s.contacts && g in s.groups
  {
    var t := SetContact(s, c, s.contacts[c].(groups := s.contacts[c].groups + [g]));
    SetGroup(t, g, t.groups[g].(contacts := t.groups[g].contacts + [c]))
  }

  /** Takes contact `c` out of group `g`, on both sides. */
  function Unlink(s: Roster, c: int, g: int): Roster
    requires c in s.contacts && g in s.groups
  {
    var t := SetContact(s, c, s.contacts[c].(groups := Without(s.contacts[c].groups, g)));
    SetGroup(t, g, t.groups[g].(contacts := Without(t.groups[g].contacts, c)))
  }

  /** Moving a contact between groups leaves entries alone. */
  lemma RelinkKeeps(s: Roster, c: int, from: int, to: int)
    requires c in s.contacts && from in s.groups && to in s.groups
    ensures var t := Link(Unlink(s, c, from), c, to);
            t.entries == s.entries && c in t.contacts && t.contacts[c].entries == s.contacts[c].entries
  {
  }

  function NamedIfUser(v: Group): Option {
    if v.kind == User then Some(v.name) else None
  }

  function ContactAddGroup(s: Roster, c: int, g: int): Roster {
    if c !in s.contacts || g !in s.groups || s.groups[g].kind != User || g in s.contacts[c].groups then s
    else
      Queue(CommitEntries(Link(s, c, g), s.contacts[c].entries, AddName(s.groups[g].name)), ContactGroupAdded(c, g))
  }

  function ContactRemoveGroup(s: Roster, c: int, g: int): Roster {
    if c !in s.contacts || g !in s.groups || g !in s.contacts[c].groups || s.groups[g].kind == NotInList then s
    else
      var t := CommitEntries(Unlink(s, c, g), s.contacts[c].entries, SwapNames(NamedIfUser(s.groups[g]), None));
      var general := FindGroup(t.order, t.groups, NoGroup, GENERAL);
      if c in t.contacts && t.contacts[c].groups == [] && general != -1 then
        Queue(Link(t, c, general), ContactGroupChanged(c, g, general))
      else
        Queue(t, ContactGroupRemoved(c, g))
  }

  /** Transfers between groups act on the contact's first group only, and never touch "not in list". */
  predicate TransferAllowed(s: Roster, c: int, from: int, to: int) {
    c in s.contacts && s.contacts[c].groups != [] && s.contacts[c].groups[0] == from && from in s.groups && to in s.groups
    && s.groups[from].kind != NotInList && s.groups[to].kind != NotInList
  }

  function ContactChangeGroup(s: Roster, c: int, from: int, to: int): Roster {
    if !TransferAllowed(s, c, from, to) then s
    else
      var t := CommitEntries(Link(Unlink(s, c, from), c, to), s.contacts[c].entries,
                             SwapNames(NamedIfUser(s.groups[from]), NamedIfUser(s.groups[to])));
      Queue(t, ContactGroupChanged(c, from, to))
  }

  function RemoveGroupFromAll(s: Roster, cs: seq<int>, g: int): Roster {
    if cs == [] then s
    else ContactRemoveGroup(RemoveGroupFromAll(s, cs[..|cs| - 1], g), cs[|cs| - 1], g)
  }

  function DeleteGroup(s: Roster, g: int): Roster {
    Queue(s.(order := Without(s.order, g), groups := s.groups - {g}), GroupRemoved(g))
  }

  function GroupRemove(s: Roster, g: int): Roster {
    if g !in s.groups || s.groups[g].kind != User then s
    else DeleteGroup(RemoveGroupFromAll(s, s.groups[g].contacts, g), g)
  }

  function GroupRename(s: Roster, g: int, name: string): Roster {
    if name == "" || g !in s.groups || s.groups[g].kind != User then s
    else
      var t := SetGroup(s, g, s.groups[g].(name := name));
      Queue(CommitContacts(t, s.groups[g].contacts, RenameName(s.groups[g].name, name)), GroupChanged(g, User, name))
  }

  /** Reports every group of the old order whose place is now another's. */
  function ReportMoved(s: Roster, was: seq<int>, n: nat): Roster
    requires n <= |was| == |s.order|
    ensures ReportMoved(s, was, n).order == s.order
  {
    if n == 0 then s
    else
      var t := ReportMoved(s, was, n - 1);
      var g := was[n - 1];
      if t.order[n - 1] == g || g !in t.groups then t
      else Queue(t, GroupChanged(g, t.groups[g].kind, t.groups[g].name))
  }

  lemma {:induction false} ReportMovedKeeps(s: Roster, was: seq<int>, n: nat)
    requires n <= |was| == |s.order|
    ensures var t := ReportMoved(s, was, n); t == s.(log := t.log)
  {
    if n > 0 {
      ReportMovedKeeps(s, was, n - 1);
    }
  }

  function GroupMove(s: Roster, g: int, pos: nat): Roster
    requires pos < |s.order|
  {
    if g !in s.groups || s.groups[g].kind != User || g !in s.order then s
    else
      var t := s.(order := Moved(s.order, IndexOf(s.order, g), pos));
      ReportMoved(t, s.order, |s.order|)
  }

  // ---- contacts ---------------------------------------------------------------------------

  function NewContact(s: Roster, g: int, name: string, pos: int): Roster
    requires g in s.groups
  {
    var c := s.nextContact;
    var t := SetGroup(s, g, s.groups[g].(contacts := Place(s.groups[g].contacts, pos, c)));
    Queue(SetContact(t, c, Contact(name, "", "", [g], [])).(nextContact := c + 1), ContactAdded(g, c, name, ""))
  }

  function ContactAddId(s: Roster, g: int, name: string): int {
    if name == "" || g !in s.groups then -1
    else
      var c := FindContact(s, name, s.groups[g].name, s.groups[g].kind);
      if c != -1 then c else s.nextContact
  }

  function ContactAdd(s: Roster, g: int, name: string, pos: int): Roster {
    if name == "" || g !in s.groups then s
    else
      var c := FindContact(s, name, s.groups[g].name, s.groups[g].kind);
      if c != -1 then (if g in s.contacts[c].groups then s else ContactAddGroup(s, c, g))
      else NewContact(s, g, name, pos)
  }

  lemma AddedContact(s: Roster, g: int, name: string, pos: int)
    requires name != "" && g in s.groups
    ensures ContactAddId(s, g, name) in ContactAdd(s, g, name, pos).contacts
  {
    var c := FindContact(s, name, s.groups[g].name, s.groups[g].kind);
    if c != -1 {
      CommitEntriesContacts(Link(s, c, g), s.contacts[c].entries, AddName(s.groups[g].name));
    }
  }

  function DropFromGroups(s: Roster, c: int, gs: seq<int>): Roster {
    if gs == [] then s
    else
      var t := DropFromGroups(s, c, gs[..|gs| - 1]);
      var g := gs[|gs| - 1];
      if g !in t.groups then t else SetGroup(t, g, t.groups[g].(contacts := Without(t.groups[g].contacts, c)))
  }

  function DeleteContact(s: Roster, c: int): Roster
    requires c in s.contacts
  {
    var t := DropFromGroups(s, c, s.contacts[c].groups);
    var tag := s.contacts[c].tag;
    Queue(t.(contacts := t.contacts - {c}, byTag := if tag == "" then t.byTag else t.byTag - {tag}), ContactRemoved(c))
  }

  function RemoveEntries(s: Roster, es: seq<int>, toServer: bool): Roster {
    if es == [] then s
    else EntryRemove(RemoveEntries(s, es[..|es| - 1], toServer), es[|es| - 1], toServer)
  }

  function ContactRemove(s: Roster, c: int, toServer: bool): Roster {
    if c !in s.contacts then s
    else
      var t := RemoveEntries(s, s.contacts[c].entries, toServer);
      if c in t.contacts then DeleteContact(t, c) else t
  }

  function ContactRename(s: Roster, c: int, name: string): Roster {
    if name == "" || c !in s.contacts then s
    else
      var v := s.contacts[c].(name := name);
      Queue(CommitEntries(SetContact(s, c, v), v.entries, SetName(name)), ContactChanged(c, name, v.alt))
  }

  function ContactSetAlt(s: Roster, c: int, alt: string): Roster {
    if c !in s.contacts then s
    else
      var v := s.contacts[c].(alt := alt);
      Queue(SetContact(s, c, v), ContactChanged(c, v.name, alt))
  }

  function ReportMovedContacts(s: Roster, was: seq<int>, now: seq<int>, n: nat): Roster
    requires n <= |was| == |now|
  {
    if n == 0 then s
    else
      var t := ReportMovedContacts(s, was, now, n - 1);
      var c := was[n - 1];
      if now[n - 1] == c || c !in t.contacts then t
      else Queue(t, ContactChanged(c, t.contacts[c].name, t.contacts[c].alt))
  }

  /** Reorders the contact within its first group. */
  function ContactMove(s: Roster, c: int, pos: nat): Roster
    requires c in s.contacts ==> s.contacts[c].groups != [] && s.contacts[c].groups[0] in s.groups
                                 && c in s.groups[s.contacts[c].groups[0]].contacts
                                 && pos < |s.groups[s.contacts[c].groups[0]].contacts|
  {
    if c !in s.contacts then s
    else
      var g := s.contacts[c].groups[0];
      var was := s.groups[g].contacts;
      var now := Moved(was, IndexOf(was, c), pos);
      ReportMovedContacts(SetGroup(s, g, s.groups[g].(contacts := now)), was, now, |was|)
  }

  // ---- entries ----------------------------------------------------------------------------

  /** Registers a new entry with its contact and in both indexes, and announces it. */
  function NewEntry(s: Roster, v: Entry, pos: int): Roster
    requires v.contact in s.contacts
  {
    var e := s.nextEntry;
    var c := v.contact;
    var t := SetContact(s, c, s.contacts[c].(entries := Place(s.contacts[c].entries, pos, e)));
    var listed := if v.jid in s.byJid then s.byJid[v.jid] else [];
    Queue(SetEntry(t, e, v).(byJid := s.byJid[v.jid := [e] + listed], nextEntry := e + 1), EntryAdded(c, e, Props(v)))
  }

  function DropIndexed(byJid: map<string, seq<int>>, jid: string, e: int): map<string, seq<int>> {
    if jid !in byJid then byJid
    else
      var rest := Without(byJid[jid], e);
      if rest == [] then byJid - {jid} else byJid[jid := rest]
  }

  function DeleteEntry(s: Roster, e: int): Roster
    requires e in s.entries
  {
    var c := s.entries[e].contact;
    var t := if c in s.contacts then SetContact(s, c, s.contacts[c].(entries := Without(s.contacts[c].entries, e))) else s;
    Queue(t.(entries := t.entries - {e}, byJid := DropIndexed(t.byJid, s.entries[e].jid, e)), EntryRemoved(e))
  }

  function EntryRemove(s: Roster, e: int, toServer: bool): Roster {
    if e !in s.entries then s
    else
      var v := s.entries[e];
      var t := if toServer && InList(s, v.contact) && v.account in s.active
               then Send(s, RosterDelete(v.account, v.jid)) else s;
      DeleteEntry(t, e)
  }

  /** Hands the entry over to another contact and reports it. */
  function MoveEntry(s: Roster, e: int, to: int): Roster
    requires e in s.entries && s.entries[e].contact in s.contacts && to in s.contacts
  {
    var from := s.entries[e].contact;
    var t := SetContact(s, from, s.contacts[from].(entries := Without(s.contacts[from].entries, e)));
    var u := SetContact(t, to, t.contacts[to].(entries := t.contacts[to].entries + [e]));
    Queue(SetEntry(u, e, u.entries[e].(contact := to)), EntryContactChanged(e, from, to))
  }

  function UserNames(gs: seq<int>, groups: map<int, Group>): seq<string> {
    if gs == [] then []
    else
      var names := UserNames(gs[..|gs| - 1], groups);
      var g := gs[|gs| - 1];
      if g in groups && groups[g].kind == User then names + [groups[g].name] else names
  }

  function First(names: seq<string>): string {
    if names == [] then "" else names[0]
  }

  function EntryChangeContact(s: Roster, e: int, from: int, to: int): Roster {
    if e !in s.entries || from !in s.contacts || to !in s.contacts || s.entries[e].contact != from || from == to then s
    else
      var names := UserNames(s.contacts[to].groups, s.groups);
      var v := s.entries[e].(name := s.contacts[to].name, groups := names, mainGroup := First(names));
      MoveEntry(Send(SetEntry(s, e, v), Commit(v)), e, to)
  }

  function EntryAddId(s: Roster, c: int, account: int, jid: string): int {
    if jid == "" || c !in s.contacts then -1
    else
      var e := FindEntry(s, account, jid);
      if e != -1 then e else s.nextEntry
  }

  function FreshEntry(s: Roster, c: int, account: int, jid: string): Entry
    requires c in s.contacts
  {
    var gs := s.contacts[c].groups;
    var names := if gs != [] && gs[0] in s.groups && s.groups[gs[0]].kind == User then [s.groups[gs[0]].name] else [];
    Entry(account, jid, s.contacts[c].name, "none", false, names, First(names), c)
  }

  function EntryAdd(s: Roster, c: int, account: int, jid: string, nick: string, reason: string, pos: int): Roster {
    if jid == "" || c !in s.contacts then s
    else
      var e := FindEntry(s, account, jid);
      if e != -1 then
        var from := s.entries[e].contact;
        if from == c || from !in s.contacts then s
        else
          var t := EntryChangeContact(s, e, from, c);
          var u := if from in t.contacts && t.contacts[from].entries == [] then ContactRemove(t, from, true) else t;
          if !InList(s, from) then Send(u, Subscribe(account, s.entries[e].jid, nick, reason)) else u
      else
        var v := FreshEntry(s, c, account, jid);
        var t := if InList(s, c) then Send(Send(s, Commit(v)), Subscribe(account, jid, nick, reason)) else s;
        NewEntry(t, v, pos)
  }

  // ---- roster pushes ----------------------------------------------------------------------

  function PushedKind(item: Item): GroupKind { if item.groups == [] then NoGroup else User }
  function PushedGroup(item: Item): string { if item.groups == [] then GENERAL else item.groups[0] }

  /** The group a push asks for, made if there is none. */
  function EnsureGroup(s: Roster, item: Item): Roster {
    if FindGroup(s.order, s.groups, PushedKind(item), PushedGroup(item)) != -1 then s
    else GroupAdd(s, PushedGroup(item), -1)
  }

  function EnsuredGroup(s: Roster, item: Item): int {
    var g := FindGroup(s.order, s.groups, PushedKind(item), PushedGroup(item));
    if g != -1 then g else GroupAddId(s, PushedGroup(item))
  }

  /** Gives every listed entry the pushed groups; `e` is the entry the push is about. */
  function AdoptGroups(s: Roster, ids: seq<int>, e: int, item: Item): Roster
    requires e in s.entries
    ensures AdoptGroups(s, ids, e, item).entries.Keys == s.entries.Keys
  {
    if ids == [] then s
    else
      var t := AdoptGroups(s, ids[..|ids| - 1], e, item);
      var d := ids[|ids| - 1];
      if d !in t.entries then t
      else
        var known := if d == e then item.groups else t.entries[e].groups;
        var v := t.entries[d].(groups := item.groups, mainGroup := if known == [] then "" else First(item.groups));
        Queue(SetEntry(t, d, v), EntryChanged(d, Props(v)))
  }

  /** The group a push asks for does not depend on entries. */
  lemma EnsuredSame(s: Roster, e: int, v: Entry, item: Item)
    ensures EnsuredGroup(SetEntry(s, e, v), item) == EnsuredGroup(s, item)
  {
  }

  function PushedEntry(account: int, item: Item, c: int): Entry {
    Entry(account, item.jid, if item.name == "" then item.jid else item.name, item.sub, item.ask,
          item.groups, First(item.groups), c)
  }

  function ItemAdded(s: Roster, account: int, item: Item): Roster {
    var e := FindEntry(s, account, item.jid);
    if e != -1 && InList(s, s.entries[e].contact) then s
    else
      var g := EnsuredGroup(s, item);
      var t := EnsureGroup(s, item);
      if g !in t.groups then t
      else if e != -1 then
        var c := s.entries[e].contact;
        var hidden := FindGroup(t.order, t.groups, NotInList, NOT_IN_LIST);
        if c !in t.contacts || hidden == -1 || e !in t.entries then t
        else
          var u := Queue(Link(Unlink(t, c, hidden), c, g), ContactGroupChanged(c, hidden, g));
          var w := SetEntry(u, e, u.entries[e].(sub := item.sub, ask := item.ask));
          AdoptGroups(w, u.contacts[c].entries, e, item)
      else
        var name := PushedEntry(account, item, 0).name;
        var found := FindContact(t, name, t.groups[g].name, t.groups[g].kind);
        var u := if found != -1 then t else ContactAdd(t, g, name, -1);
        var c := if found != -1 then found else ContactAddId(t, g, name);
        if c !in u.contacts then u else NewEntry(u, PushedEntry(account, item, c), -1)
  }

  /** The push moves the entry to another group. */
  predicate ChangesGroup(v: Entry, item: Item) {
    (v.groups == [] && item.groups != []) || (v.groups != [] && v.mainGroup !in item.groups)
  }

  function UpdatedEntry(v: Entry, item: Item): Entry {
    v.(sub := item.sub, ask := item.ask, groups := item.groups,
       mainGroup := if ChangesGroup(v, item) then First(item.groups) else v.mainGroup,
       name := if item.name != "" then item.name else v.name)
  }

  /** Moves entry `e` to contact `to` unless it is there, and deletes the contact it leaves empty. */
  function Rehome(s: Roster, e: int, to: int): Roster
    requires e in s.entries
  {
    var from := s.entries[e].contact;
    if from == to || from !in s.contacts || to !in s.contacts then s
    else
      var t := MoveEntry(s, e, to);
      if t.contacts[from].entries == [] then ContactRemove(t, from, true) else t
  }

  function ReportEntry(s: Roster, e: int): Roster {
    if e in s.entries then Queue(s, EntryChanged(e, Props(s.entries[e]))) else s
  }

  function ItemUpdated(s: Roster, account: int, item: Item): Roster {
    var e := FindEntry(s, account, item.jid);
    if e == -1 then s
    else
      var v := UpdatedEntry(s.entries[e], item);
      if !ChangesGroup(s.entries[e], item) then ReportEntry(SetEntry(s, e, v), e)
      else
        var t := EnsureGroup(SetEntry(s, e, v), item);
        var g := EnsuredGroup(s, item);
        if g !in t.groups then t
        else
          var found := FindContact(t, v.name, t.groups[g].name, t.groups[g].kind);
          var u := if found != -1 then t else ContactAdd(t, g, v.name, -1);
          var to := if found != -1 then found else ContactAddId(t, g, v.name);
          if e !in u.entries then u else ReportEntry(Rehome(u, e, to), e)
  }

  function ItemRemoved(s: Roster, account: int, item: Item): Roster {
    var e := FindEntry(s, account, item.jid);
    if e == -1 then s
    else
      var c := s.entries[e].contact;
      var t := DeleteEntry(s, e);
      if c in t.contacts && t.contacts[c].entries == [] then ContactRemove(t, c, true) else t
  }

  /** Makes a hidden contact holding one entry for an address not in the roster. */
  function AddHidden(s: Roster, account: int, jid: string, contactName: string, entryName: string): Roster {
    var g := FindGroup(s.order, s.groups, NotInList, NOT_IN_LIST);
    if g == -1 then s
    else
      var t := NewContact(s, g, contactName, -1);
      NewEntry(t, Entry(account, jid, entryName, "none", false, [], "", s.nextContact), -1)
  }

  datatype SubscriptionType = SubscribeRequest | Subscribed | Unsubscribed | OtherType

  function Subscription(s: Roster, account: int, jid: string, kind: SubscriptionType, nick: string, reason: string): Roster {
    var e := FindEntry(s, account, jid);
    var name := if nick == "" then jid else nick;
    var t := if e != -1 then s else AddHidden(s, account, jid, name, name);
    var id := if e != -1 then e else s.nextEntry;
    match kind
    case SubscribeRequest => Queue(t, AuthRequest(id, nick, reason))
    case Subscribed => Queue(t, AuthGranted(id))
    case Unsubscribed => Queue(t, AuthLost(id))
    case OtherType => t
  }

  /** An incoming chat from an address makes it a hidden entry, whose own name stays empty. */
  function ChatFrom(s: Roster, account: int, jid: string): Roster {
    if FindEntry(s, account, jid) != -1 then s else AddHidden(s, account, jid, jid, "")
  }

  // ---- metacontacts -----------------------------------------------------------------------

  function Retag(s: Roster, c: int, tag: string): Roster
    requires c in s.contacts
  {
    var was := s.contacts[c].tag;
    var kept := if was == "" then s.byTag else s.byTag - {was};
    SetContact(s, c, s.contacts[c].(tag := tag)).(byTag := kept[tag := c])
  }

  /** The directories whose entries change tag report back one by one; each report finds the
      entry already where it belongs and only re-announces it. */
  function ReportEntries(s: Roster, es: seq<int>): Roster {
    if es == [] then s else ReportEntry(ReportEntries(s, es[..|es| - 1]), es[|es| - 1])
  }

  /** Contact looked for when an entry's metacontact tag becomes `tag`, or -1. */
  function TagTarget(s: Roster, e: int, tag: string): int
    requires e in s.entries && s.entries[e].contact in s.contacts
  {
    var c := s.contacts[s.entries[e].contact];
    if tag != "" then (if tag in s.byTag then s.byTag[tag] else -1)
    else if c.groups == [] || c.groups[0] !in s.groups then -1
    else
      var found := FindContact(s, s.entries[e].name, s.groups[c.groups[0]].name, s.groups[c.groups[0]].kind);
      if found != -1 && s.contacts[found].tag != "" then -1 else found
  }

  /** `changed` tells which entries of the newly tagged contact their directories report as changed. */
  function TagChanged(s: Roster, account: int, jid: string, tag: string, changed: set<int>): Roster {
    var e := FindEntry(s, account, jid);
    if e == -1 || s.entries[e].contact !in s.contacts then s
    else
      var c := s.entries[e].contact;
      if tag == s.contacts[c].tag || s.contacts[c].groups == [] then ReportEntry(s, e)
      else
        var found := TagTarget(s, e, tag);
        var g := s.contacts[c].groups[0];
        var name := s.entries[e].name;
        var t := if found != -1 then s else ContactAdd(s, g, name, -1);
        var to := if found != -1 then found else ContactAddId(s, g, name);
        if to !in t.contacts || e !in t.entries then t
        else
          var u := if found != -1 || tag == "" then t
                   else ReportEntries(Retag(t, to, tag), Changed(t.contacts[to].entries, changed));
          if e !in u.entries then u else ReportEntry(Rehome(u, e, to), e)
  }

  function Changed(es: seq<int>, changed: set<int>): seq<int> {
    if es == [] then []
    else
      var rest := Changed(es[..|es| - 1], changed);
      if es[|es| - 1] in changed then rest + [es[|es| - 1]] else rest
  }

  /** Gives an untagged contact the new tag `uuid`. */
  function MintTag(s: Roster, c: int, uuid: string, changed: set<int>): Roster {
    if c !in s.contacts || s.contacts[c].tag != "" then s
    else ReportEntries(Retag(s, c, uuid), Changed(s.contacts[c].entries, changed))
  }

  // ---- accounts ---------------------------------------------------------------------------

  function SetActive(s: Roster, account: int, on: bool): Roster {
    s.(active := if on then s.active + {account} else s.active - {account})
  }

  /** Removes entry `gone`, then what is empty of the contact and the main group entry `e` had. */
  function ClearOut(s: Roster, e: int, gone: int, toServer: bool): Roster
    requires e in s.entries
  {
    var c := s.entries[e].contact;
    var main := s.entries[e].mainGroup;
    var g := if main == "" then -1 else FindGroup(s.order, s.groups, User, main);
    var t := EntryRemove(s, gone, toServer);
    var u := if c in t.contacts && t.contacts[c].entries == [] then ContactRemove(t, c, toServer) else t;
    if g != -1 && g in u.groups && u.groups[g].contacts == [] then GroupRemove(u, g) else u
  }

  /** Removes one entry of an account being deleted, and what that leaves empty. */
  function SweepEntry(s: Roster, account: int, e: int): Roster {
    if e !in s.entries || s.entries[e].account != account then s else ClearOut(s, e, e, false)
  }

  function Sweep(s: Roster, account: int, es: seq<int>): Roster {
    if es == [] then s else SweepEntry(Sweep(s, account, es[..|es| - 1]), account, es[|es| - 1])
  }

  function RemoveAccount(s: Roster, account: int): Roster {
    Sweep(s, account, Ascending(s.entries.Keys))
  }

  /** The address belongs to a gateway. */
  predicate AtHost(jid: string, host: string) {
    jid == host || (|jid| > |host| && jid[|jid| - |host| - 1..] == "@" + host)
  }

  /** Each address as often as there are entries under it, in alphabetic order. */
  function KeyList<T>(byJid: map<string, seq<T>>, js: seq<string>): seq<string> {
    if js == [] then []
    else
      var n := if js[|js| - 1] in byJid then |byJid[js[|js| - 1]]| else 0;
      KeyList(byJid, js[..|js| - 1]) + seq(n, _ => js[|js| - 1])
  }

  /** Looks through the entries `es` found under an address: for one of the account, the entry that is
      first under the address by then is removed, be it that one or not. */
  function VisitAddress(s: Roster, account: int, jid: string, es: seq<int>): Roster {
    if es == [] then s
    else
      var t := VisitAddress(s, account, jid, es[..|es| - 1]);
      var e := es[|es| - 1];
      if e !in t.entries || t.entries[e].account != account || jid !in t.byJid || t.byJid[jid] == [] then t
      else ClearOut(t, e, t.byJid[jid][0], true)
  }

  function VisitAddresses(s: Roster, account: int, host: string, js: seq<string>): Roster {
    if js == [] then s
    else
      var t := VisitAddresses(s, account, host, js[..|js| - 1]);
      var j := js[|js| - 1];
      if !AtHost(j, host) || j !in t.byJid then t else VisitAddress(t, account, j, t.byJid[j])
  }

  function RemoveTransport(s: Roster, account: int, host: string): Roster {
    VisitAddresses(s, account, host, KeyList(s.byJid, Alphabetic(s.byJid.Keys)))
  }

  function DropEmptyGroups(s: Roster, gs: seq<int>): Roster {
    if gs == [] then s
    else
      var t := DropEmptyGroups(s, gs[..|gs| - 1]);
      var g := gs[|gs| - 1];
      if g in t.groups && t.groups[g].contacts == [] then GroupRemove(t, g) else t
  }

  function DeleteEmptyGroups(s: Roster): Roster {
    DropEmptyGroups(s, s.order)
  }
}
