/** Group chats and their occupants, as a value, and what each event makes of them. */
module MucModel {
  import opened Lists

  /** An address of a room, or with a nickname in it of an occupant. */
  datatype Jid = Jid(room: string, nick: string)

  datatype Occupant = Occupant(account: int, full: Jid, realJid: string, nickname: string,
                               role: string, affiliation: string, status: string, statusText: string)

  /** `me` is -1 as long as the own occupant is unknown. */
  datatype Room = Room(id: int, account: int, room: string, nickname: string, history: bool, joined: bool,
                       participants: seq<int>, me: int)

  datatype Note =
    | Created(gc: int)
    | Joined(gc: int, room: string, nick: string)
    | Left(gc: int)
    | Destroyed(gc: int, reason: string, alternate: string)
    | Error(gc: int, code: int, text: string)
    | ContactJoined(gc: int, nick: string, realJid: string, role: string, affiliation: string)
    | RoleChanged(gc: int, nick: string, role: string, affiliation: string)
    | StatusChanged(gc: int, nick: string, status: string, text: string)
    | NicknameChanged(gc: int, nick: string, newNick: string)
    | Banned(gc: int, nick: string, actor: string, reason: string)
    | Kicked(gc: int, nick: string, actor: string, reason: string)
    | Removed(gc: int, nick: string, why: string, actor: string, reason: string)
    | ContactLeft(gc: int, nick: string, text: string)

  /** What the bridge reads from a presence stanza of a room. */
  datatype Presence = Presence(
    error: bool, code: int, available: bool, status: int, destroyed: bool, alternate: string, destroyReason: string,
    newNick: string, realJid: string, role: string, affiliation: string, actor: string, reason: string,
    invisible: bool, show: string, text: string)

  datatype Muc = Muc(chats: seq<Room>, occupants: map<int, Occupant>, byJid: map<Jid, set<int>>,
                     nextChat: int, nextOccupant: int, log: seq<Note>)

  const INITIAL := Muc([], map[], map[], 0, 0, [])

  // ---- look-ups -----------------------------------------------------------------------------

  predicate IsRoom(r: Room, account: int, room: string) { r.account == account && r.room == room }

  /** Place of the first chat of that account and room, or -1. */
  function FindRoom(chats: seq<Room>, account: int, room: string): (k: int)
    ensures -1 <= k < |chats|
    ensures k >= 0 ==> IsRoom(chats[k], account, room)
    ensures k == -1 ==> forall i :: 0 <= i < |chats| ==> !IsRoom(chats[i], account, room)
  {
    if chats == [] then -1
    else if IsRoom(chats[0], account, room) then 0
    else
      var k := FindRoom(chats[1..], account, room);
      if k == -1 then -1 else k + 1
  }

  function FindId(chats: seq<Room>, id: int): (k: int)
    ensures -1 <= k < |chats|
    ensures k >= 0 ==> chats[k].id == id
    ensures k == -1 ==> forall i :: 0 <= i < |chats| ==> chats[i].id != id
  {
    if chats == [] then -1
    else if chats[0].id == id then 0
    else
      var k := FindId(chats[1..], id);
      if k == -1 then -1 else k + 1
  }

  function At(byJid: map<Jid, set<int>>, j: Jid): set<int> {
    if j in byJid then byJid[j] else {}
  }

  /** `o` is one of the account's occupants listed under the address, or -1 if there is none. Which one
      is found when there are several is left open. */
  predicate Found(s: Muc, account: int, j: Jid, o: int) {
    if o == -1 then forall p <- At(s.byJid, j) :: p in s.occupants ==> s.occupants[p].account != account
    else o in At(s.byJid, j) && o in s.occupants && s.occupants[o].account == account
  }

  // ---- small steps ----------------------------------------------------------------------------

  function Queue(s: Muc, n: Note): Muc { s.(log := s.log + [n]) }

  function SetRoom(s: Muc, k: nat, r: Room): Muc
    requires k < |s.chats|
  {
    s.(chats := s.chats[k := r])
  }

  function Unlist(byJid: map<Jid, set<int>>, j: Jid, o: int): map<Jid, set<int>> {
    var rest := At(byJid, j) - {o};
    if rest == {} then byJid - {j} else byJid[j := rest]
  }

  /** Files an occupant under its identifier and its full address. */
  function Register(s: Muc, o: int, v: Occupant): Muc {
    s.(occupants := s.occupants[o := v], byJid := s.byJid[v.full := At(s.byJid, v.full) + {o}])
  }

  function Unregister(s: Muc, o: int): Muc {
    if o !in s.occupants then s
    else s.(occupants := s.occupants - {o}, byJid := Unlist(s.byJid, s.occupants[o].full, o))
  }

  function NewRoom(s: Muc, account: int, room: string, nick: string, history: bool): Muc {
    s.(chats := s.chats + [Room(s.nextChat, account, room, nick, history, false, [], -1)], nextChat := s.nextChat + 1)
  }

  function UnregisterAll(s: Muc, os: seq<int>): Muc {
    if os == [] then s else Unregister(UnregisterAll(s, os[..|os| - 1]), os[|os| - 1])
  }

  /** Takes the chat and all its occupants away. */
  function DeleteRoom(s: Muc, k: nat): Muc
    requires k < |s.chats|
  {
    UnregisterAll(s, s.chats[k].participants).(chats := s.chats[..k] + s.chats[k + 1..])
  }

  // ---- commands ---------------------------------------------------------------------------------

  /** `valid` says whether the address is one, `success` whether the connection accepted the request. */
  function Join(s: Muc, account: int, room: string, nick: string, history: bool, valid: bool, success: bool): Muc {
    if FindRoom(s.chats, account, room) != -1 || !valid || !success then s else NewRoom(s, account, room, nick, history)
  }

  function RetryJoin(s: Muc, id: int, nick: string): Muc {
    var k := FindId(s.chats, id);
    if k == -1 || nick == "" then s else SetRoom(s, k, s.chats[k].(nickname := nick))
  }

  function End(s: Muc, id: int): Muc {
    var k := FindId(s.chats, id);
    if k == -1 then s else DeleteRoom(Queue(s, Left(id)), k)
  }

  // ---- events from the connection -----------------------------------------------------------------

  function ChatJoined(s: Muc, account: int, j: Jid): Muc {
    var t := if FindRoom(s.chats, account, j.room) != -1 then s else NewRoom(s, account, j.room, j.nick, false);
    var k := FindRoom(t.chats, account, j.room);
    if k == -1 then t
    else Queue(SetRoom(t, k, t.chats[k].(joined := true)), Joined(t.chats[k].id, t.chats[k].room, t.chats[k].nickname))
  }

  function ChatLeft(s: Muc, account: int, j: Jid): Muc {
    var k := FindRoom(s.chats, account, j.room);
    if k == -1 then s else DeleteRoom(Queue(s, Left(s.chats[k].id)), k)
  }

  function ChatError(s: Muc, account: int, j: Jid, code: int, text: string): Muc {
    var k := FindRoom(s.chats, account, j.room);
    if k == -1 then s else Queue(s, Error(s.chats[k].id, code, text))
  }

  function ErrorText(code: int): string {
    if code == 409 then "Please choose a different nickname" else "An error occurred"
  }

  function StatusName(p: Presence): string {
    if p.invisible then "Invisible"
    else if p.show == "away" then "Away"
    else if p.show == "xa" then "ExtendedAway"
    else if p.show == "dnd" then "DoNotDisturb"
    else "Online"
  }

  /** Someone new is in the room; with the own nickname it is taken for the own occupant. */
  function Enter(s: Muc, k: nat, j: Jid, p: Presence): Muc
    requires k < |s.chats|
  {
    var r, o := s.chats[k], s.nextOccupant;
    var v := Occupant(r.account, j, p.realJid, j.nick, p.role, p.affiliation, "", "");
    var me := if j.nick == r.nickname && r.me == -1 then o else r.me;
    var t := Register(s.(nextOccupant := o + 1), o, v);
    Queue(SetRoom(t, k, r.(me := me, participants := r.participants + [o])),
          ContactJoined(r.id, j.nick, p.realJid, p.role, p.affiliation))
  }

  function Refresh(s: Muc, k: nat, o: int, j: Jid, p: Presence): Muc
    requires k < |s.chats| && o in s.occupants
  {
    var v := s.occupants[o];
    var t := if p.role == v.role && p.affiliation == v.affiliation then s
             else Queue(s.(occupants := s.occupants[o := v.(role := p.role, affiliation := p.affiliation)]),
                        RoleChanged(s.chats[k].id, j.nick, p.role, p.affiliation));
    var w := t.occupants[o];
    if StatusName(p) == w.status && p.text == w.statusText then t
    else Queue(t.(occupants := t.occupants[o := w.(status := StatusName(p), statusText := p.text)]),
               StatusChanged(s.chats[k].id, j.nick, StatusName(p), p.text))
  }

  function Available(s: Muc, k: nat, j: Jid, p: Presence, found: int): Muc
    requires k < |s.chats|
  {
    var t := if p.status == 201 then Queue(s, Created(s.chats[k].id)) else s;
    if found == -1 then Enter(t, k, j, p)
    else if found in t.occupants then Refresh(t, k, found, j, p)
    else t
  }

  /** Files the occupant under its new nickname. */
  function Rename(s: Muc, o: int, nick: string): Muc
    requires o in s.occupants
  {
    var v := s.occupants[o];
    Register(Unregister(s, o), o, v.(nickname := nick, full := Jid(v.full.room, nick)))
  }

  function LeaveIfMe(s: Muc, k: nat, nick: string): Muc
    requires k < |s.chats|
  {
    if nick == s.chats[k].nickname then Queue(s, Left(s.chats[k].id)) else s
  }

  /** The part of an unavailable presence before the occupant is deleted. */
  function Depart(s: Muc, k: nat, j: Jid, p: Presence, found: int): (t: Muc)
    requires k < |s.chats|
    ensures |t.chats| == |s.chats|
  {
    var id := s.chats[k].id;
    var t := if p.destroyed then Queue(Queue(s, Destroyed(id, p.destroyReason, p.alternate)), Left(id)) else s;
    if p.status == 301 then LeaveIfMe(Queue(t, Banned(id, j.nick, p.actor, p.reason)), k, j.nick)
    else if p.status == 303 then
      var u := Queue(t, NicknameChanged(id, j.nick, p.newNick));
      var w := if found in u.occupants then Rename(u, found, p.newNick) else u;
      if j.nick == w.chats[k].nickname then SetRoom(w, k, w.chats[k].(nickname := p.newNick)) else w
    else if p.status == 307 then LeaveIfMe(Queue(t, Kicked(id, j.nick, p.actor, p.reason)), k, j.nick)
    else if p.status == 321 then LeaveIfMe(Queue(t, Removed(id, j.nick, "affiliation_change", p.actor, p.reason)), k, j.nick)
    else if p.status == 322 then LeaveIfMe(Queue(t, Removed(id, j.nick, "members_only", p.actor, p.reason)), k, j.nick)
    else Queue(t, ContactLeft(id, j.nick, p.text))
  }

  /** Deletes the occupant found under the address, if any. */
  function Drop(s: Muc, k: nat, gone: int): Muc
    requires k < |s.chats|
  {
    if gone !in s.occupants then s
    else
      var r := s.chats[k];
      Unregister(SetRoom(s, k, r.(participants := Without(r.participants, gone), me := if r.me == gone then -1 else r.me)), gone)
  }

  /** `found` and `gone` are the occupants found under the address at the start and at the end. */
  function PresenceReceived(s: Muc, account: int, j: Jid, p: Presence, found: int, gone: int): Muc {
    if p.error then ChatError(s, account, j, p.code, ErrorText(p.code))
    else
      var k := FindRoom(s.chats, account, j.room);
      if k == -1 then s
      else if p.available then Available(s, k, j, p, found)
      else Drop(Depart(s, k, j, p, found), k, gone)
  }

  /** The look-ups of a presence found what they report. */
  predicate LookedUp(s: Muc, account: int, j: Jid, p: Presence, found: int, gone: int) {
    var k := FindRoom(s.chats, account, j.room);
    !p.error && k != -1 ==>
      && (p.available || p.status == 303 ==> Found(s, account, j, found))
      && (!p.available ==> Found(Depart(s, k, j, p, found), account, j, gone))
  }
}
