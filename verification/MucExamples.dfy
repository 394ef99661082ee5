/** Short runs in which a change of nickname loses an occupant, or gives two of them one address. */
module MucExamples {
  import opened Lists
  import opened MucModel
  import opened MucInvariant
  import opened MucRuns

  /** Some run ends in the state. */
  ghost predicate Reachable(s: Muc) { exists states, events :: IsRun(states, events) && states[|events|] == s }

  lemma ReachableInv(s: Muc)
    requires Reachable(s)
    ensures Inv(s)
  {
    hide Inv;
    var states, events :| IsRun(states, events) && states[|events|] == s;
    RunInv(states, events);
  }

  lemma NextReachable(s: Muc, ev: Event)
    requires Reachable(s) && Legal(s, ev)
    ensures Reachable(Step(s, ev))
  {
    hide Step;
    var states, events :| IsRun(states, events) && states[|events|] == s;
    assert IsRun(states + [Step(s, ev)], events + [ev]) && (states + [Step(s, ev)])[|events + [ev]|] == Step(s, ev);
  }

  function Here(): Presence { Presence(false, 0, true, 0, false, "", "", "", "", "", "", "", "", false, "", "") }
  function Renamed(nick: string): Presence { Here().(available := false, status := 303, newNick := nick) }

  /** A chat of account 1 in room "r", with nobody in it yet. */
  lemma RoomJoined() returns (s: Muc)
    ensures Reachable(s) && s == INITIAL.(chats := [Room(0, 1, "r", "me", false, false, [], -1)], nextChat := 1)
  {
    hide Inv;
    var none: seq<Event> := [];
    assert IsRun([INITIAL], none) && [INITIAL][|none|] == INITIAL;
    var ev := JoinRoom(1, "r", "me", false, true, true);
    NextReachable(INITIAL, ev);
    s := Step(INITIAL, ev);
  }

  /** Someone enters under a nickname nobody has. */
  lemma Entered(s: Muc, nick: string)
    requires Reachable(s) && |s.chats| == 1 && IsRoom(s.chats[0], 1, "r") && Jid("r", nick) !in s.byJid
    ensures var t, o, j := Step(s, RoomPresence(1, Jid("r", nick), Here(), -1, -1)), s.nextOccupant, Jid("r", nick);
            && Reachable(t) && |t.chats| == 1 && IsRoom(t.chats[0], 1, "r") && t.nextOccupant == o + 1
            && t.occupants == s.occupants[o := Occupant(1, j, "", nick, "", "", "", "")] && t.byJid == s.byJid[j := {o}]
  {
    hide Inv;
    NextReachable(s, RoomPresence(1, Jid("r", nick), Here(), -1, -1));
    assert At(s.byJid, Jid("r", nick)) + {s.nextOccupant} == {s.nextOccupant};
  }

  /** An occupant's nickname is changed to itself, and the occupant is gone. */
  lemma SameNickGone() returns (s: Muc, ev: Event)
    ensures Reachable(s) && Legal(s, ev) && ev.RoomPresence? && NickChange(ev.p) && ev.p.newNick == ev.j.nick
    ensures s.occupants.Keys == {0} && Step(s, ev).occupants == map[]
  {
    hide Inv;
    hide Reachable;
    hide Step;
    s := RoomJoined();
    Entered(s, "ann");
    s := Step(s, RoomPresence(1, Jid("r", "ann"), Here(), -1, -1));
    ev := RoomPresence(1, Jid("r", "ann"), Renamed("ann"), 0, 0);
    Gone(s);
  }

  lemma Gone(s: Muc)
    requires Reachable(s) && |s.chats| == 1 && IsRoom(s.chats[0], 1, "r")
    requires s.occupants == map[0 := Occupant(1, Jid("r", "ann"), "", "ann", "", "", "", "")] && s.byJid == map[Jid("r", "ann") := {0}]
    ensures var ev := RoomPresence(1, Jid("r", "ann"), Renamed("ann"), 0, 0); Legal(s, ev) && Step(s, ev).occupants == map[]
  {
    hide Inv;
    hide Reachable;
    var j := Jid("r", "ann");
    DepartShape(s, 0, j, Renamed("ann"), 0);
  }

  /** An occupant takes the nickname of another, and both have one address. */
  lemma NickTaken() returns (s: Muc, ev: Event)
    ensures Reachable(s) && Legal(s, ev) && Collides(s, ev) && Distinct(s.occupants) && !Distinct(Step(s, ev).occupants)
    ensures BothBob(Step(s, ev))
  {
    hide Inv;
    hide Reachable;
    hide Step;
    s := RoomJoined();
    Entered(s, "ann");
    s := Step(s, RoomPresence(1, Jid("r", "ann"), Here(), -1, -1));
    Entered(s, "bob");
    s := Step(s, RoomPresence(1, Jid("r", "bob"), Here(), -1, -1));
    ev := RoomPresence(1, Jid("r", "ann"), Renamed("bob"), 0, -1);
    Taken(s);
  }

  /** Two occupants have one address, and one of them takes a nickname nobody has: the other one is deleted. */
  lemma OtherGone() returns (s: Muc, ev: Event)
    ensures Reachable(s) && Legal(s, ev) && ev.RoomPresence? && NickChange(ev.p) && ev.p.newNick != ev.j.nick
    ensures !Used(s, 1, Jid("r", ev.p.newNick)) && ev.found == 0 && s.occupants.Keys == {0, 1} && Step(s, ev).occupants.Keys == {0}
  {
    hide Inv;
    hide Reachable;
    hide Step;
    var before, change := NickTaken();
    NextReachable(before, change);
    s := Step(before, change);
    ev := RoomPresence(1, Jid("r", "bob"), Renamed("carl"), 0, 1);
    OneOfTwo(s);
  }

  lemma Taken(s: Muc)
    requires Reachable(s) && |s.chats| == 1 && IsRoom(s.chats[0], 1, "r")
    requires s.occupants == map[0 := Occupant(1, Jid("r", "ann"), "", "ann", "", "", "", "")][1 := Occupant(1, Jid("r", "bob"), "", "bob", "", "", "", "")]
    requires s.byJid == map[Jid("r", "ann") := {0}][Jid("r", "bob") := {1}]
    ensures var ev := RoomPresence(1, Jid("r", "ann"), Renamed("bob"), 0, -1);
            Legal(s, ev) && Collides(s, ev) && Distinct(s.occupants) && !Distinct(Step(s, ev).occupants) && BothBob(Step(s, ev))
  {
    hide Inv;
    hide Reachable;
    hide Step;
    var ev := RoomPresence(1, Jid("r", "ann"), Renamed("bob"), 0, -1);
    DepartShape(s, 0, Jid("r", "ann"), Renamed("bob"), 0);
    ReachableInv(s);
    assert s.occupants[1].full == Jid("r", "bob");
    StepDistinct(s, ev);
    BobTwice(s);
  }

  /** Two occupants are called "bob". */
  predicate BothBob(s: Muc) {
    && |s.chats| == 1 && IsRoom(s.chats[0], 1, "r") && s.occupants.Keys == {0, 1}
    && (forall o <- s.occupants :: s.occupants[o].account == 1 && s.occupants[o].full == Jid("r", "bob"))
    && At(s.byJid, Jid("r", "bob")) == {0, 1}
  }

  lemma BobTwice(s: Muc)
    requires |s.chats| == 1 && IsRoom(s.chats[0], 1, "r")
    requires s.occupants == map[0 := Occupant(1, Jid("r", "ann"), "", "ann", "", "", "", "")][1 := Occupant(1, Jid("r", "bob"), "", "bob", "", "", "", "")]
    requires s.byJid == map[Jid("r", "ann") := {0}][Jid("r", "bob") := {1}]
    ensures BothBob(Step(s, RoomPresence(1, Jid("r", "ann"), Renamed("bob"), 0, -1)))
  {
    DepartShape(s, 0, Jid("r", "ann"), Renamed("bob"), 0);
  }

  lemma OneOfTwo(s: Muc)
    requires Reachable(s) && BothBob(s)
    ensures var ev := RoomPresence(1, Jid("r", "bob"), Renamed("carl"), 0, 1);
            Legal(s, ev) && !Used(s, 1, Jid("r", "carl")) && Step(s, ev).occupants.Keys == {0}
  {
    hide Inv;
    hide Reachable;
    var j, ev := Jid("r", "bob"), RoomPresence(1, Jid("r", "bob"), Renamed("carl"), 0, 1);
    ReachableInv(s);
    DepartShape(s, 0, j, Renamed("carl"), 0);
    assert Legal(s, ev);
    NickChangeKeepsOccupant(s, 1, j, Renamed("carl"), 0, 1);
    assert !Alone(s, 1, j, 0) by { assert 1 in s.occupants && s.occupants[1].full == j; }
  }
}
