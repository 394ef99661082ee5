/** A small memory cache of vCards in front of one file per address. */
module VCardFactory {
  import opened Lists
  import opened JidUtil

  const DICT_SIZE := 5

  type Card = string
  datatype Option<T> = None | Some(value: T)

  datatype Cache = Cache(list: seq<string>, dict: map<string, Card>, disk: map<string, Card>)

  /** Name of the file of an address, but for directory and suffix. */
  function FileOf(jid: string): string { Lower(Encoded(jid)) }

  /** Addresses as the rest of the program passes them. */
  predicate Plain(jid: string) { Ascii(jid) && Lower(jid) == jid }

  // ---- what the methods make of the cache -------------------------------------------------------------

  /** Puts the card in front; a full list loses its last one first. */
  function Put(c: Cache, jid: string, card: Card): Cache {
    if jid in c.list then c.(list := [jid] + Without(c.list, jid), dict := c.dict[jid := card])
    else if |c.list| > DICT_SIZE then
      var j := c.list[|c.list| - 1];
      c.(list := [jid] + c.list[..|c.list| - 1], dict := (c.dict - {j})[jid := card])
    else c.(list := [jid] + c.list, dict := c.dict[jid := card])
  }

  function Fetched(c: Cache, jid: string, card: Card): Cache {
    var t := Put(c, jid, card);
    t.(disk := t.disk[FileOf(jid) := card])
  }

  /** The card found for an address, and the cache after looking. */
  function Lookup(c: Cache, jid: string): (Option<Card>, Cache) {
    if jid in c.dict then (Some(c.dict[jid]), c)
    else if FileOf(jid) in c.disk then (Some(c.disk[FileOf(jid)]), Put(c, jid, c.disk[FileOf(jid)]))
    else (None, c)
  }

  class VCardFactory {
    var vcardList: seq<string>
    var vcardDict: map<string, Card>
    var disk: map<string, Card>

    function View(): Cache
      reads this
    {
      Cache(vcardList, vcardDict, disk)
    }

    constructor (disk: map<string, Card>)
      ensures View() == Cache([], map[], disk)
    {
      vcardList, vcardDict, this.disk := [], map[], disk;
    }

    method CheckLimit(jid: string, card: Card)
      modifies this`vcardList, this`vcardDict
      ensures View() == Put(old(View()), jid, card)
    {
      if jid in vcardList {
        vcardList := Without(vcardList, jid);
        vcardDict := vcardDict - {jid};
      } else if |vcardList| > DICT_SIZE {
        var j := vcardList[|vcardList| - 1];
        vcardList := vcardList[..|vcardList| - 1];
        vcardDict := vcardDict - {j};
      }
      vcardDict := vcardDict[jid := card];
      vcardList := [jid] + vcardList;
      assert jid in old(vcardList) ==> vcardDict == old(vcardDict)[jid := card];
    }

    method TaskFinished(success: bool, jid: string, card: Card)
      modifies this
      ensures View() == if success then Fetched(old(View()), jid, card) else old(View())
    {
      if success {
        CheckLimit(jid, card);
        disk := disk[FileOf(jid) := card];
      }
    }

    method VCard(jid: string) returns (card: Option<Card>)
      modifies this`vcardList, this`vcardDict
      ensures (card, View()) == Lookup(old(View()), jid)
    {
      if jid in vcardDict {
        return Some(vcardDict[jid]);
      }
      if FileOf(jid) in disk {
        card := Some(disk[FileOf(jid)]);
        CheckLimit(jid, card.value);
      } else {
        card := None;
      }
    }

    /** Changes the cached card only. */
    method SetVCard(jid: string, card: Card)
      modifies this`vcardList, this`vcardDict
      ensures View() == Put(old(View()), jid, card)
    {
      CheckLimit(jid, card);
    }
  }

  // ---- what holds in every state ------------------------------------------------------------------------

  /** `Set` changes the card in memory without writing its file. */
  datatype Event = Arrived(jid: string, card: Card) | Asked(jid: string) | Set(jid: string, card: Card)

  function Step(c: Cache, ev: Event): Cache {
    match ev
    case Arrived(jid, card) => Fetched(c, jid, card)
    case Asked(jid) => Lookup(c, jid).1
    case Set(jid, card) => Put(c, jid, card)
  }

  /** List and map have the same addresses, each once and at most six. */
  ghost predicate Shape(c: Cache) {
    && NoDup(c.list) && |c.list| <= DICT_SIZE + 1
    && (forall j :: j in c.list <==> j in c.dict)
    && (forall j <- c.dict :: Plain(j))
  }

  function FileCard(disk: map<string, Card>, jid: string): Option<Card> {
    if FileOf(jid) in disk then Some(disk[FileOf(jid)]) else None
  }

  /** Moreover each cached card is the one in its file. */
  ghost predicate Inv(c: Cache) {
    Shape(c) && forall j <- c.dict :: FileCard(c.disk, j) == Some(c.dict[j])
  }

  lemma ConsNoDup(x: string, s: seq<string>)
    requires NoDup(s) && x !in s
    ensures NoDup([x] + s)
  {
  }

  /** A full list without its last address. */
  lemma CutLast(c: Cache)
    requires Shape(c) && c.list != []
    ensures var n := |c.list| - 1;
            && NoDup(c.list[..n]) && c.list[n] !in c.list[..n] && c.list[n] in c.dict
            && forall j :: j in c.list[..n] <==> j in c.dict && j != c.list[n]
  {
    hide Plain;
    var n := |c.list| - 1;
    assert c.list == c.list[..n] + [c.list[n]];
    assert c.list[n] in c.list;
  }

  lemma PutShape(c: Cache, jid: string, card: Card)
    requires Shape(c) && Plain(jid)
    ensures var t := Put(c, jid, card);
            && Shape(t) && t.disk == c.disk && jid in t.dict && t.dict[jid] == card
            && forall j <- t.dict :: j != jid ==> j in c.dict && t.dict[j] == c.dict[j]
  {
    hide Plain;
    hide NoDup;
    if jid in c.list {
      WithoutNoDup(c.list, jid);
      ConsNoDup(jid, Without(c.list, jid));
    } else if |c.list| > DICT_SIZE {
      CutLast(c);
      ConsNoDup(jid, c.list[..|c.list| - 1]);
    } else {
      ConsNoDup(jid, c.list);
    }
  }

  lemma {:induction false} WithoutNoDup(s: seq<string>, x: string)
    requires NoDup(s)
    ensures NoDup(Without(s, x)) && (x in s ==> |Without(s, x)| == |s| - 1) && (x !in s ==> Without(s, x) == s)
  {
    if s != [] {
      assert s == [s[0]] + s[1..];
      WithoutNoDup(s[1..], x);
      assert s[0] !in s[1..];
    }
  }

  lemma StepShape(c: Cache, ev: Event)
    requires Shape(c) && Plain(ev.jid)
    ensures Shape(Step(c, ev))
  {
    hide Put;
    hide Plain;
    hide FileOf;
    if ev.Arrived? || ev.Set? {
      PutShape(c, ev.jid, ev.card);
    } else if FileOf(ev.jid) in c.disk {
      PutShape(c, ev.jid, c.disk[FileOf(ev.jid)]);
    }
  }

  /** Cached cards stay those of the files, if and only if no card is set that is not the file's. */
  lemma StepInv(c: Cache, ev: Event)
    requires Inv(c) && Plain(ev.jid)
    ensures Inv(Step(c, ev)) <==> !ev.Set? || FileCard(c.disk, ev.jid) == Some(ev.card)
  {
    hide Put;
    hide Plain;
    hide FileOf;
    var t := Step(c, ev);
    if ev.Arrived? {
      PutShape(c, ev.jid, ev.card);
      forall j | j in t.dict ensures FileCard(t.disk, j) == Some(t.dict[j]) {
        FilesApart(j, ev.jid);
      }
    } else if ev.Set? {
      PutShape(c, ev.jid, ev.card);
      assert FileCard(t.disk, ev.jid) == FileCard(c.disk, ev.jid);
    } else if ev.jid !in c.dict && FileOf(ev.jid) in c.disk {
      PutShape(c, ev.jid, c.disk[FileOf(ev.jid)]);
    }
  }

  lemma FilesApart(a: string, b: string)
    requires Plain(a) && Plain(b)
    ensures FileOf(a) == FileOf(b) ==> a == b
  {
    if FileOf(a) == FileOf(b) {
      LowerEncodeInjective(a, b);
    }
  }

  // ---- runs -----------------------------------------------------------------------------------------------

  function After(disk: map<string, Card>, events: seq<Event>): Cache {
    if events == [] then Cache([], map[], disk) else Step(After(disk, events[..|events| - 1]), events[|events| - 1])
  }

  predicate AllPlain(events: seq<Event>) { forall i :: 0 <= i < |events| ==> Plain(events[i].jid) }

  /** The last card that arrived for the address, if any. */
  function LastArrived(events: seq<Event>, jid: string): Option<Card> {
    if events == [] then None
    else if events[|events| - 1].Arrived? && events[|events| - 1].jid == jid then Some(events[|events| - 1].card)
    else LastArrived(events[..|events| - 1], jid)
  }

  predicate Gives(ev: Event, jid: string) { (ev.Arrived? || ev.Set?) && ev.jid == jid }

  /** The last card that arrived or was set for the address, if any. */
  function LastGiven(events: seq<Event>, jid: string): Option<Card> {
    if events == [] then None
    else if Gives(events[|events| - 1], jid) then Some(events[|events| - 1].card)
    else LastGiven(events[..|events| - 1], jid)
  }

  /** What the file of the address holds by then. */
  function Filed(disk: map<string, Card>, events: seq<Event>, jid: string): Option<Card> {
    if LastArrived(events, jid).Some? then LastArrived(events, jid) else FileCard(disk, jid)
  }

  /** The event puts its address in front: a card arrives, is set, or is loaded from its file. */
  predicate Puts(c: Cache, ev: Event) {
    ev.Arrived? || ev.Set? || (ev.jid !in c.dict && FileOf(ev.jid) in c.disk)
  }

  /** The other addresses put in front since a card was last given for the address. */
  function Others(disk: map<string, Card>, events: seq<Event>, jid: string): set<string> {
    if events == [] then {}
    else
      var ev, before := events[|events| - 1], events[..|events| - 1];
      if Gives(ev, jid) then {}
      else Others(disk, before, jid) + if ev.jid != jid && Puts(After(disk, before), ev) then {ev.jid} else {}
  }

  lemma {:induction false} RunShape(disk: map<string, Card>, events: seq<Event>)
    requires AllPlain(events)
    ensures Shape(After(disk, events))
  {
    if events != [] {
      RunShape(disk, events[..|events| - 1]);
      StepShape(After(disk, events[..|events| - 1]), events[|events| - 1]);
    }
  }

  lemma StepDisk(c: Cache, ev: Event, jid: string)
    requires Plain(ev.jid) && Plain(jid)
    ensures FileCard(Step(c, ev).disk, jid) == if ev.Arrived? && ev.jid == jid then Some(ev.card) else FileCard(c.disk, jid)
  {
    hide Put;
    hide Plain;
    hide FileOf;
    PutKeepsDisk(c, ev.jid, if ev.Asked? then "" else ev.card);
    if ev.Asked? && FileOf(ev.jid) in c.disk {
      PutKeepsDisk(c, ev.jid, c.disk[FileOf(ev.jid)]);
    }
    FilesApart(ev.jid, jid);
  }

  lemma PutKeepsDisk(c: Cache, jid: string, card: Card)
    ensures Put(c, jid, card).disk == c.disk
  {
  }

  lemma {:induction false} DiskHolds(disk: map<string, Card>, events: seq<Event>, jid: string)
    requires AllPlain(events) && Plain(jid)
    ensures FileCard(After(disk, events).disk, jid) == Filed(disk, events, jid)
  {
    hide FileOf;
    hide Plain;
    hide Step;
    if events != [] {
      DiskHolds(disk, events[..|events| - 1], jid);
      StepDisk(After(disk, events[..|events| - 1]), events[|events| - 1], jid);
    }
  }

  /** The addresses in front of `jid` are exactly `others`, or there are too many for it to be there. */
  ghost predicate Behind(list: seq<string>, jid: string, others: set<string>) {
    |others| <= DICT_SIZE ==>
      |others| < |list| && list[|others|] == jid && forall x :: x in list[..|others|] <==> x in others
  }

  /** Putting another address in front of a list `a`, `jid`, `b`. */
  lemma WithoutAround(a: seq<string>, jid: string, b: seq<string>, o: string)
    requires o != jid
    ensures Without(a + [jid] + b, o) == Without(a, o) + [jid] + Without(b, o)
  {
    WithoutSum(a + [jid], b, o);
    WithoutSum(a, [jid], o);
    assert Without([jid], o) == [jid];
  }

  lemma FrontNoDup(a: seq<string>, b: seq<string>)
    requires NoDup(a + b)
    ensures NoDup(a)
  {
    forall i, j | 0 <= i < j < |a| ensures a[i] != a[j] {
      assert (a + b)[i] == a[i] && (a + b)[j] == a[j];
    }
  }

  lemma BehindIs(front: seq<string>, jid: string, rest: seq<string>, others: set<string>)
    requires |front| == |others| && forall x :: x in front <==> x in others
    ensures Behind(front + [jid] + rest, jid, others)
  {
    assert (front + [jid] + rest)[..|front|] == front;
  }

  lemma AheadAgain(a: seq<string>, others: set<string>, o: string)
    requires NoDup(a) && (forall x :: x in a <==> x in others) && o in a
    ensures others + {o} == others && |[o] + Without(a, o)| == |a| && forall x :: x in [o] + Without(a, o) <==> x in others
  {
    WithoutNoDup(a, o);
    assert others + {o} == others;
  }

  lemma AheadNew(a: seq<string>, others: set<string>, o: string)
    requires (forall x :: x in a <==> x in others) && |others| == |a| && o !in a
    ensures |others + {o}| == |a| + 1 && forall x :: x in [o] + a <==> x in others + {o}
  {
  }

  lemma Associative(o: string, x: seq<string>, jid: string, y: seq<string>)
    ensures [o] + (x + [jid] + y) == [o] + x + [jid] + y
  {
  }

  lemma AheadNext(a: seq<string>, others: set<string>, o: string)
    requires NoDup(a) && (forall x :: x in a <==> x in others) && |others| == |a|
    ensures |[o] + Without(a, o)| == |others + {o}| == |a| + (if o in a then 0 else 1)
    ensures forall x :: x in [o] + Without(a, o) <==> x in others + {o}
  {
    hide NoDup;
    WithoutNoDup(a, o);
    if o in a {
      AheadAgain(a, others, o);
    } else {
      AheadNew(a, others, o);
    }
  }

  /** The address keeps its place, or another one comes before it. */
  lemma ListedBehind(a: seq<string>, jid: string, b: seq<string>, others: set<string>, o: string)
    requires NoDup(a) && (forall x :: x in a <==> x in others) && |others| == |a| && o != jid && (o in a || o in b)
    requires |a| + |b| <= DICT_SIZE
    ensures Behind([o] + Without(a + [jid] + b, o), jid, others + {o}) && |others + {o}| <= DICT_SIZE
  {
    hide NoDup;
    hide Behind;
    hide Without;
    AheadNext(a, others, o);
    BehindIs([o] + Without(a, o), jid, Without(b, o), others + {o});
    Associative(o, Without(a, o), jid, Without(b, o));
    WithoutAround(a, jid, b, o);
  }

  /** A new address comes in front of the list, or of all but its last. */
  lemma NewBehind(list: seq<string>, a: seq<string>, jid: string, others: set<string>, o: string)
    requires a < list && list[|a|] == jid && (forall x :: x in a <==> x in others) && |others| == |a| && o !in others
    ensures |others + {o}| == |a| + 1 && Behind([o] + list, jid, others + {o})
  {
    assert ([o] + list)[..|a| + 1] == [o] + a;
  }

  /** The list around an address with `n` others before it. */
  lemma AroundIt(list: seq<string>, jid: string, others: set<string>)
    requires NoDup(list) && Behind(list, jid, others) && |others| <= DICT_SIZE
    ensures var a, b := list[..|others|], list[|others| + 1..];
            |others| < |list| && list == a + [jid] + b && NoDup(a) && forall x :: x in a <==> x in others
  {
    var a, b := list[..|others|], list[|others| + 1..];
    assert list == a + [jid] + b == a + ([jid] + b);
    FrontNoDup(a, [jid] + b);
  }

  lemma PutBehind(c: Cache, jid: string, others: set<string>, o: string, card: Card)
    requires Shape(c) && Behind(c.list, jid, others) && |others| <= DICT_SIZE && o != jid
    ensures Behind(Put(c, o, card).list, jid, others + {o})
    ensures |others + {o}| > DICT_SIZE ==> jid !in Put(c, o, card).list
  {
    hide Plain;
    hide NoDup;
    hide Without;
    var n := |others|;
    var a, b := c.list[..n], c.list[n + 1..];
    AroundIt(c.list, jid, others);
    hide Behind;
    if o in c.list {
      ListedBehind(a, jid, b, others, o);
    } else if |c.list| <= DICT_SIZE {
      NewBehind(c.list, a, jid, others, o);
    } else {
      FullBehind(c, a, jid, others, o);
    }
  }

  lemma FullBehind(c: Cache, a: seq<string>, jid: string, others: set<string>, o: string)
    requires Shape(c) && |c.list| == DICT_SIZE + 1 && o !in c.list && o != jid
    requires a < c.list && c.list[|a|] == jid && (forall x :: x in a <==> x in others) && |others| == |a|
    ensures var list := [o] + c.list[..DICT_SIZE];
            Behind(list, jid, others + {o}) && (|others + {o}| > DICT_SIZE ==> jid !in list)
  {
    hide Plain;
    hide Behind;
    if |a| < DICT_SIZE {
      assert a < c.list[..DICT_SIZE];
      NewBehind(c.list[..DICT_SIZE], a, jid, others, o);
    } else {
      CutLast(c);
      TooMany(a, others, o);
    }
  }

  lemma TooMany(a: seq<string>, others: set<string>, o: string)
    requires |a| == |others| == DICT_SIZE && (forall x :: x in a <==> x in others) && o !in a
    ensures |others + {o}| > DICT_SIZE && forall list: seq<string>, jid :: Behind(list, jid, others + {o})
  {
  }

  /** What is cached for an address is what was last given, while not too many others came in front; and
      from then on it is what the file holds. */
  ghost predicate Remembers(c: Cache, disk: map<string, Card>, events: seq<Event>, jid: string) {
    var given, others := LastGiven(events, jid), Others(disk, events, jid);
    if given.Some? && |others| <= DICT_SIZE then Behind(c.list, jid, others) && jid in c.dict && c.dict[jid] == given.value
    else jid in c.dict ==> Some(c.dict[jid]) == Filed(disk, events, jid)
  }

  lemma {:induction false} RunRemembers(disk: map<string, Card>, events: seq<Event>, jid: string)
    requires AllPlain(events) && Plain(jid)
    ensures Remembers(After(disk, events), disk, events, jid)
  {
    hide Plain;
    hide Step;
    if events != [] {
      var before, ev := events[..|events| - 1], events[|events| - 1];
      RunRemembers(disk, before, jid);
      RunShape(disk, before);
      RunShape(disk, events);
      DiskHolds(disk, before, jid);
      StepRemembers(After(disk, before), disk, events, jid);
    }
  }

  lemma StepRemembers(c: Cache, disk: map<string, Card>, events: seq<Event>, jid: string)
    requires events != [] && c == After(disk, events[..|events| - 1]) && Shape(c) && Plain(jid) && Plain(events[|events| - 1].jid)
    requires Remembers(c, disk, events[..|events| - 1], jid)
    requires FileCard(c.disk, jid) == Filed(disk, events[..|events| - 1], jid)
    ensures Remembers(Step(c, events[|events| - 1]), disk, events, jid)
  {
    hide Plain;
    hide FileOf;
    hide Put;
    hide Behind;
    var before, ev := events[..|events| - 1], events[|events| - 1];
    if Gives(ev, jid) {
      PutFirst(c, jid, ev.card);
    } else if Puts(c, ev) {
      var card := if ev.Asked? then c.disk[FileOf(ev.jid)] else ev.card;
      PutShape(c, ev.jid, card);
      if ev.jid != jid && LastGiven(before, jid).Some? {
        AnotherPut(c, jid, Others(disk, before, jid), ev.jid, card);
      }
    }
  }

  lemma PutFirst(c: Cache, jid: string, card: Card)
    requires Shape(c)
    ensures Behind(Put(c, jid, card).list, jid, {}) && jid in Put(c, jid, card).dict && Put(c, jid, card).dict[jid] == card
  {
  }

  lemma AnotherPut(c: Cache, jid: string, others: set<string>, o: string, card: Card)
    requires Shape(c) && Plain(o) && o != jid && (|others| <= DICT_SIZE ==> Behind(c.list, jid, others))
    ensures |others| > DICT_SIZE ==> |others + {o}| > DICT_SIZE
    ensures var t := Put(c, o, card);
            |others| <= DICT_SIZE ==> Behind(t.list, jid, others + {o}) && (|others + {o}| <= DICT_SIZE <==> jid in t.dict)
  {
    hide Plain;
    PutShape(c, o, card);
    if |others| <= DICT_SIZE {
      PutBehind(c, jid, others, o, card);
      var t := Put(c, o, card);
      if |others + {o}| <= DICT_SIZE {
        assert t.list[|others + {o}|] in t.list;
      }
    } else if |others + {o}| <= DICT_SIZE {
      assert others <= others + {o};
      Fewer(others, others + {o});
    }
  }

  lemma {:induction false} Fewer(a: set<string>, b: set<string>)
    requires a <= b
    ensures |a| <= |b|
  {
    if a != {} {
      var x :| x in a;
      Fewer(a - {x}, b - {x});
    }
  }

  /** Over every run of arrivals, settings and questions: the card found for an address is the last one that
      arrived or was set, if and only if at most five other addresses were put in front since, or its file
      holds that card; and it is its file's card if none was given or more came in front. */
  lemma CardFound(disk: map<string, Card>, events: seq<Event>, jid: string)
    requires AllPlain(events) && Plain(jid)
    ensures var found, given := Lookup(After(disk, events), jid).0, LastGiven(events, jid);
            && (given.Some? ==> (found == given <==> |Others(disk, events, jid)| <= DICT_SIZE || Filed(disk, events, jid) == given))
            && (given.None? || |Others(disk, events, jid)| > DICT_SIZE ==> found == Filed(disk, events, jid))
  {
    RunRemembers(disk, events, jid);
    DiskHolds(disk, events, jid);
  }

  predicate NoneSet(events: seq<Event>) { forall i :: 0 <= i < |events| ==> !events[i].Set? }

  lemma {:induction false} GivenArrived(disk: map<string, Card>, events: seq<Event>, jid: string)
    requires NoneSet(events)
    ensures LastGiven(events, jid) == LastArrived(events, jid)
  {
    if events != [] {
      GivenArrived(disk, events[..|events| - 1], jid);
    }
  }

  /** If cards are written by fetches only: whatever was fetched and asked for before, and whatever the
      small cache had to drop meanwhile, the card found for an address is the last one that arrived for it,
      or else the one its file held at the start, or none if there was no file. */
  lemma AlwaysLastCard(disk: map<string, Card>, events: seq<Event>, jid: string)
    requires AllPlain(events) && Plain(jid) && NoneSet(events)
    ensures Lookup(After(disk, events), jid).0 ==
            match LastArrived(events, jid)
            case Some(card) => Some(card)
            case None => if FileOf(jid) in disk then Some(disk[FileOf(jid)]) else None
  {
    hide Lookup;
    CardFound(disk, events, jid);
    GivenArrived(disk, events, jid);
  }

  function Arrivals(jids: seq<string>, card: Card): seq<Event> {
    seq(|jids|, i requires 0 <= i < |jids| => Arrived(jids[i], card))
  }

  lemma SetFirst(disk: map<string, Card>, jid: string, newer: Card)
    ensures var events := [Set(jid, newer)];
            Others(disk, events, jid) == {} && LastGiven(events, jid) == Some(newer) && LastArrived(events, jid) == None
  {
    assert [Set(jid, newer)][..0] == [];
    assert LastArrived([], jid) == None;
  }

  lemma OneMoreArrival(disk: map<string, Card>, events: seq<Event>, jid: string, o: string, card: Card)
    requires o != jid
    ensures var more := events + [Arrived(o, card)];
            && Others(disk, more, jid) == Others(disk, events, jid) + {o}
            && LastGiven(more, jid) == LastGiven(events, jid) && LastArrived(more, jid) == LastArrived(events, jid)
  {
    assert (events + [Arrived(o, card)])[..|events|] == events;
  }

  lemma {:induction false} AllOthers(disk: map<string, Card>, jid: string, newer: Card, jids: seq<string>, card: Card)
    requires NoDup(jids) && jid !in jids
    ensures var events := [Set(jid, newer)] + Arrivals(jids, card);
            && (forall x :: x in Others(disk, events, jid) <==> x in jids) && |Others(disk, events, jid)| == |jids|
            && LastGiven(events, jid) == Some(newer) && LastArrived(events, jid) == None
  {
    hide Others;
    hide LastGiven;
    hide LastArrived;
    if jids == [] {
      SetFirst(disk, jid, newer);
      assert [Set(jid, newer)] + Arrivals(jids, card) == [Set(jid, newer)];
    } else {
      var rest, last := jids[..|jids| - 1], jids[|jids| - 1];
      assert jids == rest + [last] && last !in rest && NoDup(rest);
      AllOthers(disk, jid, newer, rest, card);
      var events := [Set(jid, newer)] + Arrivals(rest, card);
      OneMoreArrival(disk, events, jid, last, card);
      assert [Set(jid, newer)] + Arrivals(jids, card) == events + [Arrived(last, card)];
    }
  }

  /** Such a run: a card that is set, and not fetched, is lost once six other cards have arrived; the old
      file answers. */
  lemma SetCardForgotten(disk: map<string, Card>, jid: string, newer: Card, jids: seq<string>, card: Card)
    requires Plain(jid) && FileOf(jid) in disk && disk[FileOf(jid)] != newer
    requires |jids| == DICT_SIZE + 1 && NoDup(jids) && jid !in jids && forall j <- jids :: Plain(j)
    ensures var events := [Set(jid, newer)] + Arrivals(jids, card);
            Lookup(After(disk, events), jid).0 == Some(disk[FileOf(jid)])
  {
    hide Lookup;
    hide Plain;
    hide FileOf;
    AllOthers(disk, jid, newer, jids, card);
    CardFound(disk, [Set(jid, newer)] + Arrivals(jids, card), jid);
  }

  /** Two addresses share a file if and only if they differ in case only. */
  lemma FilesCoincide(a: string, b: string)
    requires Ascii(a) && Ascii(b)
    ensures FileOf(a) == FileOf(b) <==> Lower(a) == Lower(b)
  {
    LowerFile(a);
    LowerFile(b);
    if FileOf(a) == FileOf(b) {
      LowerEncodeInjective(Lower(a), Lower(b));
    }
  }
}
