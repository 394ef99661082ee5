/** What remains of edits that listeners make while a downloaded list is being taken over. */
module MetacontactsEdits {
  import opened MetacontactsModel
  import opened MetacontactsProperties

  /** Taking over a list: records are received, then addresses are checked against the list; edits may come
      after any of these, and after one another. */
  datatype Action = Take(record: Record) | Check(jid: string) | Edit(jid: string, tag: string)

  function Act(d: Dir, l: seq<Record>, a: Action): Dir {
    match a
    case Take(r) => Receive(d, r)
    case Check(j) => if Mentions(l, j) then d else Discard(d, j)
    case Edit(j, tag) => SetTag(d, j, tag)
  }

  function ActAll(d: Dir, l: seq<Record>, acts: seq<Action>): Dir {
    if acts == [] then d else Act(ActAll(d, l, acts[..|acts| - 1]), l, acts[|acts| - 1])
  }

  function Records(acts: seq<Action>): seq<Record> {
    if acts == [] then []
    else
      var rest, a := Records(acts[..|acts| - 1]), acts[|acts| - 1];
      if a.Take? then rest + [a.record] else rest
  }

  function Checks(acts: seq<Action>): seq<string> {
    if acts == [] then []
    else
      var rest, a := Checks(acts[..|acts| - 1]), acts[|acts| - 1];
      if a.Check? then rest + [a.jid] else rest
  }

  /** The list received, and the edits in between. */
  predicate Receiving(acts: seq<Action>) { forall i :: 0 <= i < |acts| ==> !acts[i].Check? }
  predicate Discarding(acts: seq<Action>) { forall i :: 0 <= i < |acts| ==> !acts[i].Take? }

  /** The action says what the tag of the address is to be. */
  predicate Decides(l: seq<Record>, a: Action, j: string) {
    match a
    case Take(r) => r.jid == Some(j)
    case Check(k) => k == j && !Mentions(l, j)
    case Edit(k, tag) => k == j
  }

  function Says(a: Action): string {
    match a
    case Take(r) => r.tag
    case Check(k) => ""
    case Edit(k, tag) => tag
  }

  /** The place of the last action that decides about the address, or -1. */
  function Decider(l: seq<Record>, acts: seq<Action>, j: string): (i: int)
    ensures -1 <= i < |acts|
    ensures i >= 0 ==> Decides(l, acts[i], j) && forall k :: i < k < |acts| ==> !Decides(l, acts[k], j)
    ensures i == -1 ==> forall k :: 0 <= k < |acts| ==> !Decides(l, acts[k], j)
  {
    if acts == [] then -1
    else if Decides(l, acts[|acts| - 1], j) then |acts| - 1
    else Decider(l, acts[..|acts| - 1], j)
  }

  lemma ActTag(d: Dir, l: seq<Record>, a: Action, j: string)
    ensures TagOf(Act(d, l, a), j) == if Decides(l, a, j) then Says(a) else TagOf(d, j)
    ensures j !in Act(d, l, a).tags ==> j !in d.tags || Decides(l, a, j)
  {
    match a
    case Take(r) => ReceivedOne(d, r, j);
    case Check(k) =>
    case Edit(k, tag) => TagAfter(d, k, tag, j);
  }

  /** The last action that decides about an address settles its tag. */
  lemma {:induction false} ActTags(d: Dir, l: seq<Record>, acts: seq<Action>, j: string)
    ensures var i := Decider(l, acts, j); TagOf(ActAll(d, l, acts), j) == if i == -1 then TagOf(d, j) else Says(acts[i])
  {
    hide Act;
    hide TagOf;
    hide Decides;
    hide Says;
    if acts != [] {
      ActTags(d, l, acts[..|acts| - 1], j);
      ActTag(ActAll(d, l, acts[..|acts| - 1]), l, acts[|acts| - 1], j);
    }
  }

  lemma MentionsNext(l: seq<Record>, r: Record, j: string)
    ensures Mentions(l + [r], j) <==> Mentions(l, j) || r.jid == Some(j)
    ensures Last(l + [r], j) == if r.jid == Some(j) then |l| else Last(l, j)
  {
    assert (l + [r])[..|l|] == l;
    if Mentions(l, j) {
      var i :| 0 <= i < |l| && l[i].jid == Some(j);
      assert (l + [r])[i].jid == Some(j);
    }
    if r.jid == Some(j) {
      assert (l + [r])[|l|].jid == Some(j);
    }
  }

  /** An address is mentioned by the list if and only if a record about it was received; and if the last action
      about it is a record, that is the list's last one about it. */
  lemma {:induction false} TakesAreList(l: seq<Record>, acts: seq<Action>, j: string)
    requires Receiving(acts)
    ensures var own, i := Records(acts), Decider(l, acts, j);
            && (Mentions(own, j) ==> i != -1)
            && (i != -1 && acts[i].Take? ==> Mentions(own, j) && Says(acts[i]) == ListTag(own, j))
  {
    if acts != [] {
      var rest, a := acts[..|acts| - 1], acts[|acts| - 1];
      TakesAreList(l, rest, j);
      if a.Take? {
        MentionsNext(Records(rest), a.record, j);
      }
    }
  }

  lemma {:induction false} ChecksAre(acts: seq<Action>, j: string)
    ensures j in Checks(acts) <==> exists k :: 0 <= k < |acts| && acts[k] == Check(j)
  {
    if acts != [] {
      var n := |acts| - 1;
      ChecksAre(acts[..n], j);
      if k :| 0 <= k < n && acts[..n][k] == Check(j) {
        assert acts[k] == Check(j);
      }
      if k :| 0 <= k < |acts| && acts[k] == Check(j) {
        assert k < n ==> acts[..n][k] == Check(j);
      }
    }
  }

  /** The action that decides about the address over the whole download, if any: one while addresses are
      checked or, for an address of the list, one while records are received. */
  function Final(l: seq<Record>, first: seq<Action>, second: seq<Action>, j: string): (a: seq<Action>)
    ensures |a| <= 1
  {
    if Decider(l, second, j) != -1 then [second[Decider(l, second, j)]]
    else if Mentions(l, j) && Decider(l, first, j) != -1 then [first[Decider(l, first, j)]]
    else []
  }

  /** The directory after a download during whose two loops listeners made edits. */
  function Downloaded(d: Dir, first: seq<Action>, second: seq<Action>): Dir {
    var l := Records(first);
    Finish(ActAll(ActAll(d, l, first), l, second))
  }

  /** The tag of an address afterwards. */
  lemma FinalTag(d: Dir, first: seq<Action>, second: seq<Action>, j: string)
    requires Receiving(first) && Discarding(second) && Lists(Checks(second), ActAll(d, Records(first), first).tags)
    ensures var l := Records(first); var a := Final(l, first, second, j);
            && TagOf(Downloaded(d, first, second), j) == (if a == [] then "" else Says(a[0]))
            && (a == [] ==> ListTag(l, j) == "")
            && (a != [] && !a[0].Edit? ==> Says(a[0]) == ListTag(l, j))
  {
    hide ActAll;
    hide Decides;
    var l := Records(first);
    var u := ActAll(d, l, first);
    ActTags(u, l, second, j);
    ActTags(d, l, first, j);
    TakesAreList(l, first, j);
    ChecksAre(second, j);
    var i := Decider(l, second, j);
    if i == -1 && !Mentions(l, j) {
      if j in u.tags {
        var k :| 0 <= k < |second| && second[k] == Check(j);
        CheckDecides(l, j);
      }
      assert TagOf(u, j) == "";
    }
    if i != -1 && second[i].Check? {
      DecidedUnmentioned(l, second[i], j);
    }
  }

  lemma CheckDecides(l: seq<Record>, j: string)
    ensures Decides(l, Check(j), j) <==> !Mentions(l, j)
  {
  }

  lemma DecidedUnmentioned(l: seq<Record>, a: Action, j: string)
    requires Decides(l, a, j) && a.Check?
    ensures !Mentions(l, j)
  {
  }

  /** However many edits come, and wherever in the two loops: afterwards the tags are exactly the list's if and
      only if every edit that is the last thing said of its address says what the list does. The others are
      kept, and in no case is a save due. */
  lemma EditsDuringDownload(d: Dir, first: seq<Action>, second: seq<Action>)
    requires Receiving(first) && Discarding(second) && Lists(Checks(second), ActAll(d, Records(first), first).tags)
    ensures var t, l := Downloaded(d, first, second), Records(first);
            && ((forall j :: TagOf(t, j) == ListTag(l, j)) <==>
                forall j :: Final(l, first, second, j) != [] && Final(l, first, second, j)[0].Edit? ==>
                  Final(l, first, second, j)[0].tag == ListTag(l, j))
            && (forall j :: Final(l, first, second, j) != [] && Final(l, first, second, j)[0].Edit? ==>
                  TagOf(t, j) == Final(l, first, second, j)[0].tag)
            && !t.needs && !t.timer && t.dirty == {}
  {
    hide TagOf;
    hide ListTag;
    hide Final;
    hide ActAll;
    var t, l := Downloaded(d, first, second), Records(first);
    forall j
      ensures var a := Final(l, first, second, j);
              && (TagOf(t, j) == ListTag(l, j) <==> (a != [] && a[0].Edit? ==> a[0].tag == ListTag(l, j)))
              && (a != [] && a[0].Edit? ==> TagOf(t, j) == a[0].tag)
    {
      FinalTag(d, first, second, j);
    }
  }

  /** Without edits this is a download. */
  lemma {:induction false} NoEdits(d: Dir, l: seq<Record>, acts: seq<Action>)
    requires forall i :: 0 <= i < |acts| ==> !acts[i].Edit?
    ensures Receiving(acts) ==> ActAll(d, l, acts) == ReceiveAll(d, Records(acts))
    ensures Discarding(acts) ==> ActAll(d, l, acts) == DiscardAll(d, Checks(acts), l)
  {
    if acts != [] {
      NoEdits(d, l, acts[..|acts| - 1]);
      var n := |acts| - 1;
      assert Receiving(acts) ==> (Records(acts[..n]) + [acts[n].record])[..|Records(acts[..n])|] == Records(acts[..n]);
      assert Discarding(acts) ==> (Checks(acts[..n]) + [acts[n].jid])[..|Checks(acts[..n])|] == Checks(acts[..n]);
    }
  }
}
