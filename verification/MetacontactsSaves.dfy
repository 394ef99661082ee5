/** When a change to the metacontacts directory reaches the server: saves are sent, and may fail. */
module MetacontactsSaves {
  import opened MetacontactsModel
  import opened MetacontactsProperties

  datatype Status = Waiting | Confirmed | Failed

  /** The directory as it was sent or taken over, and what became of it. */
  datatype Sync = Sync(dir: Dir, status: Status)

  /** The event sends a save. */
  predicate Sends(d: Dir, ev: Event) { ev.Saved? || (ev.TimedOut? && d.needs) }

  /** `a` is the save a reply is about. What is taken over from the server needs no confirmation, and clearing
      starts over. */
  function NextHistory(d: Dir, h: seq<Sync>, ev: Event, a: nat): seq<Sync> {
    if Sends(d, ev) then h + [Sync(Step(d, ev), Waiting)]
    else if Synchronises(d, ev) then h + [Sync(Step(d, ev), Confirmed)]
    else if ev.SaveReply? && a < |h| then h[a := h[a].(status := if ev.success then Confirmed else Failed)]
    else h
  }

  /** Every reply is about a save that was sent and not answered yet; replies may come in any order. */
  ghost predicate IsHistory(dirs: seq<Dir>, hists: seq<seq<Sync>>, events: seq<Event>, answers: seq<nat>) {
    && |dirs| == |hists| == |events| + 1 && |answers| == |events| && dirs[0] == INITIAL && hists[0] == [Sync(INITIAL, Confirmed)]
    && forall i :: 0 <= i < |events| ==>
         && Legal(dirs[i], events[i]) && dirs[i + 1] == Step(dirs[i], events[i])
         && (events[i].SaveReply? ==> answers[i] < |hists[i]| && hists[i][answers[i]].status == Waiting)
         && hists[i + 1] == NextHistory(dirs[i], hists[i], events[i], answers[i])
  }

  predicate UnderWay(h: seq<Sync>) { exists k :: 0 <= k < |h| && h[k].status == Waiting }

  /** The last directory, in the order sent or taken over, that the server confirmed. */
  function LastConfirmed(h: seq<Sync>): Dir
    requires h != [] && h[0].status == Confirmed
  {
    if h[|h| - 1].status == Confirmed then h[|h| - 1].dir else LastConfirmed(h[..|h| - 1])
  }

  /** Some tag or order differs from what was confirmed. */
  ghost predicate Outdated(d: Dir, h: seq<Sync>)
    requires h != [] && h[0].status == Confirmed
  {
    exists j :: Differs(d, LastConfirmed(h), j)
  }

  /** The event changes something by hand. */
  predicate Edits(d: Dir, ev: Event) {
    match ev
    case TagSet(j, tag) => tag != TagOf(d, j)
    case OrderSet(j, n) => n != OrderOf(d, j)
    case BothSet(j, tag, n) => tag != TagOf(d, j) || n != OrderOf(d, j)
    case _ => false
  }

  /** The place of the last event that sent the directory or took one over, or -1. */
  function LastSync(dirs: seq<Dir>, events: seq<Event>): (p: int)
    requires |dirs| > |events|
    ensures -1 <= p < |events|
  {
    if events == [] then -1
    else if Synchronises(dirs[|events| - 1], events[|events| - 1]) then |events| - 1
    else LastSync(dirs, events[..|events| - 1])
  }

  ghost predicate EditedSince(dirs: seq<Dir>, events: seq<Event>, p: int)
    requires |dirs| > |events|
  {
    exists k: nat :: p < k < |events| && Edits(dirs[k], events[k])
  }

  lemma StepNeeds(d: Dir, ev: Event)
    requires Legal(d, ev) && d.needs == d.timer
    ensures Step(d, ev).needs <==> !Synchronises(d, ev) && (d.needs || Edits(d, ev))
    ensures Step(d, ev).needs == Step(d, ev).timer
  {
    hide TagOf;
    hide OrderOf;
  }

  lemma {:induction false} SameLastSync(dirs: seq<Dir>, more: seq<Dir>, events: seq<Event>)
    requires |dirs| > |events| && |more| > |events| && forall k :: 0 <= k < |events| ==> dirs[k] == more[k]
    ensures LastSync(dirs, events) == LastSync(more, events)
  {
    if events != [] {
      SameLastSync(dirs, more, events[..|events| - 1]);
    }
  }

  /** One event more: a synchronisation starts anew, and an edit counts. */
  lemma EditedNext(dirs: seq<Dir>, events: seq<Event>)
    requires |dirs| > |events| && events != []
    ensures var n := |events| - 1;
            var p := LastSync(dirs[..n + 1], events[..n]);
            EditedSince(dirs, events, LastSync(dirs, events)) <==>
              !Synchronises(dirs[n], events[n]) && (EditedSince(dirs[..n + 1], events[..n], p) || Edits(dirs[n], events[n]))
  {
    hide Edits;
    hide Synchronises;
    hide LastSync;
    var n := |events| - 1;
    var dirs', events' := dirs[..n + 1], events[..n];
    var p, q := LastSync(dirs', events'), LastSync(dirs, events);
    SameLastSync(dirs', dirs, events');
    LastSyncNext(dirs, events);
    assert forall k :: 0 <= k < n ==> dirs'[k] == dirs[k] && events'[k] == events[k];
    if !Synchronises(dirs[n], events[n]) {
      if EditedSince(dirs', events', p) {
        var k: nat :| p < k < n && Edits(dirs'[k], events'[k]);
        assert Edits(dirs[k], events[k]);
      }
      if EditedSince(dirs, events, q) && !Edits(dirs[n], events[n]) {
        var k: nat :| q < k < n + 1 && Edits(dirs[k], events[k]);
        assert Edits(dirs'[k], events'[k]);
      }
    }
  }

  lemma LastSyncNext(dirs: seq<Dir>, events: seq<Event>)
    requires |dirs| > |events| && events != []
    ensures var n := |events| - 1;
            LastSync(dirs, events) == if Synchronises(dirs[n], events[n]) then n else LastSync(dirs, events[..n])
  {
  }

  /** A save is due if and only if something was edited since the last synchronisation. */
  lemma {:induction false} DueIfEdited(dirs: seq<Dir>, hists: seq<seq<Sync>>, events: seq<Event>, answers: seq<nat>)
    requires IsHistory(dirs, hists, events, answers)
    ensures var d := dirs[|events|]; d.needs == d.timer && (d.needs <==> EditedSince(dirs, events, LastSync(dirs, events)))
  {
    hide Step;
    hide Edits;
    hide Synchronises;
    hide LastSync;
    if events != [] {
      var n := |events| - 1;
      DueIfEdited(dirs[..n + 1], hists[..n + 1], events[..n], answers[..n]);
      StepNeeds(dirs[n], events[n]);
      EditedNext(dirs, events);
    }
  }

  /** The history begins with something confirmed, and whatever differs from its last entry is due. */
  ghost predicate Kept(d: Dir, h: seq<Sync>) {
    h != [] && h[0].status == Confirmed && Pending(d, h[|h| - 1].dir)
  }

  lemma StepKept(d: Dir, h: seq<Sync>, ev: Event, a: nat)
    requires Kept(d, h) && Legal(d, ev) && (ev.SaveReply? ==> a < |h| && h[a].status == Waiting)
    ensures Kept(Step(d, ev), NextHistory(d, h, ev, a))
  {
    hide Pending;
    hide Step;
    StepPending(d, h[|h| - 1].dir, ev);
  }

  lemma {:induction false} RunKept(dirs: seq<Dir>, hists: seq<seq<Sync>>, events: seq<Event>, answers: seq<nat>)
    requires IsHistory(dirs, hists, events, answers)
    ensures Kept(dirs[|events|], hists[|events|])
  {
    hide Step;
    if events != [] {
      var n := |events| - 1;
      RunKept(dirs[..n + 1], hists[..n + 1], events[..n], answers[..n]);
      StepKept(dirs[n], hists[n], events[n], answers[n]);
    }
  }

  /** Nothing is due or under way although the directory is not what the server last confirmed. */
  ghost predicate Stranded(d: Dir, h: seq<Sync>)
    requires h != [] && h[0].status == Confirmed
  {
    Outdated(d, h) && !d.needs && !UnderWay(h)
  }

  /** Over every run, in whatever order saves are answered: a change is stranded if and only if the last save
      has failed and carried something else than was confirmed, no other save is unanswered, and nothing was
      edited since it was sent. A failed save is not tried again. */
  lemma StrandedIfFailed(dirs: seq<Dir>, hists: seq<seq<Sync>>, events: seq<Event>, answers: seq<nat>)
    requires IsHistory(dirs, hists, events, answers)
    ensures var d, h := dirs[|events|], hists[|events|];
            h != [] && h[0].status == Confirmed &&
            var last := h[|h| - 1];
            Stranded(d, h) <==>
              last.status == Failed && Outdated(last.dir, h) && !UnderWay(h) && !EditedSince(dirs, events, LastSync(dirs, events))
  {
    hide Step;
    RunKept(dirs, hists, events, answers);
    DueIfEdited(dirs, hists, events, answers);
    LastCounts(dirs[|events|], hists[|events|]);
  }

  lemma LastCounts(d: Dir, h: seq<Sync>)
    requires Kept(d, h)
    ensures !d.needs ==> (Outdated(d, h) <==> Outdated(h[|h| - 1].dir, h))
    ensures h[|h| - 1].status == Confirmed ==> !Outdated(h[|h| - 1].dir, h)
    ensures !UnderWay(h) ==> h[|h| - 1].status != Waiting
  {
    var last, c := h[|h| - 1], LastConfirmed(h);
    if !d.needs {
      forall j ensures Differs(d, c, j) <==> Differs(last.dir, c, j) {
        assert !Differs(d, last.dir, j);
      }
    }
  }

  /** Such a run: a tag is set, the timer sends it, and the save fails. */
  lemma FailedSaveStrands(j: string, tag: string)
    requires tag != ""
    ensures var d1 := Step(INITIAL, TagSet(j, tag)); var d2 := Step(d1, TimedOut([j])); var d3 := Step(d2, SaveReply(false));
            var h := [Sync(INITIAL, Confirmed)];
            && IsHistory([INITIAL, d1, d2, d3], [h, h, h + [Sync(d2, Waiting)], h + [Sync(d2, Failed)]],
                         [TagSet(j, tag), TimedOut([j]), SaveReply(false)], [0, 0, 1])
            && Stranded(d3, h + [Sync(d2, Failed)])
  {
    var d1 := Step(INITIAL, TagSet(j, tag));
    var d2 := Step(d1, TimedOut([j]));
    var d3 := Step(d2, SaveReply(false));
    var h := [Sync(INITIAL, Confirmed)];
    var g := h + [Sync(d2, Failed)];
    assert (h + [Sync(d2, Waiting)])[1 := Sync(d2, Failed)] == g;
    assert g[..1] == h && LastConfirmed(g) == INITIAL;
    assert Differs(d3, LastConfirmed(g), j);
  }
}
