/** Whether every specification somebody advertises is known or being asked about, and why if not. */
module CapsKnowledge {
  import opened Lists
  import opened CapsModel
  import opened CapsProperties

  /** The event makes its address the only one listed under the specification: the moment to ask about it. */
  predicate Chance(st: Caps, ev: Event, s: Spec)
    requires Legal(ev)
  {
    ev.Update? && !ev.own && Complete(Advert(ev)) && SpecOf(st.specs, ev.jid) != Advert(ev)
    && s in Flatten(Advert(ev)) && Listed(Step(st, ev).jids, s) == [ev.jid]
  }

  function Advert(ev: Event): Spec
    requires ev.Update?
  {
    Spec(ev.node, ev.ver, ev.ext)
  }

  function Question(ev: Event, s: Spec): Request
    requires ev.Update?
  {
    Request(ev.jid, ev.node + "#" + s.ext)
  }

  // ---- what is asked ------------------------------------------------------------------------------

  lemma {:induction false} AskedIf(jids: map<Spec, seq<string>>, info: map<Spec, seq<string>>, ss: seq<Spec>, j: string, node: string, s: Spec)
    requires s in ss && s !in info && |Listed(jids, s)| == 1
    ensures Request(j, node + "#" + s.ext) in Requests(jids, info, ss, j, node)
  {
    var n := |ss| - 1;
    assert ss == ss[..n] + [ss[n]];
    if s in ss[..n] {
      AskedIf(jids, info, ss[..n], j, node, s);
    }
  }

  /** At such a moment the question is asked if and only if look-ups are enabled and the answer is not known. */
  lemma ChanceAsks(st: Caps, ev: Event, s: Spec)
    requires Legal(ev) && Chance(st, ev, s)
    ensures Question(ev, s) in Questions(st, ev) <==> ev.enabled && s !in st.info
  {
    hide Flatten;
    hide Forget;
    hide Enroll;
    hide Requests;
    var jids, ss := Step(st, ev).jids, Flatten(Advert(ev));
    if ev.enabled {
      assert Questions(st, ev) == Requests(jids, st.info, ss, ev.jid, ev.node);
      if s !in st.info {
        AskedIf(jids, st.info, ss, ev.jid, ev.node, s);
      } else if Question(ev, s) in Questions(st, ev) {
        AskedOnlyIf(jids, st.info, ss, ev.jid, ev.node, Question(ev, s));
        var u :| u in ss && u !in st.info && Question(ev, s) == Request(ev.jid, ev.node + "#" + u.ext);
        FlattenParts(Advert(ev), s);
        FlattenParts(Advert(ev), u);
        SameTail(ev.node, s.ext, u.ext);
      }
    }
  }

  lemma SameTail(node: string, a: string, b: string)
    requires node + "#" + a == node + "#" + b
    ensures a == b
  {
    assert (node + "#" + a)[|node| + 1..] == a && (node + "#" + b)[|node| + 1..] == b;
  }

  // ---- who is listed --------------------------------------------------------------------------------

  lemma {:induction false} EnrollOnce(jids: map<Spec, seq<string>>, ss: seq<Spec>, j: string, s: Spec)
    ensures var was := Listed(jids, s);
            Listed(Enroll(jids, ss, j), s) == if s in ss && j !in was then was + [j] else was
  {
    if ss != [] {
      assert ss == ss[..|ss| - 1] + [ss[|ss| - 1]];
      EnrollOnce(jids, ss[..|ss| - 1], j, s);
    }
  }

  lemma NobodyForgotten(jids: map<Spec, seq<string>>, ss: seq<Spec>, j: string, s: Spec)
    requires Listed(jids, s) == []
    ensures Listed(Forget(jids, ss, j), s) == []
  {
    var now := Listed(Forget(jids, ss, j), s);
    if now != [] {
      ForgetListed(jids, ss, j, s, now[0]);
    }
  }

  /** Nobody was listed under the specification before, and somebody is after the event. */
  lemma FirstListed(st: Caps, ev: Event, s: Spec)
    requires Inv(st) && Legal(ev) && s.node != "" && Listed(st.jids, s) == [] && Listed(Step(st, ev).jids, s) != []
    ensures Chance(st, ev, s)
  {
    hide Flatten;
    hide Requests;
    hide Split;
    if ev.Update? && !ev.own {
      var was, c := SpecOf(st.specs, ev.jid), Advert(ev);
      var without := Forget(st.jids, Flatten(was), ev.jid);
      NobodyForgotten(st.jids, Flatten(was), ev.jid, s);
      if was != c {
        EnrollOnce(without, Flatten(c), ev.jid, s);
      } else {
        assert ev.jid in Listed(st.jids, s) <==> s in Flatten(SpecOf(st.specs, ev.jid));
        var now := Listed(PushAll(st.jids, Flatten(c), ev.jid), s);
        EnrollListed(st.jids, Flatten(c), ev.jid, s, now[0]);
      }
    } else if ev.Disable? && ev.jid in st.specs {
      NobodyForgotten(st.jids, Flatten(st.specs[ev.jid]), ev.jid, s);
    }
  }

  // ---- what becomes known -----------------------------------------------------------------------------

  /** The event tells what the specification means: a successful reply of an address that advertises its node
      and version when it comes, about its extension, or someone else's registration. */
  predicate Files(st: Caps, ev: Event, s: Spec)
    requires Legal(ev)
  {
    match ev
    case Reply(j, node, success, features) =>
      var tokens := Split(node, '#');
      success && SpecOf(st.specs, j).node == tokens[0] == s.node && SpecOf(st.specs, j).ver == s.ver && tokens[1] == s.ext
    case Foreign(spec, features) => spec == s
    case _ => false
  }

  lemma StepInfo(st: Caps, ev: Event, s: Spec)
    requires Legal(ev)
    ensures s in Step(st, ev).info <==> s in st.info || Files(st, ev, s)
  {
    hide Flatten;
    hide Forget;
    hide Enroll;
    hide PushAll;
    hide Requests;
    hide Split;
  }

  /** Some event from the `i`th on tells what the specification means. */
  ghost predicate FiledSince(states: seq<Caps>, events: seq<Event>, i: nat, s: Spec)
    requires IsRun(states, events)
  {
    exists k :: i <= k < |events| && Files(states[k], events[k], s)
  }

  lemma {:induction false} InfoSince(states: seq<Caps>, events: seq<Event>, i: nat, s: Spec)
    requires IsRun(states, events) && i <= |events|
    ensures s in states[|events|].info <==> s in states[i].info || FiledSince(states, events, i, s)
  {
    hide Step;
    hide Files;
    if i < |events| {
      var n := |events| - 1;
      var states', events' := states[..n + 1], events[..n];
      InfoSince(states', events', i, s);
      StepInfo(states[n], events[n], s);
      assert FiledSince(states', events', i, s) <==> exists k :: i <= k < n && Files(states[k], events[k], s) by {
        assert forall k :: 0 <= k < n ==> states'[k] == states[k] && events'[k] == events[k];
      }
    }
  }

  // ---- every advertised specification -------------------------------------------------------------------

  /** A reply to the question came after the `i`th event. */
  ghost predicate AnsweredSince(events: seq<Event>, i: nat, q: Request) {
    exists k :: i < k < |events| && events[k].Reply? && events[k].jid == q.jid && events[k].node == q.node
  }

  /** Its meaning is registered, or it was asked for at the `i`th event and the reply is under way. */
  ghost predicate KnownOrUnderWay(states: seq<Caps>, events: seq<Event>, i: nat, s: Spec)
    requires IsRun(states, events) && i < |events| && events[i].Update?
  {
    var q := Question(events[i], s);
    s in states[|events|].info || (q in Questions(states[i], events[i]) && !AnsweredSince(events, i, q))
  }

  /** Its meaning was not known at the `i`th event and nothing has told it since, though look-ups were disabled
      then or a reply has come: one that failed, or that came when the address advertised something else. */
  ghost predicate Missed(states: seq<Caps>, events: seq<Event>, i: nat, s: Spec)
    requires IsRun(states, events) && i < |events| && events[i].Update?
  {
    s !in states[i].info && !FiledSince(states, events, i, s) && (events[i].enabled ==> AnsweredSince(events, i, Question(events[i], s)))
  }

  lemma KnownUnlessMissed(states: seq<Caps>, events: seq<Event>, i: nat, s: Spec)
    requires IsRun(states, events) && i < |events| && Chance(states[i], events[i], s)
    ensures KnownOrUnderWay(states, events, i, s) <==> !Missed(states, events, i, s)
  {
    hide Step;
    hide Questions;
    InfoSince(states, events, i, s);
    ChanceAsks(states[i], events[i], s);
  }

  ghost predicate ListedSince(states: seq<Caps>, i: nat, s: Spec) {
    forall k :: i < k < |states| ==> Listed(states[k].jids, s) != []
  }

  /** In every reachable state, whoever is listed under a specification: there was a moment to ask about it,
      since which it has been listed; and it is registered or the reply is under way, if and only if that
      moment was not missed. */
  lemma {:induction false} AdvertisedKnownOrAsked(states: seq<Caps>, events: seq<Event>, s: Spec)
    requires IsRun(states, events) && s.node != "" && Listed(states[|events|].jids, s) != []
    ensures exists i: nat :: i < |events| && Chance(states[i], events[i], s) && ListedSince(states, i, s)
                             && (KnownOrUnderWay(states, events, i, s) <==> !Missed(states, events, i, s))
  {
    var i := LastChance(states, events, s);
    KnownUnlessMissed(states, events, i, s);
  }

  lemma {:induction false} LastChance(states: seq<Caps>, events: seq<Event>, s: Spec) returns (i: nat)
    requires IsRun(states, events) && s.node != "" && Listed(states[|events|].jids, s) != []
    ensures i < |events| && Chance(states[i], events[i], s) && ListedSince(states, i, s)
  {
    hide Step;
    hide Chance;
    var n := |events| - 1;
    RunInv(states[..n + 1], events[..n]);
    if Listed(states[n].jids, s) != [] {
      i := LastChance(states[..n + 1], events[..n], s);
      assert forall k :: 0 <= k <= n ==> states[..n + 1][k] == states[k];
    } else {
      FirstListed(states[n], events[n], s);
      i := n;
    }
  }
}
