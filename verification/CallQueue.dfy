/** Calls queued by bridge threads and run by the Qt thread, as interleaved steps around one lock. */
module CallQueue {
  type Call = string

  /** Where a bridge thread stands in passing on a call. */
  datatype Producer = Ready | Waiting(call: Call) | Locked(call: Call) | Appended | Unlocked

  /** Where the Qt thread stands in draining the list. */
  datatype Consumer = Idle | Wanting | Looking | FoundNone | Took(call: Call) | Running(call: Call)

  datatype Holder = Nobody | Thread(p: int) | Qt

  /** `posted` counts the wake-up events in the Qt thread's queue. `order` records the calls as their
      threads got the lock, `done` as they were run. */
  datatype State = State(producers: seq<Producer>, consumer: Consumer, lock: Holder, calls: seq<Call>, posted: nat,
                         order: seq<Call>, done: seq<Call>)

  datatype Action =
    | Submit(p: nat, call: Call, accepted: bool)
    | Acquire(p: nat)
    | Append(p: nat)
    | Release(p: nat)
    | Post(p: nat)
    | Wake
    | QtAcquire
    | Look
    | QtRelease
    | Run

  predicate Enabled(s: State, a: Action) {
    match a
    case Submit(p, call, accepted) => p < |s.producers| && s.producers[p].Ready?
    case Acquire(p) => p < |s.producers| && s.producers[p].Waiting? && s.lock.Nobody?
    case Append(p) => p < |s.producers| && s.producers[p].Locked?
    case Release(p) => p < |s.producers| && s.producers[p].Appended?
    case Post(p) => p < |s.producers| && s.producers[p].Unlocked?
    case Wake => s.consumer.Idle? && s.posted > 0
    case QtAcquire => s.consumer.Wanting? && s.lock.Nobody?
    case Look => s.consumer.Looking?
    case QtRelease => s.consumer.FoundNone? || s.consumer.Took?
    case Run => s.consumer.Running?
  }

  function Step(s: State, a: Action): State
    requires Enabled(s, a)
  {
    match a
    case Submit(p, call, accepted) => if accepted then s.(producers := s.producers[p := Waiting(call)]) else s
    case Acquire(p) =>
      s.(producers := s.producers[p := Locked(s.producers[p].call)], lock := Thread(p), order := s.order + [s.producers[p].call])
    case Append(p) => s.(producers := s.producers[p := Appended], calls := s.calls + [s.producers[p].call])
    case Release(p) => s.(producers := s.producers[p := Unlocked], lock := Nobody)
    case Post(p) => s.(producers := s.producers[p := Ready], posted := s.posted + 1)
    case Wake => s.(consumer := Wanting, posted := s.posted - 1)
    case QtAcquire => s.(consumer := Looking, lock := Qt)
    case Look => if s.calls == [] then s.(consumer := FoundNone) else s.(consumer := Took(s.calls[0]), calls := s.calls[1..])
    case QtRelease => s.(consumer := if s.consumer.Took? then Running(s.consumer.call) else Idle, lock := Nobody)
    case Run => s.(consumer := Wanting, done := s.done + [s.consumer.call])
  }

  predicate Start(s: State) {
    s == State(s.producers, Idle, Nobody, [], 0, [], []) && forall p :: 0 <= p < |s.producers| ==> s.producers[p].Ready?
  }

  // ---- what every step keeps --------------------------------------------------------------------

  /** The calls between being taken from the list and having been run, and between lock and list. */
  function InHand(c: Consumer): seq<Call> { if c.Took? || c.Running? then [c.call] else [] }
  function OnTheWay(s: State): seq<Call> {
    if s.lock.Thread? && 0 <= s.lock.p < |s.producers| && s.producers[s.lock.p].Locked? then [s.producers[s.lock.p].call] else []
  }

  /** The lock is held by whoever is between taking and giving it back. */
  ghost predicate Exclusive(s: State) {
    && (forall p :: 0 <= p < |s.producers| ==> (s.producers[p].Locked? || s.producers[p].Appended? <==> s.lock == Thread(p)))
    && (s.consumer.Looking? || s.consumer.FoundNone? || s.consumer.Took? <==> s.lock.Qt?)
    && (s.lock.Thread? ==> 0 <= s.lock.p < |s.producers|)
  }

  predicate WillPost(s: State, p: int) { 0 <= p < |s.producers| && (s.producers[p].Appended? || s.producers[p].Unlocked?) }

  /** A call in the list will be seen: a wake-up is queued or about to be, or a drain is under way. */
  ghost predicate Awake(s: State) {
    && (s.calls != [] ==> s.posted > 0 || !s.consumer.Idle? || exists p :: WillPost(s, p))
    && (s.consumer.FoundNone? ==> s.calls == [])
  }

  ghost predicate Inv(s: State) {
    Exclusive(s) && Awake(s) && s.order == s.done + InHand(s.consumer) + s.calls + OnTheWay(s)
  }

  lemma StartInv(s: State)
    requires Start(s)
    ensures Inv(s)
  {
  }

  lemma StepInv(s: State, a: Action)
    requires Inv(s) && Enabled(s, a)
    ensures Inv(Step(s, a))
  {
    StepExclusive(s, a);
    StepAwake(s, a);
    StepOrder(s, a);
  }

  lemma StepExclusive(s: State, a: Action)
    requires Exclusive(s) && Enabled(s, a)
    ensures Exclusive(Step(s, a))
  {
  }

  lemma StepAwake(s: State, a: Action)
    requires Exclusive(s) && Awake(s) && Enabled(s, a)
    ensures Awake(Step(s, a))
  {
    var t := Step(s, a);
    forall p | WillPost(s, p) && a != Post(p) ensures WillPost(t, p) {
    }
    if a.Append? {
      assert WillPost(t, a.p);
    }
  }

  lemma StepOrder(s: State, a: Action)
    requires Exclusive(s) && Enabled(s, a) && s.order == s.done + InHand(s.consumer) + s.calls + OnTheWay(s)
    ensures var t := Step(s, a); t.order == t.done + InHand(t.consumer) + t.calls + OnTheWay(t)
  {
    var t := Step(s, a);
    if a.Look? && s.calls != [] {
      assert s.calls == [s.calls[0]] + s.calls[1..];
    }
    if a.Acquire? {
      assert OnTheWay(s) == [] && OnTheWay(t) == [s.producers[a.p].call];
    }
    if a.Append? {
      assert OnTheWay(t) == [] && OnTheWay(s) == [s.producers[a.p].call];
    }
    if a.Submit? || a.Post? {
      assert OnTheWay(t) == OnTheWay(s);
    }
  }

  // ---- runs ---------------------------------------------------------------------------------------

  ghost predicate IsRun(states: seq<State>, actions: seq<Action>) {
    && |states| == |actions| + 1
    && forall i :: 0 <= i < |actions| ==> Enabled(states[i], actions[i]) && states[i + 1] == Step(states[i], actions[i])
  }

  lemma {:induction false} RunInv(states: seq<State>, actions: seq<Action>)
    requires IsRun(states, actions) && Inv(states[0])
    ensures Inv(states[|actions|])
  {
    if actions != [] {
      var n := |actions| - 1;
      RunInv(states[..n + 1], actions[..n]);
      StepInv(states[n], actions[n]);
    }
  }

  /** Under every interleaving: the calls run so far are those whose threads got the lock first, in that
      order and once each; those behind them in the same order are in hand, in the list, or held by the
      thread that has the lock; and while the list is not empty, a wake-up is queued, about to be
      posted, or being worked off. */
  lemma EachCallOnceInOrder(states: seq<State>, actions: seq<Action>)
    requires IsRun(states, actions) && Start(states[0])
    ensures var s := states[|actions|];
            && s.done <= s.order
            && s.order[|s.done|..] == InHand(s.consumer) + s.calls + OnTheWay(s)
            && (s.calls != [] ==> s.posted > 0 || !s.consumer.Idle? || exists p :: WillPost(s, p))
  {
    StartInv(states[0]);
    RunInv(states, actions);
    var s := states[|actions|];
    assert s.order == s.done + (InHand(s.consumer) + s.calls + OnTheWay(s));
  }

  // ---- progress -----------------------------------------------------------------------------------

  function Effort(p: Producer): nat {
    match p
    case Ready => 0
    case Waiting(_) => 12
    case Locked(_) => 11
    case Appended => 6
    case Unlocked => 5
  }

  function Efforts(ps: seq<Producer>): nat { if ps == [] then 0 else Efforts(ps[..|ps| - 1]) + Effort(ps[|ps| - 1]) }

  function ToGo(c: Consumer): nat {
    match c
    case Idle => 0
    case FoundNone => 1
    case Looking => 2
    case Wanting => 3
    case Running(_) => 4
    case Took(_) => 5
  }

  /** A bound on the steps that can follow before another call comes in. */
  function Work(s: State): nat { Efforts(s.producers) + ToGo(s.consumer) + 4 * |s.calls| + 4 * s.posted }

  lemma {:induction false} EffortsChanged(ps: seq<Producer>, p: nat, v: Producer)
    requires p < |ps|
    ensures Efforts(ps[p := v]) == Efforts(ps) - Effort(ps[p]) + Effort(v)
  {
    var n := |ps| - 1;
    if p < n {
      EffortsChanged(ps[..n], p, v);
      assert ps[p := v][..n] == ps[..n][p := v];
    } else {
      assert ps[p := v][..n] == ps[..n];
    }
  }

  /** Every step that is not a new call brings the end nearer. */
  lemma StepShortens(s: State, a: Action)
    requires Enabled(s, a) && !a.Submit?
    ensures Work(Step(s, a)) < Work(s)
  {
    if a.Acquire? || a.Append? || a.Release? || a.Post? {
      EffortsChanged(s.producers, a.p, Step(s, a).producers[a.p]);
    }
  }

  ghost predicate Quiet(s: State) { forall a: Action :: !a.Submit? ==> !Enabled(s, a) }

  /** As long as anything is under way some thread can go on: nobody waits for a lock that is never
      given back. When nothing is, every call that was let in has been run. */
  lemma QuietMeansDone(s: State)
    requires Inv(s) && Quiet(s)
    ensures s.done == s.order && s.calls == [] && s.posted == 0 && s.consumer.Idle? && s.lock.Nobody?
    ensures forall p :: 0 <= p < |s.producers| ==> s.producers[p].Ready?
  {
    assert !Enabled(s, Look) && !Enabled(s, QtRelease) && !Enabled(s, Run) && !Enabled(s, Wake) && !Enabled(s, QtAcquire);
    forall p | 0 <= p < |s.producers| ensures !s.producers[p].Locked? && !s.producers[p].Appended? && !s.producers[p].Unlocked? {
      assert !Enabled(s, Append(p)) && !Enabled(s, Release(p)) && !Enabled(s, Post(p));
    }
    assert s.lock.Nobody?;
    forall p | 0 <= p < |s.producers| ensures s.producers[p].Ready? {
      assert !Enabled(s, Acquire(p));
    }
    assert forall p :: !WillPost(s, p);
  }

  /** Without new calls a run is no longer than the work there is at its start, and when it can go no
      further every call that any thread handed over has been run. */
  lemma {:induction false} RunsDrain(states: seq<State>, actions: seq<Action>)
    requires IsRun(states, actions) && Inv(states[0]) && forall i :: 0 <= i < |actions| ==> !actions[i].Submit?
    ensures |actions| + Work(states[|actions|]) <= Work(states[0])
    ensures Quiet(states[|actions|]) ==> states[|actions|].done == states[|actions|].order
  {
    RunInv(states, actions);
    if Quiet(states[|actions|]) {
      QuietMeansDone(states[|actions|]);
    }
    if actions != [] {
      var n := |actions| - 1;
      RunsDrain(states[..n + 1], actions[..n]);
      StepShortens(states[n], actions[n]);
    }
  }
}
