/** One contact's avatar: announced by hash, fetched when not cached, shown when the reply is the one
    waited for. */
module Avatars {
  type Image = string
  datatype Option<T> = None | Some(value: T)

  /** `pending` tells which hash each request under way is for. */
  datatype Avatar = Avatar(current: string, target: string, shown: Option<Image>, cache: map<string, Image>,
                           pending: map<int, string>, nextTask: int)

  function Start(cache: map<string, Image>): Avatar { Avatar("", "", None, cache, map[], 0) }

  // ---- what the methods make of it --------------------------------------------------------------------

  predicate UnderWay(a: Avatar, h: string) { exists t :: t in a.pending && a.pending[t] == h }

  /** Nothing can be asked of a contact of whom no resource is known, where one is needed. */
  function Requested(a: Avatar, reachable: bool): Avatar {
    if !reachable || UnderWay(a, a.target) then a
    else a.(pending := a.pending[a.nextTask := a.target], nextTask := a.nextTask + 1)
  }

  function Announced(a: Avatar, h: string, reachable: bool): Avatar {
    if a.current == h then a
    else if h == "" then a.(current := "", target := "", shown := None)
    else if h in a.cache then a.(current := h, target := h, shown := Some(a.cache[h]))
    else Requested(a.(target := h), reachable)
  }

  /** A reply without a picture only ends its request. */
  function Replied(a: Avatar, t: int, image: Image): Avatar
    requires t in a.pending
  {
    var h := a.pending[t];
    var b := if image == "" then a
             else
               var c := a.(cache := a.cache[h := image]);
               if h == a.target then c.(current := h, shown := Some(image)) else c;
    b.(pending := b.pending - {t})
  }

  class CachedAvatar {
    var currentHash: string
    var targetHash: string
    var pixmap: Option<Image>
    var cacheDir: map<string, Image>
    var pendingTasksHashes: map<int, string>
    var nextTask: int

    function View(): Avatar
      reads this
    {
      Avatar(currentHash, targetHash, pixmap, cacheDir, pendingTasksHashes, nextTask)
    }

    constructor (cacheDir: map<string, Image>)
      ensures View() == Start(cacheDir)
    {
      currentHash, targetHash, pixmap, this.cacheDir, pendingTasksHashes, nextTask := "", "", None, cacheDir, map[], 0;
    }

    method UpdateHash(h: string, reachable: bool)
      modifies this
      ensures View() == Announced(old(View()), h, reachable)
    {
      if currentHash != h {
        if h == "" {
          currentHash := "";
          targetHash := "";
          pixmap := None;
        } else if h in cacheDir {
          currentHash := h;
          targetHash := h;
          pixmap := Some(cacheDir[h]);
        } else {
          targetHash := h;
          RequestAvatar(reachable);
        }
      }
    }

    method RequestAvatar(reachable: bool)
      modifies this`pendingTasksHashes, this`nextTask
      ensures View() == Requested(old(View()), reachable)
    {
      if !reachable {
        return;
      }
      var rest := pendingTasksHashes.Keys;
      while rest != {}
        invariant rest <= pendingTasksHashes.Keys
        invariant forall t <- pendingTasksHashes :: pendingTasksHashes[t] == targetHash ==> t in rest
        invariant View() == old(View())
      {
        assert (forall t: int :: t !in rest) ==> rest == {};
        var t :| t in rest;
        if pendingTasksHashes[t] == targetHash {
          assert UnderWay(View(), targetHash);
          return;
        }
        rest := rest - {t};
      }
      assert !UnderWay(View(), targetHash);
      pendingTasksHashes := pendingTasksHashes[nextTask := targetHash];
      nextTask := nextTask + 1;
    }

    method Received(task: int, image: Image)
      requires task in pendingTasksHashes
      modifies this
      ensures View() == Replied(old(View()), task, image)
    {
      if image != "" {
        var hash := pendingTasksHashes[task];
        cacheDir := cacheDir[hash := image];
        if hash == targetHash {
          currentHash := hash;
          pixmap := Some(image);
        }
      }
      pendingTasksHashes := pendingTasksHashes - {task};
    }
  }

  // ---- what holds in every state ------------------------------------------------------------------------

  datatype Event = Announce(hash: string, reachable: bool) | Reply(task: int, image: Image)

  predicate Legal(a: Avatar, ev: Event) { ev.Reply? ==> ev.task in a.pending }

  function Step(a: Avatar, ev: Event): Avatar
    requires Legal(a, ev)
  {
    match ev
    case Announce(h, reachable) => Announced(a, h, reachable)
    case Reply(t, image) => Replied(a, t, image)
  }

  ghost predicate Inv(a: Avatar) {
    && (if a.current == "" then a.shown == None else a.current in a.cache && a.shown == Some(a.cache[a.current]))
    && (forall t <- a.pending :: t < a.nextTask && a.pending[t] != "" && a.pending[t] !in a.cache)
    && (forall t, u :: t in a.pending && u in a.pending && a.pending[t] == a.pending[u] ==> t == u)
  }

  lemma StepInv(a: Avatar, ev: Event)
    requires Inv(a) && Legal(a, ev)
    ensures Inv(Step(a, ev))
  {
  }

  ghost predicate IsRun(states: seq<Avatar>, events: seq<Event>, cache: map<string, Image>) {
    && |states| == |events| + 1 && states[0] == Start(cache)
    && forall i :: 0 <= i < |events| ==> Legal(states[i], events[i]) && states[i + 1] == Step(states[i], events[i])
  }

  lemma {:induction false} RunInv(states: seq<Avatar>, events: seq<Event>, cache: map<string, Image>)
    requires IsRun(states, events, cache)
    ensures Inv(states[|events|])
  {
    if events != [] {
      var n := |events| - 1;
      RunInv(states[..n + 1], events[..n], cache);
      StepInv(states[n], events[n]);
    }
  }

  /** In whatever order announcements and replies come: the picture shown is the one filed under the
      current hash, none if there is no current hash; no two requests under way are for the same hash, and
      none for one that is cached; and a reply to another request than the one waited for changes only
      the cache and the list of requests. */
  lemma ShownIsCurrent(states: seq<Avatar>, events: seq<Event>, cache: map<string, Image>, task: int, image: Image)
    requires IsRun(states, events, cache)
    ensures var a := states[|events|];
            && a.shown == (if a.current == "" then None else if a.current in a.cache then Some(a.cache[a.current]) else None)
            && (a.current != "" ==> a.current in a.cache)
            && (forall t <- a.pending :: a.pending[t] !in a.cache && forall u <- a.pending :: a.pending[t] == a.pending[u] ==> t == u)
            && (task in a.pending && a.pending[task] != a.target ==>
                  var b := Replied(a, task, image);
                  b == a.(cache := b.cache, pending := b.pending) && forall h <- a.cache :: h in b.cache && b.cache[h] == a.cache[h])
  {
    RunInv(states, events, cache);
  }

  // ---- is the last announcement the one waited for? -----------------------------------------------------

  /** The hash announced is the current one, but another one is being waited for. */
  predicate Stale(a: Avatar, h: string) { a.current == h && a.target != h }

  /** The place of the last announcement, or -1. */
  function LastPlace(events: seq<Event>): (i: int)
    ensures -1 <= i < |events|
    ensures i >= 0 ==> events[i].Announce? && forall k :: i < k < |events| ==> events[k].Reply?
    ensures i == -1 ==> forall k :: 0 <= k < |events| ==> events[k].Reply?
  {
    if events == [] then -1
    else if events[|events| - 1].Announce? then |events| - 1
    else LastPlace(events[..|events| - 1])
  }

  /** The last hash announced, none at first. */
  function LastAnnounced(events: seq<Event>): string {
    if LastPlace(events) == -1 then "" else events[LastPlace(events)].hash
  }

  /** The avatar waits for what was announced last, or shows it. */
  predicate Follows(a: Avatar, h: string) { a.target == h && (h in a.cache || h == "" ==> a.current == h) }

  /** What is waited for is shown as soon as it is there. */
  predicate Prompt(a: Avatar) { a.target in a.cache || a.target == "" ==> a.current == a.target }

  /** A reply does not change what is waited for, and an announcement does unless it is such a return. */
  lemma StepTarget(a: Avatar, ev: Event)
    requires Inv(a) && Legal(a, ev) && Prompt(a)
    ensures Prompt(Step(a, ev)) && Step(a, ev).target == if ev.Reply? || Stale(a, ev.hash) then a.target else ev.hash
  {
  }

  lemma {:induction false} RunPrompt(states: seq<Avatar>, events: seq<Event>, cache: map<string, Image>)
    requires IsRun(states, events, cache)
    ensures Inv(states[|events|]) && Prompt(states[|events|])
  {
    hide Inv;
    hide Step;
    RunInv(states, events, cache);
    if events != [] {
      var n := |events| - 1;
      RunPrompt(states[..n + 1], events[..n], cache);
      StepTarget(states[n], events[n]);
    }
  }

  lemma {:induction false} TargetSince(states: seq<Avatar>, events: seq<Event>, cache: map<string, Image>)
    requires IsRun(states, events, cache)
    ensures var i, a := LastPlace(events), states[|events|];
            a.target == if i == -1 then "" else if Stale(states[i], events[i].hash) then states[i].target else events[i].hash
  {
    hide Inv;
    hide Step;
    hide Prompt;
    if events != [] {
      var n := |events| - 1;
      TargetSince(states[..n + 1], events[..n], cache);
      RunPrompt(states[..n + 1], events[..n], cache);
      StepTarget(states[n], events[n]);
    }
  }

  /** Over every run: the avatar waits for what was announced last, or shows it if its picture is there, if
      and only if the last announcement was no return to the current hash while another one was waited for;
      what came before does not matter. If it does not follow, the next picture for the hash it waits for
      is shown instead of the one announced. */
  lemma LastAnnouncementFollowed(states: seq<Avatar>, events: seq<Event>, cache: map<string, Image>, task: int, image: Image)
    requires IsRun(states, events, cache)
    ensures var i, h, a := LastPlace(events), LastAnnounced(events), states[|events|];
            && (Follows(a, h) <==> i == -1 || !Stale(states[i], h))
            && (!Follows(a, h) && task in a.pending && a.pending[task] == a.target && image != "" ==>
                  var b := Replied(a, task, image); b.shown == Some(image) && b.current != h)
  {
    hide Inv;
    RunPrompt(states, events, cache);
    TargetSince(states, events, cache);
  }

  // ---- is the picture announced last on its way? ----------------------------------------------------------

  lemma ReplyEnds(a: Avatar, t: int, image: Image, h: string)
    requires Inv(a) && t in a.pending && h !in Replied(a, t, image).cache
    ensures h !in a.cache && (UnderWay(Replied(a, t, image), h) <==> UnderWay(a, h) && a.pending[t] != h)
  {
    var b := Replied(a, t, image);
    if UnderWay(a, h) && a.pending[t] != h {
      var u :| u in a.pending && a.pending[u] == h;
      assert u in b.pending && b.pending[u] == h;
    }
    if UnderWay(b, h) {
      var u :| u in b.pending && b.pending[u] == h;
      assert u in a.pending && u != t;
    }
  }

  lemma AnnouncementAsks(a: Avatar, h: string, reachable: bool)
    requires Inv(a) && h != "" && h !in a.cache
    ensures var b := Announced(a, h, reachable); b.cache == a.cache && (UnderWay(b, h) <==> reachable || UnderWay(a, h))
  {
    var b := Announced(a, h, reachable);
    assert a.current != h;
    if reachable && !UnderWay(a, h) {
      assert !UnderWay(a.(target := h), h);
      assert b.pending[a.nextTask] == h;
    }
  }

  /** A reply to a request for the hash came after the `i`th event. */
  ghost predicate AnsweredSince(states: seq<Avatar>, events: seq<Event>, i: int, h: string)
    requires |states| > |events|
  {
    exists k: nat :: i < k < |events| && events[k].Reply? && events[k].task in states[k].pending && states[k].pending[events[k].task] == h
  }

  /** Over every run: if the picture announced last is not there, a request for it is under way if and only
      if it could be asked for when it was announced, or had been already, and the request has not been
      answered since; such an answer had no picture. Nothing else asks for it but another announcement. */
  lemma {:induction false} LastAnnouncementRequested(states: seq<Avatar>, events: seq<Event>, cache: map<string, Image>)
    requires IsRun(states, events, cache) && LastPlace(events) != -1
    ensures var i, h, a := LastPlace(events), LastAnnounced(events), states[|events|];
            h != "" && h !in a.cache ==>
              h !in states[i].cache && !Stale(states[i], h)
              && (UnderWay(a, h) <==> (events[i].reachable || UnderWay(states[i], h)) && !AnsweredSince(states, events, i, h))
  {
    hide Inv;
    hide UnderWay;
    hide Announced;
    hide Replied;
    var n, h, i := |events| - 1, LastAnnounced(events), LastPlace(events);
    RunInv(states[..n + 1], events[..n], cache);
    if i == n {
      if h != "" && h !in states[n + 1].cache {
        CacheGrows(states[n], events[n]);
        AnnouncementAsks(states[n], h, events[n].reachable);
        NotCurrent(states[n], h);
      }
    } else if h != "" && h !in states[n + 1].cache {
      LastAnnouncementRequested(states[..n + 1], events[..n], cache);
      ReplyEnds(states[n], events[n].task, events[n].image, h);
      assert AnsweredSince(states, events, i, h) <==>
             AnsweredSince(states[..n + 1], events[..n], i, h) || states[n].pending[events[n].task] == h by {
        AnsweredNext(states, events, i, h);
      }
    }
  }

  lemma NotCurrent(a: Avatar, h: string)
    requires Inv(a) && h != "" && h !in a.cache
    ensures a.current != h
  {
  }

  lemma CacheGrows(a: Avatar, ev: Event)
    requires Legal(a, ev)
    ensures a.cache.Keys <= Step(a, ev).cache.Keys
  {
  }

  lemma AnsweredNext(states: seq<Avatar>, events: seq<Event>, i: int, h: string)
    requires |states| > |events| > 0 && i < |events| - 1 && events[|events| - 1].Reply?
    requires events[|events| - 1].task in states[|events| - 1].pending
    ensures var n := |events| - 1;
            AnsweredSince(states, events, i, h) <==>
              AnsweredSince(states[..n + 1], events[..n], i, h) || states[n].pending[events[n].task] == h
  {
    var n := |events| - 1;
    var states', events' := states[..n + 1], events[..n];
    assert forall k :: 0 <= k < n ==> states'[k] == states[k] && events'[k] == events[k];
  }

  /** The picture that came last in answer to a request for the hash, or the one cached at the start. */
  function LastPicture(states: seq<Avatar>, events: seq<Event>, cache: map<string, Image>, h: string): Option<Image>
    requires |states| > |events|
  {
    if events == [] then (if h in cache then Some(cache[h]) else None)
    else
      var a, ev := states[|events| - 1], events[|events| - 1];
      if ev.Reply? && ev.image != "" && ev.task in a.pending && a.pending[ev.task] == h then Some(ev.image)
      else LastPicture(states, events[..|events| - 1], cache, h)
  }

  lemma {:induction false} SamePicture(states: seq<Avatar>, more: seq<Avatar>, events: seq<Event>, cache: map<string, Image>, h: string)
    requires |states| > |events| && |more| > |events| && forall k :: 0 <= k < |events| ==> states[k] == more[k]
    ensures LastPicture(states, events, cache, h) == LastPicture(more, events, cache, h)
  {
    if events != [] {
      SamePicture(states, more, events[..|events| - 1], cache, h);
    }
  }

  lemma StepCache(a: Avatar, ev: Event, h: string)
    requires Legal(a, ev)
    ensures var b, came := Step(a, ev), ev.Reply? && ev.image != "" && a.pending[ev.task] == h;
            (h in b.cache <==> came || h in a.cache) && (h in b.cache ==> b.cache[h] == if came then ev.image else a.cache[h])
  {
  }

  /** Over every run: what is cached for a hash is the picture that came for it last, and what is shown is that of the
      current hash. */
  lemma {:induction false} CachedIsLastPicture(states: seq<Avatar>, events: seq<Event>, cache: map<string, Image>, h: string)
    requires IsRun(states, events, cache)
    ensures var a, p := states[|events|], LastPicture(states, events, cache, h);
            && (if h in a.cache then p == Some(a.cache[h]) else p == None)
            && (h == a.current != "" ==> a.shown == p)
  {
    hide Step;
    hide Inv;
    RunInv(states, events, cache);
    ShownFromCache(states[|events|]);
    if events != [] {
      var n := |events| - 1;
      CachedIsLastPicture(states[..n + 1], events[..n], cache, h);
      SamePicture(states[..n + 1], states, events[..n], cache, h);
      StepCache(states[n], events[n], h);
    }
  }

  lemma ShownFromCache(a: Avatar)
    requires Inv(a)
    ensures a.current != "" ==> a.current in a.cache && a.shown == Some(a.cache[a.current])
  {
  }

  /** A run with such an answer: the avatar waits for what was announced, and nothing is on its way. */
  lemma EmptyReplyEnds(h: string)
    requires h != ""
    ensures var events := [Announce(h, true), Reply(0, "")];
            var a := Announced(Start(map[]), h, true);
            0 in a.pending && IsRun([Start(map[]), a, Replied(a, 0, "")], events, map[])
            && Follows(Replied(a, 0, ""), LastAnnounced(events)) && Replied(a, 0, "").pending == map[] && Replied(a, 0, "").shown == None
  {
    var a := Announced(Start(map[]), h, true);
    assert !UnderWay(Start(map[]).(target := h), h);
    assert LastPlace([Announce(h, true), Reply(0, "")]) == 0;
  }

  /** A run with such a return: the picture that comes too late is shown instead of the one announced last. */
  lemma StaleReplyShown(first: Image, second: Image)
    requires second != ""
    ensures var cache := map["A" := first];
            var events := [Announce("A", true), Announce("B", true), Announce("A", true), Reply(0, second)];
            var a := Announced(Start(cache), "A", true); var b := Announced(a, "B", true); var c := Announced(b, "A", true);
            0 in c.pending && IsRun([Start(cache), a, b, c, Replied(c, 0, second)], events, cache)
            && LastAnnounced(events) == "A" && a.shown == Some(first) && Replied(c, 0, second).shown == Some(second)
  {
    var a := Announced(Start(map["A" := first]), "A", true);
    assert !UnderWay(a.(target := "B"), "B");
    var events := [Announce("A", true), Announce("B", true), Announce("A", true), Reply(0, second)];
    assert LastPlace(events) == 2;
  }
}
