/** The two maps agree, and changes of features are reported. */
module CapsProperties {
  import opened Lists
  import opened CapsModel

  datatype Event =
    | Update(own: bool, enabled: bool, jid: string, node: string, ver: string, ext: string)
    | Disable(jid: string)
    | Reply(jid: string, node: string, success: bool, features: seq<string>)
    | Foreign(spec: Spec, features: seq<string>)

  /** A reply is about a node of two parts at least; whoever else registers a specification names its node. */
  predicate Legal(ev: Event) {
    (ev.Reply? ==> |Split(ev.node, '#')| >= 2) && (ev.Foreign? ==> ev.spec.node != "")
  }

  function Step(st: Caps, ev: Event): Caps
    requires Legal(ev)
  {
    match ev
    case Update(own, enabled, j, node, ver, ext) => UpdateCaps(st, own, enabled, j, node, ver, ext)
    case Disable(j) => DisableCaps(st, j)
    case Reply(j, node, success, features) => DiscoFinished(st, j, Split(node, '#'), success, features)
    case Foreign(s, features) => Register(st, s, features)
  }

  ghost predicate Agree(specs: map<string, Spec>, jids: map<Spec, seq<string>>) {
    forall s: Spec, j :: s.node != "" ==> (j in Listed(jids, s) <==> s in Flatten(SpecOf(specs, j)))
  }

  ghost predicate Inv(st: Caps) {
    Agree(st.specs, st.jids) && forall s <- st.info :: s.node != ""
  }

  lemma {:induction false} ForgetListed(jids: map<Spec, seq<string>>, ss: seq<Spec>, j: string, s: Spec, x: string)
    ensures x in Listed(Forget(jids, ss, j), s) <==> x in Listed(jids, s) && !(x == j && s in ss && s != NO_SPEC)
  {
    if ss != [] {
      assert ss == ss[..|ss| - 1] + [ss[|ss| - 1]];
      ForgetListed(jids, ss[..|ss| - 1], j, s, x);
    }
  }

  lemma {:induction false} EnrollListed(jids: map<Spec, seq<string>>, ss: seq<Spec>, j: string, s: Spec, x: string)
    ensures x in Listed(Enroll(jids, ss, j), s) <==> x in Listed(jids, s) || (x == j && s in ss)
    ensures x in Listed(PushAll(jids, ss, j), s) <==> x in Listed(jids, s) || (x == j && s in ss)
  {
    if ss != [] {
      assert ss == ss[..|ss| - 1] + [ss[|ss| - 1]];
      EnrollListed(jids, ss[..|ss| - 1], j, s, x);
    }
  }

  lemma UpdateAgree(st: Caps, own: bool, enabled: bool, j: string, node: string, ver: string, ext: string)
    requires Agree(st.specs, st.jids)
    ensures var t := UpdateCaps(st, own, enabled, j, node, ver, ext); Agree(t.specs, t.jids)
  {
    hide Flatten;
    var t, c, was := UpdateCaps(st, own, enabled, j, node, ver, ext), Spec(node, ver, ext), SpecOf(st.specs, j);
    forall s: Spec, x | s.node != "" ensures x in Listed(t.jids, s) <==> s in Flatten(SpecOf(t.specs, x)) {
      ForgetListed(st.jids, Flatten(was), j, s, x);
      EnrollListed(Forget(st.jids, Flatten(was), j), Flatten(c), j, s, x);
      EnrollListed(st.jids, Flatten(c), j, s, x);
      NoNode(s);
      assert x in Listed(st.jids, s) <==> s in Flatten(SpecOf(st.specs, x));
      if own {
      } else if was == c {
        assert SpecOf(t.specs, x) == SpecOf(st.specs, x);
      } else if node != "" && ver != "" {
        assert SpecOf(t.specs, x) == if x == j then c else SpecOf(st.specs, x);
      } else {
        assert SpecOf(t.specs, x) == if x == j then NO_SPEC else SpecOf(st.specs, x);
      }
    }
  }

  lemma NoNode(s: Spec)
    requires s.node != ""
    ensures s !in Flatten(NO_SPEC) && s != NO_SPEC
  {
  }

  lemma DisableAgree(st: Caps, j: string)
    requires Agree(st.specs, st.jids)
    ensures var t := DisableCaps(st, j); Agree(t.specs, t.jids)
  {
    hide Flatten;
    var t := DisableCaps(st, j);
    forall s: Spec, x | s.node != "" ensures x in Listed(t.jids, s) <==> s in Flatten(SpecOf(t.specs, x)) {
      ForgetListed(st.jids, Flatten(SpecOf(st.specs, j)), j, s, x);
      NoNode(s);
      assert x in Listed(st.jids, s) <==> s in Flatten(SpecOf(st.specs, x));
      assert SpecOf(t.specs, x) == if x == j then NO_SPEC else SpecOf(st.specs, x);
    }
  }

  lemma StepInv(st: Caps, ev: Event)
    requires Inv(st) && Legal(ev)
    ensures Inv(Step(st, ev))
  {
    match ev
    case Update(own, enabled, j, node, ver, ext) => UpdateAgree(st, own, enabled, j, node, ver, ext);
    case Disable(j) => DisableAgree(st, j);
    case Reply(j, node, success, features) =>
      assert Split(node, '#')[0] in Split(node, '#');
      DefaultHarmless(st, j, j);
    case Foreign(s, features) =>
  }

  ghost predicate IsRun(states: seq<Caps>, events: seq<Event>) {
    && |states| == |events| + 1 && states[0] == INITIAL
    && forall i :: 0 <= i < |events| ==> Legal(events[i]) && states[i + 1] == Step(states[i], events[i])
  }

  lemma {:induction false} RunInv(states: seq<Caps>, events: seq<Event>)
    requires IsRun(states, events)
    ensures Inv(states[|events|])
  {
    if events != [] {
      var n := |events| - 1;
      RunInv(states[..n + 1], events[..n]);
      StepInv(states[n], events[n]);
    }
  }

  /** Whatever updates, disablings and early, late or failed replies came before: an address is listed
      under a simple specification with a node if and only if the one it advertises contains it. */
  lemma MapsAgree(states: seq<Caps>, events: seq<Event>, s: Spec, j: string)
    requires IsRun(states, events) && s.node != ""
    ensures var st := states[|events|]; j in Listed(st.jids, s) <==> s in Flatten(SpecOf(st.specs, j))
  {
    RunInv(states, events);
  }

  /** Once something is registered its meaning stays. */
  lemma {:induction false} RegistryWriteOnce(states: seq<Caps>, events: seq<Event>, i: nat, s: Spec)
    requires IsRun(states, events) && i <= |events| && s in states[i].info
    ensures s in states[|events|].info && states[|events|].info[s] == states[i].info[s]
  {
    if i < |events| {
      var n := |events| - 1;
      RegistryWriteOnce(states[..n + 1], events[..n], i, s);
    }
  }

  // ---- reports ------------------------------------------------------------------------------------

  /** The event reports that the features of `j` changed. */
  predicate Reports(st: Caps, ev: Event, j: string)
    requires Legal(ev) && |st.changed| <= |Step(st, ev).changed|
  {
    j in Step(st, ev).changed[|st.changed|..]
  }

  lemma ChangedGrows(st: Caps, ev: Event)
    requires Legal(ev)
    ensures st.changed <= Step(st, ev).changed
  {
  }

  /** An advertisement without node or version takes back one that meant something. */
  predicate DropsSilently(st: Caps, ev: Event, j: string) {
    ev.Update? && ev.jid == j && !ev.own && (ev.node == "" || ev.ver == "")
    && SpecOf(st.specs, j) != Spec(ev.node, ev.ver, ev.ext) && Features(st, j) != []
  }

  lemma {:induction false} GatherSame(a: map<Spec, seq<string>>, b: map<Spec, seq<string>>, ss: seq<Spec>)
    requires forall s <- ss :: Meaning(a, s) == Meaning(b, s)
    ensures Gather(a, ss) == Gather(b, ss)
  {
    if ss != [] {
      assert forall s <- ss[..|ss| - 1] :: s in ss;
      GatherSame(a, b, ss[..|ss| - 1]);
    }
  }

  lemma NoFeatures(st: Caps)
    requires Inv(st)
    ensures Gather(st.info, Flatten(NO_SPEC)) == []
  {
    assert Split("", ' ') == [];
    assert Flatten(NO_SPEC) == [NO_SPEC];
    assert Gather(st.info, []) == [];
  }

  /** Nobody's features change unless the registration reports it. */
  lemma RegisterReports(st: Caps, s: Spec, features: seq<string>, j: string)
    requires Inv(st) && s.node != "" && Features(Register(st, s, features), j) != Features(st, j)
    ensures s !in st.info && j in Listed(st.jids, s)
  {
    assert j in Listed(st.jids, s) <==> s in Flatten(SpecOf(st.specs, j));
    if j in st.specs && s !in Flatten(st.specs[j]) {
      GatherSame(st.info, Register(st, s, features).info, Flatten(st.specs[j]));
    }
  }

  /** A lookup that leaves a default specification behind changes nobody's features. */
  lemma DefaultHarmless(st: Caps, j: string, x: string)
    requires Inv(st)
    ensures var t := st.(specs := st.specs[j := SpecOf(st.specs, j)]); Inv(t) && Features(t, x) == Features(st, x)
  {
    var t := st.(specs := st.specs[j := SpecOf(st.specs, j)]);
    forall s: Spec, y | s.node != "" ensures y in Listed(t.jids, s) <==> s in Flatten(SpecOf(t.specs, y)) {
      assert SpecOf(t.specs, y) == SpecOf(st.specs, y);
      assert y in Listed(st.jids, s) <==> s in Flatten(SpecOf(st.specs, y));
    }
    NoFeatures(st);
  }

  /** An event changes someone's features without reporting it if and only if it is an advertisement
      without node or version that takes back a meaningful one. */
  lemma ChangesAreReported(st: Caps, ev: Event, j: string)
    requires Inv(st) && Legal(ev)
    ensures |st.changed| <= |Step(st, ev).changed|
    ensures Features(Step(st, ev), j) != Features(st, j) && !Reports(st, ev, j) <==> DropsSilently(st, ev, j)
  {
    hide Flatten;
    hide Gather;
    hide Inv;
    ChangedGrows(st, ev);
    NoFeatures(st);
    match ev
    case Update(own, enabled, k, node, ver, ext) =>
    case Disable(k) =>
    case Reply(k, node, success, features) =>
      var tokens := Split(node, '#');
      assert tokens[0] in tokens;
      DefaultHarmless(st, k, j);
      var t := st.(specs := st.specs[k := SpecOf(st.specs, k)]);
      var s := Spec(tokens[0], SpecOf(st.specs, k).ver, tokens[1]);
      if Features(Register(t, s, features), j) != Features(t, j) {
        RegisterReports(t, s, features, j);
      }
    case Foreign(s, features) =>
      if Features(Register(st, s, features), j) != Features(st, j) {
        RegisterReports(st, s, features, j);
      }
  }

  /** Such a run exists: an advertisement, its meaning, and another one that is incomplete. The features
      are lost and nobody is told. */
  lemma SilentDrop(j: string, node: string, ver: string, feature: string)
    requires node != "" && ver != ""
    ensures var shown, meant, lost := Update(false, true, j, node, ver, ""), Foreign(Spec(node, ver, ver), [feature]), Update(false, true, j, "", "", "");
            var a := Step(INITIAL, shown); var b := Step(a, meant); var c := Step(b, lost);
            && IsRun([INITIAL, a, b, c], [shown, meant, lost])
            && Features(b, j) == [feature] && Features(c, j) == [] && c.changed == b.changed
  {
    hide Forget;
    hide Enroll;
    hide PushAll;
    hide Requests;
    var s := Spec(node, ver, ver);
    var a := Step(INITIAL, Update(false, true, j, node, ver, ""));
    var b := Step(a, Foreign(s, [feature]));
    assert b.info == map[s := [feature]] && b.specs == map[j := Spec(node, ver, "")];
    assert Split("", ' ') == [] && Flatten(Spec(node, ver, "")) == [s];
    assert [s][..0] == [] && Gather(b.info, []) == [];
    assert Gather(b.info, [s]) == [feature];
  }

  // ---- replies --------------------------------------------------------------------------------------

  predicate Complete(c: Spec) { c.node != "" && c.ver != "" }

  /** What the address advertises after the event, if it advertised `was` before: an incomplete
      advertisement takes it back. */
  function Readvertised(was: Spec, ev: Event, j: string): Spec {
    if ev.Update? && !ev.own && ev.jid == j then
      (if ev.node != "" && ev.ver != "" then Spec(ev.node, ev.ver, ev.ext) else NO_SPEC)
    else if ev.Disable? && ev.jid == j then NO_SPEC
    else was
  }

  function Advertised(events: seq<Event>, j: string): Spec {
    if events == [] then NO_SPEC else Readvertised(Advertised(events[..|events| - 1], j), events[|events| - 1], j)
  }

  lemma StepSpec(st: Caps, ev: Event, j: string)
    requires Legal(ev) && (SpecOf(st.specs, j) == NO_SPEC || Complete(SpecOf(st.specs, j)))
    ensures SpecOf(Step(st, ev).specs, j) == Readvertised(SpecOf(st.specs, j), ev, j)
  {
    hide Flatten;
    hide Forget;
    hide Enroll;
    hide PushAll;
    hide Requests;
    hide Split;
  }

  lemma {:induction false} SpecAdvertised(states: seq<Caps>, events: seq<Event>, j: string)
    requires IsRun(states, events)
    ensures SpecOf(states[|events|].specs, j) == Advertised(events, j)
    ensures Advertised(events, j) == NO_SPEC || Complete(Advertised(events, j))
  {
    hide Step;
    if events != [] {
      var n := |events| - 1;
      SpecAdvertised(states[..n + 1], events[..n], j);
      StepSpec(states[n], events[n], j);
    }
  }

  lemma {:induction false} AskedOnlyIf(jids: map<Spec, seq<string>>, info: map<Spec, seq<string>>, ss: seq<Spec>, j: string, node: string, r: Request)
    requires r in Requests(jids, info, ss, j, node)
    ensures exists s <- ss :: s !in info && |Listed(jids, s)| == 1 && r == Request(j, node + "#" + s.ext)
  {
    var n := |ss| - 1;
    if n >= 0 && r in Requests(jids, info, ss[..n], j, node) {
      AskedOnlyIf(jids, info, ss[..n], j, node, r);
      var s :| s in ss[..n] && s !in info && |Listed(jids, s)| == 1 && r == Request(j, node + "#" + s.ext);
      assert s in ss;
    } else if n >= 0 {
      assert ss[n] in ss;
    }
  }

  lemma RequestsGrow(st: Caps, ev: Event)
    requires Legal(ev)
    ensures st.requests <= Step(st, ev).requests
  {
  }

  /** The questions the event makes the client ask. */
  function Questions(st: Caps, ev: Event): seq<Request>
    requires Legal(ev)
  {
    RequestsGrow(st, ev);
    Step(st, ev).requests[|st.requests|..]
  }

  /** A question is asked when something complete is advertised, and names a part of it. */
  lemma Asked(st: Caps, ev: Event, ext: string)
    requires ev.Update? && Request(ev.jid, ev.node + "#" + ext) in Questions(st, ev)
    ensures !ev.own && ev.node != "" && ev.ver != "" && ext != ""
  {
    hide Flatten;
    var c := Spec(ev.node, ev.ver, ev.ext);
    var jids := Enroll(Forget(st.jids, Flatten(SpecOf(st.specs, ev.jid)), ev.jid), Flatten(c), ev.jid);
    var r := Request(ev.jid, ev.node + "#" + ext);
    assert Questions(st, ev) == Requests(jids, st.info, Flatten(c), ev.jid, ev.node);
    AskedOnlyIf(jids, st.info, Flatten(c), ev.jid, ev.node, r);
    var s :| s in Flatten(c) && s !in st.info && r == Request(ev.jid, ev.node + "#" + s.ext);
    assert (ev.node + "#" + ext)[|ev.node| + 1..] == ext && (ev.node + "#" + s.ext)[|ev.node| + 1..] == s.ext;
    FlattenParts(c, s);
  }

  lemma FlattenParts(c: Spec, s: Spec)
    requires s in Flatten(c)
    ensures s.node == c.node && s.ver == c.ver && (c.ver != "" ==> s.ext != "")
  {
    var exts := Split(c.ext, ' ');
    forall i | 0 <= i < |exts| ensures exts[i] != "" {
      assert exts[i] in exts;
    }
  }

  /** A successful reply is filed under node, version and extension if and only if the node names both
      parts unambiguously and the address advertises that node and version when the reply arrives. */
  lemma FiledRight(st: Caps, j: string, node: string, ver: string, ext: string, features: seq<string>)
    requires node != "" && ext != "" && Legal(Reply(j, node + "#" + ext, true, features)) && Spec(node, ver, ext) !in st.info
    ensures Step(st, Reply(j, node + "#" + ext, true, features)).info == st.info[Spec(node, ver, ext) := features] <==>
            '#' !in node && '#' !in ext && SpecOf(st.specs, j).node == node && SpecOf(st.specs, j).ver == ver
  {
    var s := Spec(node, ver, ext);
    var tokens := Split(node + "#" + ext, '#');
    var t := Step(st, Reply(j, node + "#" + ext, true, features));
    assert tokens[0] in tokens && tokens[1] in tokens;
    if '#' !in node && '#' !in ext {
      SplitTwo(node, ext);
    }
    assert t.info == st.info[s := features] ==> s in t.info;
  }

  /** Over runs: the reply to a question asked about an advertisement is filed under the version it was
      asked about if and only if, when it arrives, the last advertisement of the address has that node and
      version still, and the node can be told from the extension. */
  lemma RepliesFiledRight(states: seq<Caps>, events: seq<Event>, i: nat, k: nat, ext: string, features: seq<string>)
    requires IsRun(states, events) && i < k < |events| && events[i].Update?
    requires Request(events[i].jid, events[i].node + "#" + ext) in Questions(states[i], events[i])
    requires events[k] == Reply(events[i].jid, events[i].node + "#" + ext, true, features)
    requires Spec(events[i].node, events[i].ver, ext) !in states[k].info
    ensures var asked, now := events[i], Advertised(events[..k], events[i].jid);
            states[k + 1].info == states[k].info[Spec(asked.node, asked.ver, ext) := features] <==>
            '#' !in asked.node && '#' !in ext && now.node == asked.node && now.ver == asked.ver
  {
    hide Step;
    Asked(states[i], events[i], ext);
    SpecAdvertised(states[..k + 1], events[..k], events[i].jid);
    FiledRight(states[k], events[i].jid, events[i].node, events[i].ver, ext, features);
  }

  lemma FirstUpdate(j: string, node: string, ver: string)
    requires node != "" && ver != ""
    ensures UpdateCaps(INITIAL, false, true, j, node, ver, "").requests == [Request(j, node + "#" + ver)]
  {
    assert Split("", ' ') == [];
    var s := Spec(node, ver, ver);
    assert Flatten(Spec(node, ver, "")) == [s] && Flatten(NO_SPEC) == [NO_SPEC];
    assert Forget(map[], [], j) == map[] && Forget(map[], [NO_SPEC], j) == map[];
    var nobody: seq<string> := [];
    assert [s][..0] == [] && Enroll(map[], [], j) == map[];
    assert nobody + [j] == [j] && Enroll(map[], [s], j) == map[s := nobody + [j]];
    var jids := Enroll(map[], [s], j);
    assert Requests(jids, map[], [], j, node) == [] && Requests(jids, map[], [s], j, node) == [Request(j, node + "#" + ver)];
  }

  /** A run with such a reply: the answer about an older version is filed under the newer one. */
  lemma LateReplyMisfiled(j: string, node: string, older: string, newer: string, features: seq<string>)
    requires node != "" && '#' !in node && older != "" && '#' !in older && newer != "" && older != newer && features != []
    ensures var first, second, reply :=
              Update(false, true, j, node, older, ""), Update(false, true, j, node, newer, ""), Reply(j, node + "#" + older, true, features);
            var a := Step(INITIAL, first); var b := Step(a, second);
            && a.requests == [Request(j, node + "#" + older)] && Legal(reply)
            && IsRun([INITIAL, a, b, Step(b, reply)], [first, second, reply])
            && Step(b, reply).info == map[Spec(node, newer, older) := features]
  {
    hide Forget;
    hide Enroll;
    hide Requests;
    hide Flatten;
    hide Split;
    FirstUpdate(j, node, older);
    SplitTwo(node, older);
  }

  lemma {:induction false} WordIs(w: string, rest: string, sep: char)
    requires sep !in w && (rest == "" || rest[0] == sep)
    ensures FirstWord(w + rest, sep) == w
  {
    if w != "" {
      assert (w + rest)[1..] == w[1..] + rest;
      WordIs(w[1..], rest, sep);
      assert w == [w[0]] + w[1..];
    }
  }

  /** The first word ends inside `a`, or the separator behind `a` ends it. */
  lemma {:induction false} FirstWordSum(a: string, b: string, sep: char)
    ensures FirstWord(a + [sep] + b, sep) == FirstWord(a, sep)
  {
    if a == "" {
      assert (a + [sep] + b)[0] == sep;
    } else {
      assert (a + [sep] + b)[1..] == a[1..] + [sep] + b;
      FirstWordSum(a[1..], b, sep);
    }
  }

  lemma SplitIs(s: string, sep: char)
    requires s != ""
    ensures var w := FirstWord(s, sep);
            var rest := if |w| == |s| then [] else Split(s[|w| + 1..], sep);
            Split(s, sep) == if w == "" then rest else [w] + rest
  {
  }

  /** The pieces of node and extension together are those of the two. */
  lemma {:induction false} SplitSum(a: string, b: string, sep: char)
    ensures Split(a + [sep] + b, sep) == Split(a, sep) + Split(b, sep)
    decreases |a|
  {
    hide Split;
    hide FirstWord;
    var s, w := a + [sep] + b, FirstWord(a, sep);
    FirstWordSum(a, b, sep);
    SplitIs(s, sep);
    if a == "" {
      SplitNothing(sep);
      assert s[1..] == b;
    } else {
      SplitIs(a, sep);
      if |w| == |a| {
        assert s[|w| + 1..] == b;
      } else {
        assert s[|w| + 1..] == a[|w| + 1..] + [sep] + b;
        SplitSum(a[|w| + 1..], b, sep);
      }
    }
  }

  lemma SplitNothing(sep: char)
    ensures Split("", sep) == [] && FirstWord("", sep) == ""
  {
  }

  lemma {:induction false} SplitEmpty(a: string, sep: char)
    ensures Split(a, sep) == [] <==> forall i :: 0 <= i < |a| ==> a[i] == sep
    decreases |a|
  {
    hide Split;
    hide FirstWord;
    if a == "" {
      SplitNothing(sep);
    } else {
      SplitIs(a, sep);
      var w := FirstWord(a, sep);
      if w == "" {
        SplitEmpty(a[1..], sep);
        assert forall i :: 0 < i < |a| ==> a[i] == a[1..][i - 1];
      } else {
        assert w[0] in w && a[0] == w[0];
      }
    }
  }

  /** A question's node has two parts at least, unless node or extension are made of separators and the other
      has no separator inside. */
  lemma QuestionParts(node: string, ext: string)
    ensures |Split(node + "#" + ext, '#')| == |Split(node, '#')| + |Split(ext, '#')|
    ensures (exists i :: 0 <= i < |node| && node[i] != '#') && (exists i :: 0 <= i < |ext| && ext[i] != '#') ==>
              |Split(node + "#" + ext, '#')| >= 2
  {
    SplitSum(node, ext, '#');
    SplitEmpty(node, '#');
    SplitEmpty(ext, '#');
  }

  lemma SplitTwo(node: string, ext: string)
    requires node != "" && '#' !in node && ext != "" && '#' !in ext
    ensures Split(node + "#" + ext, '#') == [node, ext]
  {
    WordIs(node, "#" + ext, '#');
    assert node + "#" + ext == node + ("#" + ext);
    assert (node + "#" + ext)[|node| + 1..] == ext;
    WordIs(ext, "", '#');
    assert ext + "" == ext;
  }
}
