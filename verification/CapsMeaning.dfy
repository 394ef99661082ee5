/** What an advertisement stands for, who is listed under it, what is asked and which features it gives, read off
    the advertised texts themselves. */
module CapsMeaning {
  import opened Lists
  import opened CapsModel
  import opened CapsProperties
  import opened CapsKnowledge

  // ---- the pieces of a text -----------------------------------------------------------------------

  /** `w` stands at `i`, without a separator in it, and between separators or ends of the text. */
  predicate PieceAt(text: string, sep: char, w: string, i: int) {
    && w != "" && sep !in w && 0 <= i && i + |w| <= |text| && text[i..i + |w|] == w
    && (i == 0 || text[i - 1] == sep) && (i + |w| == |text| || text[i + |w|] == sep)
  }

  predicate Piece(text: string, sep: char, w: string) {
    exists i :: 0 <= i < |text| && PieceAt(text, sep, w, i)
  }

  lemma PieceLater(text: string, sep: char, w: string, n: nat)
    requires 0 < n <= |text| && text[n - 1] == sep && Piece(text[n..], sep, w)
    ensures Piece(text, sep, w)
  {
    var i :| 0 <= i < |text[n..]| && PieceAt(text[n..], sep, w, i);
    assert text[n..][i..i + |w|] == text[n + i..n + i + |w|];
    assert PieceAt(text, sep, w, n + i);
  }

  lemma {:induction false} SplitIsPiece(text: string, sep: char, w: string)
    requires w in Split(text, sep)
    ensures Piece(text, sep, w)
    decreases |text|
  {
    hide Split;
    hide Piece;
    if text == "" {
      SplitNothing(sep);
    } else {
      SplitIs(text, sep);
      var first := FirstWord(text, sep);
      if w == first {
        FirstIsPiece(text, sep);
      } else {
        SplitIsPiece(text[|first| + 1..], sep, w);
        PieceLater(text, sep, w, |first| + 1);
      }
    }
  }

  lemma FirstIsPiece(text: string, sep: char)
    requires FirstWord(text, sep) != ""
    ensures Piece(text, sep, FirstWord(text, sep))
  {
    assert PieceAt(text, sep, FirstWord(text, sep), 0);
  }

  lemma PieceIsSplit(text: string, sep: char, w: string)
    requires Piece(text, sep, w)
    ensures w in Split(text, sep)
  {
    hide Split;
    var i :| 0 <= i < |text| && PieceAt(text, sep, w, i);
    var rest := text[i + |w|..];
    assert text[i..] == w + rest;
    WordIs(w, rest, sep);
    SplitIs(w + rest, sep);
    assert w in Split(w + rest, sep);
    if i > 0 {
      assert text == text[..i - 1] + [sep] + text[i..];
      SplitSum(text[..i - 1], text[i..], sep);
    } else {
      assert text == text[i..];
    }
  }

  // ---- what an advertisement stands for -------------------------------------------------------------

  /** The simple specification has the advertised node and version, and its extension is the version or one of the
      words in the advertised extensions. */
  predicate StandsFor(c: Spec, s: Spec) {
    s.node == c.node && s.ver == c.ver && (s.ext == c.ver || Piece(c.ext, ' ', s.ext))
  }

  lemma FlattenExact(c: Spec, s: Spec)
    ensures s in Flatten(c) <==> StandsFor(c, s)
  {
    hide Piece;
    var exts := Split(c.ext, ' ');
    var more := seq(|exts|, i requires 0 <= i < |exts| => Spec(c.node, c.ver, exts[i]));
    assert Flatten(c) == [Spec(c.node, c.ver, c.ver)] + more;
    if s in more {
      var i :| 0 <= i < |exts| && s == more[i];
      assert exts[i] in exts;
      SplitIsPiece(c.ext, ' ', s.ext);
    }
    if Piece(c.ext, ' ', s.ext) {
      PieceIsSplit(c.ext, ' ', s.ext);
      var i :| 0 <= i < |exts| && exts[i] == s.ext;
      assert more[i] == Spec(c.node, c.ver, s.ext);
    }
  }

  /** After every run an address is listed under a simple specification with a node if and only if its last complete
      advertisement, not taken back since, stands for it. */
  lemma ListedAsAdvertised(states: seq<Caps>, events: seq<Event>, s: Spec, j: string)
    requires IsRun(states, events) && s.node != ""
    ensures j in Listed(states[|events|].jids, s) <==> StandsFor(Advertised(events, j), s)
  {
    hide StandsFor;
    MapsAgree(states, events, s, j);
    SpecAdvertised(states, events, j);
    FlattenExact(Advertised(events, j), s);
  }

  lemma {:induction false} PushedTimes(jids: map<Spec, seq<string>>, ss: seq<Spec>, j: string, s: Spec)
    ensures Listed(PushAll(jids, ss, j), s) == Listed(jids, s) + seq(multiset(ss)[s], _ => j)
  {
    if ss == [] {
      assert Listed(jids, s) + [] == Listed(jids, s);
    } else {
      var rest, last := ss[..|ss| - 1], ss[|ss| - 1];
      assert ss == rest + [last];
      PushedTimes(jids, rest, j, s);
      var n := multiset(rest)[s];
      assert seq(n, _ => j) + [j] == seq(n + 1, _ => j);
      assert multiset(ss)[s] == n + if last == s then 1 else 0;
    }
  }

  /** Advertising the same again lists the address once more under each of the simple specifications; nothing is
      reported or asked. What the client advertises itself is ignored. */
  lemma RepeatedAdvertisement(st: Caps, own: bool, enabled: bool, j: string, node: string, ver: string, ext: string, s: Spec)
    requires own || SpecOf(st.specs, j) == Spec(node, ver, ext)
    ensures var t, c := UpdateCaps(st, own, enabled, j, node, ver, ext), Spec(node, ver, ext);
            if own then t == st
            else
              && t == st.(specs := st.specs[j := c], jids := t.jids)
              && exists more :: Listed(t.jids, s) == Listed(st.jids, s) + more && (forall x <- more :: x == j) && (more != [] <==> StandsFor(c, s))
  {
    hide Flatten;
    hide StandsFor;
    hide PushAll;
    if !own {
      var ss := Flatten(Spec(node, ver, ext));
      PushedTimes(st.jids, ss, j, s);
      FlattenExact(Spec(node, ver, ext), s);
      assert multiset(ss)[s] > 0 <==> s in ss;
    }
  }

  // ---- features -----------------------------------------------------------------------------------------

  lemma {:induction false} Gathered(info: map<Spec, seq<string>>, ss: seq<Spec>, f: string)
    ensures f in Gather(info, ss) <==> exists s <- ss :: s in info && f in info[s]
  {
    if ss != [] {
      assert ss == ss[..|ss| - 1] + [ss[|ss| - 1]];
      Gathered(info, ss[..|ss| - 1], f);
    }
  }

  /** Some registered specification the advertisement stands for means the feature. */
  ghost predicate Meant(info: map<Spec, seq<string>>, c: Spec, f: string) {
    exists s <- info :: StandsFor(c, s) && f in info[s]
  }

  /** After every run an address has exactly the features that the registered specifications mean which its last
      complete advertisement, not taken back since, stands for. */
  lemma FeaturesAsAdvertised(states: seq<Caps>, events: seq<Event>, j: string, f: string)
    requires IsRun(states, events)
    ensures var st := states[|events|]; f in Features(st, j) <==> Meant(st.info, Advertised(events, j), f)
  {
    hide StandsFor;
    hide Flatten;
    hide Gather;
    var st, c := states[|events|], Advertised(events, j);
    RunInv(states, events);
    SpecAdvertised(states, events, j);
    NoFeatures(st);
    Gathered(st.info, Flatten(c), f);
    forall s | s in st.info ensures s in Flatten(c) <==> StandsFor(c, s) {
      FlattenExact(c, s);
    }
  }

  // ---- questions and reports ------------------------------------------------------------------------------

  lemma NothingAsked(st: Caps, ev: Event)
    requires Legal(ev)
    requires !ev.Update? || ev.own || !ev.enabled || !Complete(Advert(ev)) || SpecOf(st.specs, ev.jid) == Advert(ev)
    ensures Questions(st, ev) == []
  {
    hide Flatten;
    hide Split;
  }

  /** The event newly advertises something complete that stands for the specification, whose meaning is not known,
      and its address alone is listed under it then. */
  predicate AsksAbout(st: Caps, ev: Event, s: Spec)
    requires Legal(ev)
  {
    && ev.Update? && !ev.own && ev.enabled && ev.node != "" && ev.ver != "" && SpecOf(st.specs, ev.jid) != Spec(ev.node, ev.ver, ev.ext)
    && StandsFor(Spec(ev.node, ev.ver, ev.ext), s) && s !in st.info && Listed(Step(st, ev).jids, s) == [ev.jid]
  }

  /** An event asks exactly the questions about such specifications, each of its own address. */
  lemma AskedExactly(st: Caps, ev: Event, q: Request)
    requires Legal(ev)
    ensures q in Questions(st, ev) <==> exists s :: AsksAbout(st, ev, s) && q.jid == ev.jid && q.node == ev.node + "#" + s.ext
  {
    hide Flatten;
    hide Questions;
    hide Step;
    hide StandsFor;
    if ev.Update? {
      forall s | AsksAbout(st, ev, s) ensures Chance(st, ev, s) && Question(ev, s) in Questions(st, ev) {
        FlattenExact(Advert(ev), s);
        ChanceAsks(st, ev, s);
      }
      if q in Questions(st, ev) {
        var s := Asker(st, ev, q);
      }
    } else {
      NothingAsked(st, ev);
    }
  }

  lemma QuestionsAre(st: Caps, ev: Event)
    requires Legal(ev) && ev.Update? && !ev.own && ev.enabled && Complete(Advert(ev)) && SpecOf(st.specs, ev.jid) != Advert(ev)
    ensures var ss, jids := Flatten(Advert(ev)), Step(st, ev).jids;
            && Questions(st, ev) == Requests(jids, st.info, ss, ev.jid, ev.node)
            && forall s <- ss :: ev.jid in Listed(jids, s)
  {
    hide Flatten;
    hide Forget;
    hide Enroll;
    hide Requests;
    var ss, without := Flatten(Advert(ev)), Forget(st.jids, Flatten(SpecOf(st.specs, ev.jid)), ev.jid);
    forall s | s in ss ensures ev.jid in Listed(Enroll(without, ss, ev.jid), s) {
      EnrollListed(without, ss, ev.jid, s, ev.jid);
    }
  }

  lemma Asker(st: Caps, ev: Event, q: Request) returns (s: Spec)
    requires Legal(ev) && ev.Update? && q in Questions(st, ev)
    ensures AsksAbout(st, ev, s) && q.jid == ev.jid && q.node == ev.node + "#" + s.ext
  {
    hide Flatten;
    hide Requests;
    hide Questions;
    hide Step;
    hide StandsFor;
    if ev.own || !ev.enabled || !Complete(Advert(ev)) || SpecOf(st.specs, ev.jid) == Advert(ev) {
      NothingAsked(st, ev);
      assert false;
    } else {
      QuestionsAre(st, ev);
      var c, jids := Advert(ev), Step(st, ev).jids;
      AskedOnlyIf(jids, st.info, Flatten(c), ev.jid, ev.node, q);
      s :| s in Flatten(c) && s !in st.info && |Listed(jids, s)| == 1 && q == Request(ev.jid, ev.node + "#" + s.ext);
      FlattenExact(c, s);
    }
  }

  /** An address is reported exactly when it newly advertises something complete, when it is disabled, and when
      something it is listed under gets its meaning. */
  lemma ReportedExactly(st: Caps, ev: Event, j: string)
    requires Legal(ev)
    ensures |st.changed| <= |Step(st, ev).changed|
    ensures Reports(st, ev, j) <==>
      match ev
      case Update(own, enabled, k, node, ver, ext) => k == j && !own && node != "" && ver != "" && SpecOf(st.specs, j) != Spec(node, ver, ext)
      case Disable(k) => k == j && j in st.specs
      case _ => exists s :: s !in st.info && Files(st, ev, s) && j in Listed(st.jids, s)
  {
    hide Flatten;
    hide Forget;
    hide Enroll;
    hide PushAll;
    hide Requests;
    hide Split;
    ChangedGrows(st, ev);
    match ev
    case Update(own, enabled, k, node, ver, ext) =>
    case Disable(k) =>
    case Reply(k, node, success, features) =>
      var tokens := Split(node, '#');
      var s := Spec(tokens[0], SpecOf(st.specs, k).ver, tokens[1]);
      assert success && SpecOf(st.specs, k).node == tokens[0] ==> Files(st, ev, s);
    case Foreign(s, features) =>
      assert Files(st, ev, s);
  }
}
