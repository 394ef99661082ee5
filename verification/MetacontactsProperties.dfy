/** What the metacontacts directory promises over its runs. */
module MetacontactsProperties {
  import opened Decimal
  import opened MetacontactsModel

  datatype Event =
    | TagSet(jid: string, tag: string)
    | OrderSet(jid: string, order: int)
    | BothSet(jid: string, tag: string, order: int)
    | Saved(keys: seq<string>)
    | TimedOut(keys: seq<string>)
    | SaveReply(success: bool)
    | Downloaded(success: bool, records: seq<Record>, keys: seq<string>)
    | Cleared

  ghost predicate Legal(d: Dir, ev: Event) {
    match ev
    case Saved(keys) => Lists(keys, d.tags)
    case TimedOut(keys) => d.timer && Lists(keys, d.tags)
    case Downloaded(success, l, keys) => success ==> Lists(keys, ReceiveAll(d, l).tags)
    case _ => true
  }

  function Step(d: Dir, ev: Event): Dir {
    match ev
    case TagSet(j, tag) => SetTag(d, j, tag)
    case OrderSet(j, n) => SetOrder(d, j, n)
    case BothSet(j, tag, n) => SetTagAndOrder(d, j, tag, n)
    case Saved(keys) => Save(d, keys)
    case TimedOut(keys) => TimerFires(d, keys)
    case SaveReply(success) => SaveFinished(d, success)
    case Downloaded(success, l, keys) => Download(d, success, l, keys)
    case Cleared => Clear(d)
  }

  /** The event sends the directory to the server, takes over the server's, or forgets both. */
  predicate Synchronises(d: Dir, ev: Event) {
    ev.Saved? || (ev.TimedOut? && d.needs) || (ev.Downloaded? && ev.success) || ev.Cleared?
  }

  // ---- unsaved changes are on their way -------------------------------------------------------------

  predicate Differs(d: Dir, e: Dir, j: string) { TagOf(d, j) != TagOf(e, j) || OrderOf(d, j) != OrderOf(e, j) }

  /** `last` is the directory as it was right after it was last synchronised. */
  ghost predicate Pending(d: Dir, last: Dir) {
    d.needs == d.timer && forall j :: Differs(d, last, j) ==> d.needs
  }

  lemma StepPending(d: Dir, last: Dir, ev: Event)
    requires Pending(d, last) && Legal(d, ev)
    ensures Pending(Step(d, ev), if Synchronises(d, ev) then Step(d, ev) else last)
  {
    var t := Step(d, ev);
    if !Synchronises(d, ev) {
      forall j | Differs(t, last, j) ensures t.needs {
        if !Differs(d, last, j) {
          assert Differs(t, d, j);
        }
      }
    }
  }

  ghost predicate IsRun(dirs: seq<Dir>, lasts: seq<Dir>, events: seq<Event>) {
    && |dirs| == |lasts| == |events| + 1 && dirs[0] == lasts[0] == INITIAL
    && forall i :: 0 <= i < |events| ==> Legal(dirs[i], events[i]) && dirs[i + 1] == Step(dirs[i], events[i])
                                         && lasts[i + 1] == if Synchronises(dirs[i], events[i]) then dirs[i + 1] else lasts[i]
  }

  lemma {:induction false} RunPending(dirs: seq<Dir>, lasts: seq<Dir>, events: seq<Event>)
    requires IsRun(dirs, lasts, events)
    ensures Pending(dirs[|events|], lasts[|events|])
  {
    if events != [] {
      var n := |events| - 1;
      RunPending(dirs[..n + 1], lasts[..n + 1], events[..n]);
      StepPending(dirs[n], lasts[n], events[n]);
    }
  }

  /** Between events: if any tag or order differs from what was last sent, received or cleared, a save is
      due and its timer runs; and the timer runs only then. */
  lemma UnsavedChangesAreDue(dirs: seq<Dir>, lasts: seq<Dir>, events: seq<Event>, j: string)
    requires IsRun(dirs, lasts, events)
    ensures var d, last := dirs[|events|], lasts[|events|];
            (TagOf(d, j) != TagOf(last, j) || OrderOf(d, j) != OrderOf(last, j) ==> d.needs && d.timer) && d.timer == d.needs
  {
    RunPending(dirs, lasts, events);
    assert Differs(dirs[|events|], lasts[|events|], j) ==> dirs[|events|].needs;
  }

  /** When that timer fires, the whole directory is sent. */
  lemma TimerSendsAll(d: Dir, keys: seq<string>)
    requires d.needs && d.timer && Lists(keys, d.tags)
    ensures var t := TimerFires(d, keys);
            && !t.needs && !t.timer && |t.sent| == |d.sent| + 1
            && (forall r :: r in t.sent[|d.sent|] <==> exists j :: j in d.tags && r == RecordOf(d, j))
            && forall i, k :: 0 <= i < k < |t.sent[|d.sent|]| ==> t.sent[|d.sent|][i] != t.sent[|d.sent|][k]
  {
    var t := TimerFires(d, keys);
    var l := t.sent[|d.sent|];
    assert l == SaveList(d.(timer := false), keys);
    forall r ensures r in l <==> exists j :: j in d.tags && r == RecordOf(d, j) {
      if j :| j in d.tags && r == RecordOf(d, j) {
        var i :| 0 <= i < |keys| && keys[i] == j;
        assert l[i] == RecordOf(d, j);
      }
      if r in l {
        var i :| 0 <= i < |l| && l[i] == r;
        assert r == RecordOf(d, keys[i]) && keys[i] in keys;
      }
    }
  }

  // ---- signals --------------------------------------------------------------------------------------

  /** A listener's copy, fed by the signals alone. */
  datatype Copy = Copy(tags: map<string, string>, orders: map<string, int>)

  function Heard(c: Copy, s: Signal): Copy { Copy(c.tags[s.jid := s.tag], c.orders[s.jid := s.order]) }

  function Replay(signals: seq<Signal>): Copy {
    if signals == [] then Copy(map[], map[]) else Heard(Replay(signals[..|signals| - 1]), signals[|signals| - 1])
  }

  /** The copy says of `j` what the directory says. */
  predicate Knows(c: Copy, d: Dir, j: string) {
    TagOf(d, j) == (if j in c.tags then c.tags[j] else "") && OrderOf(d, j) == (if j in c.orders then c.orders[j] else 0)
  }

  ghost predicate Mirrors(d: Dir) { forall j :: Knows(Replay(d.signals), d, j) }

  /** A negative order is stored as none but announced as it is, and clearing announces nothing. */
  ghost predicate Spoils(d: Dir, ev: Event) {
    match ev
    case OrderSet(j, n) => n < 0 && n != OrderOf(d, j)
    case BothSet(j, tag, n) => n < 0 && n != OrderOf(d, j)
    case Cleared => exists j :: Differs(d, INITIAL, j)
    case _ => false
  }

  lemma EmitReplay(d: Dir, j: string, tag: string, n: int)
    ensures Replay(Emit(d, j, tag, n).signals) == Heard(Replay(d.signals), Changed(j, tag, n))
  {
    assert (d.signals + [Changed(j, tag, n)])[..|d.signals|] == d.signals;
  }

  /** Announcing how things stand with `j` makes up for any change to it. */
  lemma Announced(d: Dir, t: Dir, j: string, tag: string, n: int)
    requires Mirrors(d) && t.signals == d.signals && forall k :: k != j ==> !Differs(t, d, k)
    ensures Mirrors(Emit(t, j, tag, n)) <==> TagOf(t, j) == tag && OrderOf(t, j) == n
  {
    EmitReplay(t, j, tag, n);
    var c := Replay(d.signals);
    hide Replay;
    assert Knows(Heard(c, Changed(j, tag, n)), Emit(t, j, tag, n), j) <==> TagOf(t, j) == tag && OrderOf(t, j) == n;
    forall k | k != j ensures Knows(Heard(c, Changed(j, tag, n)), Emit(t, j, tag, n), k) {
      assert Knows(c, d, k) && !Differs(t, d, k);
    }
  }

  lemma Unchanged(d: Dir, t: Dir)
    requires Mirrors(d) && t.signals == d.signals
    ensures Mirrors(t) <==> forall j :: !Differs(t, d, j)
  {
    var c := Replay(d.signals);
    hide Replay;
    forall j ensures Knows(c, t, j) <==> !Differs(t, d, j) {
      assert Knows(c, d, j);
    }
  }

  lemma ReceiveMirrors(d: Dir, r: Record)
    requires Mirrors(d)
    ensures Mirrors(Receive(d, r))
  {
    if r.jid.Some? {
      var j, n := r.jid.text, ToInt(r.order);
      var t := d.(tags := d.tags[j := r.tag], orders := d.orders[j := n]);
      if r.tag == TagOf(d, j) && n == OrderOf(d, j) {
        Unchanged(d, t);
      } else {
        Announced(d, t, j, r.tag, n);
      }
    }
  }

  lemma {:induction false} ReceiveAllMirrors(d: Dir, l: seq<Record>)
    requires Mirrors(d)
    ensures Mirrors(ReceiveAll(d, l))
  {
    if l != [] {
      ReceiveAllMirrors(d, l[..|l| - 1]);
      ReceiveMirrors(ReceiveAll(d, l[..|l| - 1]), l[|l| - 1]);
    }
  }

  lemma {:induction false} DiscardAllMirrors(d: Dir, keys: seq<string>, l: seq<Record>)
    requires Mirrors(d)
    ensures Mirrors(DiscardAll(d, keys, l))
  {
    if keys != [] {
      DiscardAllMirrors(d, keys[..|keys| - 1], l);
      var t, j := DiscardAll(d, keys[..|keys| - 1], l), keys[|keys| - 1];
      Announced(t, t.(tags := t.tags - {j}, orders := t.orders - {j}), j, "", 0);
    }
  }

  lemma SetTagMirrors(d: Dir, j: string, tag: string)
    requires Mirrors(d)
    ensures Mirrors(SetTag(d, j, tag))
  {
    hide Mirrors;
    if tag == TagOf(d, j) {
      Unchanged(d, TouchTag(d, j));
    } else {
      Announced(d, TouchOrder(Edited(PutTag(d, j, tag), j), j), j, tag, OrderOf(d, j));
    }
  }

  lemma SetOrderMirrors(d: Dir, j: string, n: int)
    requires Mirrors(d)
    ensures Mirrors(SetOrder(d, j, n)) <==> n >= 0 || n == OrderOf(d, j)
  {
    hide Mirrors;
    if n == OrderOf(d, j) {
      Unchanged(d, TouchOrder(d, j));
    } else {
      Announced(d, TouchTag(Edited(PutOrder(d, j, n), j), j), j, TagOf(d, j), n);
    }
  }

  lemma SetBothMirrors(d: Dir, j: string, tag: string, n: int)
    requires Mirrors(d)
    ensures Mirrors(SetTagAndOrder(d, j, tag, n)) <==> n >= 0 || n == OrderOf(d, j)
  {
    hide Mirrors;
    var t := if tag == TagOf(d, j) then TouchTag(d, j) else PutTag(d, j, tag);
    var u := if n == OrderOf(d, j) then TouchOrder(t, j) else PutOrder(t, j, n);
    if tag == TagOf(d, j) && n == OrderOf(d, j) {
      Unchanged(d, u);
    } else {
      Announced(d, Edited(u, j), j, tag, n);
    }
  }

  lemma DownloadMirrors(d: Dir, success: bool, l: seq<Record>, keys: seq<string>)
    requires Mirrors(d)
    ensures Mirrors(Download(d, success, l, keys))
  {
    hide Mirrors;
    if success {
      ReceiveAllMirrors(d, l);
      DiscardAllMirrors(ReceiveAll(d, l), keys, l);
      Unchanged(DiscardAll(ReceiveAll(d, l), keys, l), Download(d, success, l, keys));
    }
  }

  /** A listener that followed the signals knows every tag and order after the event too, if and only if
      the event is not one of those that announce something else than they do. */
  lemma StepMirrors(d: Dir, ev: Event)
    requires Mirrors(d) && Legal(d, ev)
    ensures Mirrors(Step(d, ev)) <==> !Spoils(d, ev)
  {
    hide Mirrors;
    hide SetTag;
    hide SetOrder;
    hide SetTagAndOrder;
    hide Download;
    match ev
    case TagSet(j, tag) => SetTagMirrors(d, j, tag);
    case OrderSet(j, n) => SetOrderMirrors(d, j, n);
    case BothSet(j, tag, n) => SetBothMirrors(d, j, tag, n);
    case Saved(keys) => Unchanged(d, Step(d, ev));
    case TimedOut(keys) => Unchanged(d, Step(d, ev));
    case SaveReply(success) => Unchanged(d, Step(d, ev));
    case Downloaded(success, l, keys) => DownloadMirrors(d, success, l, keys);
    case Cleared =>
      Unchanged(d, Step(d, ev));
      assert forall j :: Differs(Step(d, ev), d, j) == Differs(d, INITIAL, j);
  }

  /** So over a run without clearing and without negative orders from the outside, the signals rebuild
      every tag and order there is. */
  lemma {:induction false} SignalsRebuildDirectory(dirs: seq<Dir>, lasts: seq<Dir>, events: seq<Event>, j: string)
    requires IsRun(dirs, lasts, events) && forall i :: 0 <= i < |events| ==> !Spoils(dirs[i], events[i])
    ensures var d := dirs[|events|]; Mirrors(d) && Knows(Replay(d.signals), d, j)
  {
    hide Step;
    hide Spoils;
    if events != [] {
      var n := |events| - 1;
      SignalsRebuildDirectory(dirs[..n + 1], lasts[..n + 1], events[..n], j);
      StepMirrors(dirs[n], events[n]);
    }
  }

  // ---- downloads ------------------------------------------------------------------------------------

  /** The last record about the address, if there is any. */
  function Last(l: seq<Record>, j: string): (r: int)
    ensures -1 <= r < |l|
    ensures r >= 0 ==> l[r].jid == Some(j) && forall i :: r < i < |l| ==> l[i].jid != Some(j)
    ensures r == -1 <==> !Mentions(l, j)
  {
    if l == [] then -1
    else if l[|l| - 1].jid == Some(j) then |l| - 1
    else
      var r := Last(l[..|l| - 1], j);
      assert Mentions(l, j) ==> Mentions(l[..|l| - 1], j) by {
        if Mentions(l, j) {
          var i :| 0 <= i < |l| && l[i].jid == Some(j);
          assert l[..|l| - 1][i].jid == Some(j);
        }
      }
      r
  }

  lemma ReceivedOne(d: Dir, r: Record, j: string)
    ensures var t := Receive(d, r);
            && TagOf(t, j) == (if r.jid == Some(j) then r.tag else TagOf(d, j))
            && OrderOf(t, j) == (if r.jid == Some(j) then ToInt(r.order) else OrderOf(d, j))
            && (j in t.tags <==> j in d.tags || r.jid == Some(j))
            && (r.jid != Some(j) ==> (j in t.orders <==> j in d.orders))
  {
    hide ToInt;
  }

  lemma {:induction false} Received(d: Dir, l: seq<Record>, j: string)
    ensures var t, r := ReceiveAll(d, l), Last(l, j);
            && TagOf(t, j) == (if r == -1 then TagOf(d, j) else l[r].tag)
            && OrderOf(t, j) == (if r == -1 then OrderOf(d, j) else ToInt(l[r].order))
            && (j in t.tags <==> j in d.tags || r != -1)
            && (r == -1 ==> (j in t.orders <==> j in d.orders))
  {
    hide ToInt;
    hide Receive;
    hide TagOf;
    hide OrderOf;
    if l != [] {
      Received(d, l[..|l| - 1], j);
      ReceivedOne(ReceiveAll(d, l[..|l| - 1]), l[|l| - 1], j);
    }
  }

  lemma {:induction false} Discarded(d: Dir, keys: seq<string>, l: seq<Record>, j: string)
    ensures var t := DiscardAll(d, keys, l);
            if j in keys && !Mentions(l, j) then j !in t.tags && j !in t.orders
            else TagOf(t, j) == TagOf(d, j) && OrderOf(t, j) == OrderOf(d, j)
  {
    if keys != [] {
      assert keys == keys[..|keys| - 1] + [keys[|keys| - 1]];
      Discarded(d, keys[..|keys| - 1], l, j);
    }
  }

  /** Whatever the directory held and whatever the list says, a successful download leaves exactly the
      list's tags, the last record about an address deciding, and the listed orders; nothing is due. */
  lemma DownloadTakesOver(d: Dir, l: seq<Record>, keys: seq<string>, j: string)
    requires Lists(keys, ReceiveAll(d, l).tags)
    ensures var t, r := Download(d, true, l, keys), Last(l, j);
            && TagOf(t, j) == (if r == -1 then "" else l[r].tag)
            && (r != -1 ==> OrderOf(t, j) == ToInt(l[r].order))
            && (r == -1 && j in d.tags ==> OrderOf(t, j) == 0)
            && !t.needs && !t.timer && t.dirty == {}
  {
    Received(d, l, j);
    Discarded(ReceiveAll(d, l), keys, l, j);
  }

  /** The list a directory sends, taken over by a fresh one, restores the tag of every address and the
      order of every address that has a tag entry. */
  lemma SaveThenDownload(d: Dir, keys: seq<string>, keysThere: seq<string>, j: string)
    requires Lists(keys, d.tags) && forall k <- d.orders :: INT_MIN <= d.orders[k] <= INT_MAX
    requires Lists(keysThere, ReceiveAll(INITIAL, SaveList(d, keys)).tags)
    ensures var t := Download(INITIAL, true, SaveList(d, keys), keysThere);
            TagOf(t, j) == TagOf(d, j) && (j in d.tags ==> OrderOf(t, j) == OrderOf(d, j))
  {
    var l := SaveList(d, keys);
    assert Last(l, j) >= 0 ==> keys[Last(l, j)] == j;
    DownloadTakesOver(INITIAL, l, keysThere, j);
    if j in d.tags {
      var i :| 0 <= i < |keys| && keys[i] == j;
      assert l[i].jid == Some(j) && Mentions(l, j);
      if j in d.orders {
        NumberBack(d.orders[j]);
      }
    }
  }

  // ---- edits made by a listener while a download is taken over -----------------------------------------

  /** The tag the list gives an address. */
  function ListTag(l: seq<Record>, j: string): string { if Last(l, j) == -1 then "" else l[Last(l, j)].tag }

  /** The edit comes after `k` records. */
  function EditedReceiving(d: Dir, l: seq<Record>, k: nat, j: string, tag: string): Dir
    requires k <= |l|
  {
    ReceiveAll(SetTag(ReceiveAll(d, l[..k]), j, tag), l[k..])
  }

  /** The edit comes after `m` of the addresses to be checked against the list. */
  function EditedDiscarding(d: Dir, l: seq<Record>, keys: seq<string>, m: nat, j: string, tag: string): Dir
    requires m <= |keys|
  {
    DiscardAll(SetTag(DiscardAll(ReceiveAll(d, l), keys[..m], l), j, tag), keys[m..], l)
  }

  lemma TagAfter(d: Dir, j: string, tag: string, i: string)
    ensures TagOf(SetTag(d, j, tag), i) == if i == j then tag else TagOf(d, i)
    ensures i != j ==> (i in SetTag(d, j, tag).tags <==> i in d.tags)
  {
  }

  lemma LastFrom(l: seq<Record>, k: nat, j: string)
    requires k <= |l|
    ensures Last(l[k..], j) == if Last(l, j) >= k then Last(l, j) - k else -1
    ensures Last(l, j) < k ==> Last(l[..k], j) == Last(l, j)
  {
    var r, p, q := Last(l, j), Last(l[k..], j), Last(l[..k], j);
    if p != -1 {
      assert l[k + p].jid == Some(j);
    }
    if r >= k {
      assert l[k..][r - k].jid == Some(j);
    } else if r != -1 {
      assert l[..k][r].jid == Some(j);
    }
    if q != -1 {
      assert l[q].jid == Some(j);
    }
  }

  lemma ReceivedTags(d: Dir, l: seq<Record>, k: nat, j: string, tag: string, i: string)
    requires k <= |l|
    ensures var t, r := EditedReceiving(d, l, k, j, tag), Last(l, i);
            && TagOf(t, i) == (if r >= k then l[r].tag else if i == j then tag else if r != -1 then l[r].tag else TagOf(d, i))
  {
    hide SetTag;
    hide TagOf;
    hide OrderOf;
    hide ToInt;
    hide ReceiveAll;
    hide Last;
    Received(d, l[..k], i);
    TagAfter(ReceiveAll(d, l[..k]), j, tag, i);
    Received(SetTag(ReceiveAll(d, l[..k]), j, tag), l[k..], i);
    LastFrom(l, k, i);
  }

  /** After an edit while records are received, the tags are the list's if and only if the list says nothing
      of the address, or says it later, or says the same; otherwise the edit stays. In no case is a save
      due. */
  lemma EditWhileReceiving(d: Dir, l: seq<Record>, k: nat, j: string, tag: string, keys: seq<string>)
    requires k <= |l| && Lists(keys, EditedReceiving(d, l, k, j, tag).tags)
    ensures var t, r := Finish(DiscardAll(EditedReceiving(d, l, k, j, tag), keys, l)), Last(l, j);
            && ((forall i :: TagOf(t, i) == ListTag(l, i)) <==> r == -1 || r >= k || tag == l[r].tag)
            && (r != -1 && r < k ==> TagOf(t, j) == tag)
            && !t.needs && !t.timer && t.dirty == {}
  {
    var u := EditedReceiving(d, l, k, j, tag);
    var t := Finish(DiscardAll(u, keys, l));
    hide EditedReceiving;
    hide DiscardAll;
    forall i ensures TagOf(t, i) == if i == j && Last(l, j) != -1 && Last(l, j) < k then tag else ListTag(l, i) {
      ReceivedTags(d, l, k, j, tag, i);
      Discarded(u, keys, l, i);
    }
    assert Last(l, j) != -1 ==> ListTag(l, j) == l[Last(l, j)].tag;
  }

  /** After an edit while the rest is discarded, the tags are the list's if and only if the address is
      still to be discarded or the tag is the list's; otherwise the edit stays. In no case is a save due. */
  lemma EditWhileDiscarding(d: Dir, l: seq<Record>, keys: seq<string>, m: nat, j: string, tag: string)
    requires Lists(keys, ReceiveAll(d, l).tags) && m <= |keys|
    ensures var t := Finish(EditedDiscarding(d, l, keys, m, j, tag));
            && ((forall i :: TagOf(t, i) == ListTag(l, i)) <==> (j in keys[m..] && !Mentions(l, j)) || tag == ListTag(l, j))
            && (!(j in keys[m..] && !Mentions(l, j)) ==> TagOf(t, j) == tag)
            && !t.needs && !t.timer && t.dirty == {}
  {
    var a := DiscardAll(ReceiveAll(d, l), keys[..m], l);
    var b := SetTag(a, j, tag);
    var t := Finish(EditedDiscarding(d, l, keys, m, j, tag));
    assert keys == keys[..m] + keys[m..];
    hide DiscardAll;
    hide SetTag;
    forall i ensures i != j ==> TagOf(t, i) == ListTag(l, i)
      ensures i == j ==> TagOf(t, i) == if j in keys[m..] && !Mentions(l, j) then "" else tag
    {
      Received(d, l, i);
      Discarded(ReceiveAll(d, l), keys[..m], l, i);
      TagAfter(a, j, tag, i);
      Discarded(b, keys[m..], l, i);
    }
  }
}
