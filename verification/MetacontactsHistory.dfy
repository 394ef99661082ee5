/** The tags and orders of the metacontacts directory as what was said of them last. */
module MetacontactsHistory {
  import opened Decimal
  import opened MetacontactsModel
  import opened MetacontactsProperties
  import opened MetacontactsSaves

  /** The tag last said of the address: set by hand, in a list taken over, which says none of addresses not in it,
      or lost by clearing. */
  function TagSaid(events: seq<Event>, j: string): string {
    if events == [] then "" else NextTag(TagSaid(events[..|events| - 1], j), events[|events| - 1], j)
  }

  function NextTag(before: string, ev: Event, j: string): string {
    if (ev.TagSet? || ev.BothSet?) && ev.jid == j then ev.tag
    else if ev.Downloaded? && ev.success then ListTag(ev.records, j)
    else if ev.Cleared? then ""
    else before
  }

  lemma TagNext(d: Dir, ev: Event, j: string)
    requires Legal(d, ev)
    ensures TagOf(Step(d, ev), j) == NextTag(TagOf(d, j), ev, j)
  {
    hide Download;
    hide SetOrder;
    hide SetTagAndOrder;
    hide Save;
    match ev
    case TagSet(k, tag) => TagAfter(d, k, tag, j);
    case OrderSet(k, n) => OrderKeepsTag(d, k, n, j);
    case BothSet(k, tag, n) => BothAfter(d, k, tag, n, j);
    case Saved(keys) => SaveKeeps(d, keys, j);
    case TimedOut(keys) => SaveKeeps(d.(timer := false), keys, j);
    case SaveReply(success) =>
    case Downloaded(success, l, keys) =>
      if success {
        DownloadTakesOver(d, l, keys, j);
      } else {
        NotTaken(d, l, keys);
      }
    case Cleared =>
  }

  lemma OrderKeepsTag(d: Dir, k: string, n: int, j: string)
    ensures TagOf(SetOrder(d, k, n), j) == TagOf(d, j)
  {
  }

  lemma BothAfter(d: Dir, k: string, tag: string, n: int, j: string)
    ensures TagOf(SetTagAndOrder(d, k, tag, n), j) == if k == j then tag else TagOf(d, j)
  {
    var t := if tag == TagOf(d, k) then TouchTag(d, k) else PutTag(d, k, tag);
    assert TagOf(t, j) == if k == j then tag else TagOf(d, j);
    assert SetTagAndOrder(d, k, tag, n).tags == t.tags;
  }

  lemma SaveKeeps(d: Dir, keys: seq<string>, j: string)
    ensures TagOf(Save(d, keys), j) == TagOf(d, j)
  {
  }

  lemma NotTaken(d: Dir, l: seq<Record>, keys: seq<string>)
    ensures Download(d, false, l, keys) == d
  {
  }

  /** After every run anyone asking is told the tag last said of the address. */
  lemma {:induction false} TagsAsSaid(dirs: seq<Dir>, lasts: seq<Dir>, events: seq<Event>, j: string)
    requires IsRun(dirs, lasts, events)
    ensures TagOf(dirs[|events|], j) == TagSaid(events, j)
  {
    hide Step;
    if events != [] {
      var n := |events| - 1;
      TagsAsSaid(dirs[..n + 1], lasts[..n + 1], events[..n], j);
      TagNext(dirs[n], events[n], j);
    }
  }

  /** An order set by hand is told if it is positive or was told before, and none otherwise. A list taken over says the
      orders in it and none for the other addresses in the directory of tags; clearing says none. */
  lemma OrderNext(d: Dir, ev: Event, j: string)
    requires Legal(d, ev)
    ensures var was, now := OrderOf(d, j), OrderOf(Step(d, ev), j);
            if (ev.OrderSet? || ev.BothSet?) && ev.jid == j then now == (if ev.order > 0 || ev.order == was then ev.order else 0)
            else if ev.Downloaded? && ev.success then
              now == (if Last(ev.records, j) != -1 then ToInt(ev.records[Last(ev.records, j)].order) else if j in d.tags then 0 else was)
            else now == if ev.Cleared? then 0 else was
  {
    hide Download;
    hide SetTag;
    hide SetOrder;
    hide SetTagAndOrder;
    hide Save;
    hide ToInt;
    match ev
    case TagSet(k, tag) => TagKeepsOrder(d, k, tag, j);
    case OrderSet(k, n) => OrderAfter(d, k, n, j);
    case BothSet(k, tag, n) => BothOrder(d, k, tag, n, j);
    case Saved(keys) => SaveKeepsOrder(d, keys, j);
    case TimedOut(keys) => SaveKeepsOrder(d.(timer := false), keys, j);
    case SaveReply(success) =>
    case Downloaded(success, l, keys) =>
      if success {
        DownloadedOrder(d, l, keys, j);
      } else {
        NotTaken(d, l, keys);
      }
    case Cleared =>
  }

  lemma TagKeepsOrder(d: Dir, k: string, tag: string, j: string)
    ensures OrderOf(SetTag(d, k, tag), j) == OrderOf(d, j)
  {
  }

  lemma OrderAfter(d: Dir, k: string, n: int, j: string)
    ensures OrderOf(SetOrder(d, k, n), j) == if k != j then OrderOf(d, j) else if n > 0 || n == OrderOf(d, j) then n else 0
  {
  }

  lemma BothOrder(d: Dir, k: string, tag: string, n: int, j: string)
    ensures OrderOf(SetTagAndOrder(d, k, tag, n), j) == if k != j then OrderOf(d, j) else if n > 0 || n == OrderOf(d, j) then n else 0
  {
  }

  lemma SaveKeepsOrder(d: Dir, keys: seq<string>, j: string)
    ensures OrderOf(Save(d, keys), j) == OrderOf(d, j)
  {
  }

  lemma DownloadedOrder(d: Dir, l: seq<Record>, keys: seq<string>, j: string)
    requires Lists(keys, ReceiveAll(d, l).tags)
    ensures OrderOf(Download(d, true, l, keys), j) ==
            if Last(l, j) != -1 then ToInt(l[Last(l, j)].order) else if j in d.tags then 0 else OrderOf(d, j)
  {
    hide ToInt;
    Received(d, l, j);
    Discarded(ReceiveAll(d, l), keys, l, j);
  }

  /** What an edit by hand announces. */
  function Announcement(d: Dir, ev: Event): Signal
    requires Edits(d, ev)
  {
    match ev
    case TagSet(j, tag) => Changed(j, tag, OrderOf(d, j))
    case OrderSet(j, n) => Changed(j, TagOf(d, j), n)
    case BothSet(j, tag, n) => Changed(j, tag, n)
  }

  /** Exactly the edits that change something are announced, each once, and nothing but saving sends anything. */
  lemma EditsAnnounced(d: Dir, ev: Event)
    requires Legal(d, ev) && !ev.Downloaded?
    ensures Step(d, ev).signals == d.signals + if Edits(d, ev) then [Announcement(d, ev)] else []
    ensures Sends(d, ev) || Step(d, ev).sent == d.sent
  {
    assert d.signals + [] == d.signals;
  }

  /** Besides tags and orders, which addresses the directory lists: a look-up leaves a default behind, a tag or order
      given up or set to none does not. */
  lemma KeysAfterEdit(d: Dir, k: string, tag: string, n: int, j: string)
    ensures var t := SetTag(d, k, tag);
            && (j in t.tags <==> if j == k then tag != "" || TagOf(d, j) == "" else j in d.tags)
            && (j in t.orders <==> j in d.orders || (j == k && tag != TagOf(d, j)))
    ensures var t := SetOrder(d, k, n);
            && (j in t.orders <==> if j == k then n > 0 || n == OrderOf(d, j) else j in d.orders)
            && (j in t.tags <==> j in d.tags || (j == k && n != OrderOf(d, j)))
    ensures var t := SetTagAndOrder(d, k, tag, n);
            && (j in t.tags <==> if j == k then tag != "" || TagOf(d, j) == "" else j in d.tags)
            && (j in t.orders <==> if j == k then n > 0 || n == OrderOf(d, j) else j in d.orders)
  {
    hide SetTag;
    hide SetOrder;
    hide SetTagAndOrder;
    KeysAfterTag(d, k, tag, j);
    KeysAfterOrder(d, k, n, j);
    KeysAfterBoth(d, k, tag, n, j);
  }

  lemma KeysAfterTag(d: Dir, k: string, tag: string, j: string)
    ensures var t := SetTag(d, k, tag);
            && (j in t.tags <==> if j == k then tag != "" || TagOf(d, j) == "" else j in d.tags)
            && (j in t.orders <==> j in d.orders || (j == k && tag != TagOf(d, j)))
  {
  }

  lemma KeysAfterOrder(d: Dir, k: string, n: int, j: string)
    ensures var t := SetOrder(d, k, n);
            && (j in t.orders <==> if j == k then n > 0 || n == OrderOf(d, j) else j in d.orders)
            && (j in t.tags <==> j in d.tags || (j == k && n != OrderOf(d, j)))
  {
  }

  lemma KeysAfterBoth(d: Dir, k: string, tag: string, n: int, j: string)
    ensures var t := SetTagAndOrder(d, k, tag, n);
            && (j in t.tags <==> if j == k then tag != "" || TagOf(d, j) == "" else j in d.tags)
            && (j in t.orders <==> if j == k then n > 0 || n == OrderOf(d, j) else j in d.orders)
  {
    var t := if tag == TagOf(d, k) then TouchTag(d, k) else PutTag(d, k, tag);
    var u := if n == OrderOf(d, k) then TouchOrder(t, k) else PutOrder(t, k, n);
    assert SetTagAndOrder(d, k, tag, n).tags == t.tags && SetTagAndOrder(d, k, tag, n).orders == u.orders;
  }

  lemma {:induction false} OrdersDiscarded(d: Dir, keys: seq<string>, l: seq<Record>, j: string)
    ensures var t := DiscardAll(d, keys, l);
            && (j in t.tags <==> j in d.tags && (j in keys ==> Mentions(l, j)))
            && (j in t.orders <==> j in d.orders && (j in keys ==> Mentions(l, j)))
  {
    if keys != [] {
      assert keys == keys[..|keys| - 1] + [keys[|keys| - 1]];
      OrdersDiscarded(d, keys[..|keys| - 1], l, j);
    }
  }

  /** After a list was taken over exactly the addresses in it have an entry in the directory of tags. */
  lemma DownloadedKeys(d: Dir, l: seq<Record>, keys: seq<string>, j: string)
    requires Lists(keys, ReceiveAll(d, l).tags)
    ensures j in Download(d, true, l, keys).tags <==> Mentions(l, j)
  {
    Received(d, l, j);
    OrdersDiscarded(ReceiveAll(d, l), keys, l, j);
  }

  /** An address counts as edited from an edit that changes something until a save succeeds, a list is taken over or
      the directory is cleared. */
  lemma DirtyNext(d: Dir, ev: Event, j: string)
    requires Legal(d, ev)
    ensures j in Step(d, ev).dirty <==>
              (Edits(d, ev) && ev.jid == j)
              || (j in d.dirty && !(ev.SaveReply? && ev.success) && !(ev.Downloaded? && ev.success) && !ev.Cleared?)
  {
    hide TagOf;
    hide OrderOf;
    hide ReceiveAll;
    hide DiscardAll;
  }
}
