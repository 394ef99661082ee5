/** The directory as an object whose maps, flags and timer its methods change. */
module MetacontactsDirectory {
  import opened Decimal
  import M = MetacontactsModel

  class MetacontactsDirectory {
    var tagsByJID: map<string, string>
    var orderByJID: map<string, int>
    var needsToSave: bool
    var saveTimerActive: bool
    var dirtyJIDs: set<string>
    var signals: seq<M.Signal>
    var sent: seq<seq<M.Record>>

    function View(): M.Dir
      reads this
    {
      M.Dir(tagsByJID, orderByJID, needsToSave, saveTimerActive, dirtyJIDs, signals, sent)
    }

    constructor ()
      ensures View() == M.INITIAL
    {
      tagsByJID, orderByJID, needsToSave, saveTimerActive, dirtyJIDs, signals, sent := map[], map[], false, false, {}, [], [];
    }

    /** Reading inserts the default under a missing address. */
    method TagForJID(jid: string) returns (tag: string)
      modifies this`tagsByJID
      ensures tag == M.TagOf(old(View()), jid) && View() == M.TouchTag(old(View()), jid)
    {
      if jid !in tagsByJID {
        tagsByJID := tagsByJID[jid := ""];
      }
      tag := tagsByJID[jid];
      assert tagsByJID == old(tagsByJID)[jid := tag];
    }

    method OrderForJID(jid: string) returns (order: int)
      modifies this`orderByJID
      ensures order == M.OrderOf(old(View()), jid) && View() == M.TouchOrder(old(View()), jid)
    {
      if jid !in orderByJID {
        orderByJID := orderByJID[jid := 0];
      }
      order := orderByJID[jid];
      assert orderByJID == old(orderByJID)[jid := order];
    }

    method SetNeedsToSaveToServer(flag: bool)
      modifies this`needsToSave, this`saveTimerActive
      ensures View() == M.SetNeeds(old(View()), flag)
    {
      needsToSave := flag;
      if saveTimerActive {
        saveTimerActive := false;
      }
      if needsToSave {
        saveTimerActive := true;
      }
    }

    method StoreTag(jid: string, tag: string)
      modifies this`tagsByJID
      ensures View() == M.PutTag(old(View()), jid, tag)
    {
      if tag == "" {
        tagsByJID := tagsByJID - {jid};
      } else {
        tagsByJID := tagsByJID[jid := tag];
      }
    }

    method StoreOrder(jid: string, order: int)
      modifies this`orderByJID
      ensures View() == M.PutOrder(old(View()), jid, order)
    {
      if order <= 0 {
        orderByJID := orderByJID - {jid};
      } else {
        orderByJID := orderByJID[jid := order];
      }
    }

    method SetTagForJID(jid: string, tag: string)
      modifies this
      ensures View() == M.SetTag(old(View()), jid, tag)
    {
      var current := TagForJID(jid);
      if tag != current {
        StoreTag(jid, tag);
        assert tagsByJID == M.PutTag(old(View()), jid, tag).tags;
        SetNeedsToSaveToServer(true);
        dirtyJIDs := dirtyJIDs + {jid};
        var order := OrderForJID(jid);
        signals := signals + [M.Changed(jid, tag, order)];
      }
    }

    method SetOrderForJID(jid: string, order: int)
      modifies this
      ensures View() == M.SetOrder(old(View()), jid, order)
    {
      var current := OrderForJID(jid);
      if order != current {
        StoreOrder(jid, order);
        assert orderByJID == M.PutOrder(old(View()), jid, order).orders;
        SetNeedsToSaveToServer(true);
        dirtyJIDs := dirtyJIDs + {jid};
        var tag := TagForJID(jid);
        signals := signals + [M.Changed(jid, tag, order)];
      }
    }

    method ChangeTag(jid: string, tag: string) returns (changed: bool)
      modifies this`tagsByJID
      ensures var d := old(View()); changed == (tag != M.TagOf(d, jid)) && View() == if changed then M.PutTag(d, jid, tag) else M.TouchTag(d, jid)
    {
      var current := TagForJID(jid);
      changed := tag != current;
      if changed {
        StoreTag(jid, tag);
        assert tagsByJID == M.PutTag(old(View()), jid, tag).tags;
      }
    }

    method ChangeOrder(jid: string, order: int) returns (changed: bool)
      modifies this`orderByJID
      ensures var d := old(View());
              changed == (order != M.OrderOf(d, jid)) && View() == if changed then M.PutOrder(d, jid, order) else M.TouchOrder(d, jid)
    {
      var current := OrderForJID(jid);
      changed := order != current;
      if changed {
        StoreOrder(jid, order);
        assert orderByJID == M.PutOrder(old(View()), jid, order).orders;
      }
    }

    method SetTagAndOrderForJID(jid: string, tag: string, order: int)
      modifies this
      ensures View() == M.SetTagAndOrder(old(View()), jid, tag, order)
    {
      var didChange := false;
      var tagChanged := ChangeTag(jid, tag);
      if tagChanged {
        didChange := true;
      }
      var orderChanged := ChangeOrder(jid, order);
      if orderChanged {
        didChange := true;
      }
      if didChange {
        SetNeedsToSaveToServer(true);
        dirtyJIDs := dirtyJIDs + {jid};
        signals := signals + [M.Changed(jid, tag, order)];
      }
    }

    method Clear()
      modifies this
      ensures View() == M.Clear(old(View()))
    {
      tagsByJID := map[];
      orderByJID := map[];
      SetNeedsToSaveToServer(false);
      dirtyJIDs := {};
    }

    /** The map's keys, each once. */
    static method Keys(m: map<string, string>) returns (keys: seq<string>)
      ensures M.Lists(keys, m)
    {
      keys := [];
      var rest := m.Keys;
      while rest != {}
        invariant (forall j <- rest :: j in m) && (forall j <- keys :: j in m && j !in rest)
        invariant forall j <- m :: j in rest || j in keys
        invariant forall i, k :: 0 <= i < k < |keys| ==> keys[i] != keys[k]
        decreases |rest|
      {
        assert (forall j: string :: j !in rest) ==> rest == {};
        var j :| j in rest;
        keys := keys + [j];
        rest := rest - {j};
      }
    }

    method SaveToServer() returns (ghost keys: seq<string>)
      modifies this
      ensures M.Lists(keys, old(tagsByJID)) && View() == M.Save(old(View()), keys)
    {
      var all := Keys(tagsByJID);
      keys := all;
      var records: seq<M.Record> := [];
      for i := 0 to |all|
        invariant records == M.SaveList(View(), all)[..i]
        invariant View() == old(View())
      {
        assert all[i] in all;
        var order := if all[i] in orderByJID then Number(orderByJID[all[i]]) else "";
        records := records + [M.Record(M.Some(all[i]), tagsByJID[all[i]], order)];
      }
      assert records == M.SaveList(View(), all);
      sent := sent + [records];
      SetNeedsToSaveToServer(false);
    }

    method SaveTimerTimedOut() returns (ghost keys: seq<string>)
      requires saveTimerActive
      modifies this
      ensures M.Lists(keys, old(tagsByJID)) && View() == M.TimerFires(old(View()), keys)
    {
      saveTimerActive := false;
      if needsToSave {
        keys := SaveToServer();
      } else {
        var all := Keys(tagsByJID);
        keys := all;
      }
    }

    method FinishedSaveToServer(success: bool)
      modifies this`dirtyJIDs
      ensures View() == M.SaveFinished(old(View()), success)
    {
      if success {
        dirtyJIDs := {};
      }
    }

    method FinishedUpdateFromServer(success: bool, records: seq<M.Record>) returns (ghost keys: seq<string>)
      modifies this
      ensures success ==> M.Lists(keys, M.ReceiveAll(old(View()), records).tags)
      ensures View() == M.Download(old(View()), success, records, keys)
    {
      keys := [];
      if success {
        var listed := ReceiveAll(records);
        var all := Keys(tagsByJID);
        keys := all;
        DiscardAll(all, records, listed);
        SetNeedsToSaveToServer(false);
        dirtyJIDs := {};
      }
    }

    /** Takes over added and changed records, and collects the addresses they are about. */
    method ReceiveAll(records: seq<M.Record>) returns (listed: set<string>)
      modifies this`tagsByJID, this`orderByJID, this`signals
      ensures View() == M.ReceiveAll(old(View()), records)
      ensures forall j :: j in listed <==> M.Mentions(records, j)
    {
      listed := {};
      assert records[..0] == [];
      for i := 0 to |records|
        invariant View() == M.ReceiveAll(old(View()), records[..i])
        invariant forall j :: j in listed <==> M.Mentions(records[..i], j)
      {
        assert records[..i + 1][..i] == records[..i];
        MentionsNext(records, i);
        if records[i].jid.Some? {
          listed := listed + {records[i].jid.text};
          Receive(records[i]);
        }
      }
      assert records[..|records|] == records;
    }

    static lemma MentionsNext(records: seq<M.Record>, i: nat)
      requires i < |records|
      ensures forall j :: M.Mentions(records[..i + 1], j) <==> M.Mentions(records[..i], j) || records[i].jid == M.Some(j)
    {
      forall j ensures M.Mentions(records[..i + 1], j) <==> M.Mentions(records[..i], j) || records[i].jid == M.Some(j) {
        if M.Mentions(records[..i], j) {
          var k :| 0 <= k < i && records[..i][k].jid == M.Some(j);
          assert records[..i + 1][k].jid == M.Some(j);
        }
        if records[i].jid == M.Some(j) {
          assert records[..i + 1][i].jid == M.Some(j);
        }
        if M.Mentions(records[..i + 1], j) {
          var k :| 0 <= k < i + 1 && records[..i + 1][k].jid == M.Some(j);
          if k < i {
            assert records[..i][k].jid == M.Some(j);
          }
        }
      }
    }

    method Receive(r: M.Record)
      requires r.jid.Some?
      modifies this`tagsByJID, this`orderByJID, this`signals
      ensures View() == M.Receive(old(View()), r)
    {
      hide ToInt;
      var jid, didChange := r.jid.text, false;
      var tag := TagForJID(jid);
      if r.tag != tag {
        tagsByJID := tagsByJID[jid := r.tag];
        didChange := true;
      }
      assert tagsByJID == old(tagsByJID)[jid := r.tag];
      var order := OrderForJID(jid);
      if ToInt(r.order) != order {
        orderByJID := orderByJID[jid := ToInt(r.order)];
        didChange := true;
      }
      assert orderByJID == old(orderByJID)[jid := ToInt(r.order)];
      if didChange {
        signals := signals + [M.Changed(jid, tagsByJID[jid], orderByJID[jid])];
      }
    }

    method DiscardAll(keys: seq<string>, records: seq<M.Record>, listed: set<string>)
      requires forall j :: j in listed <==> M.Mentions(records, j)
      modifies this`tagsByJID, this`orderByJID, this`signals
      ensures View() == M.DiscardAll(old(View()), keys, records)
    {
      assert keys[..0] == [];
      for i := 0 to |keys|
        invariant View() == M.DiscardAll(old(View()), keys[..i], records)
      {
        assert keys[..i + 1][..i] == keys[..i];
        if keys[i] !in listed {
          tagsByJID := tagsByJID - {keys[i]};
          orderByJID := orderByJID - {keys[i]};
          signals := signals + [M.Changed(keys[i], "", 0)];
        }
      }
      assert keys[..|keys|] == keys;
    }
  }
}
