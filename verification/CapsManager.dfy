/** The capabilities manager of an account and the registry it fills, with the maps they change. */
module CapsManager {
  import opened Lists
  import opened CapsModel

  class CapsRegistry {
    var capsInfo: map<Spec, seq<string>>

    constructor ()
      ensures capsInfo == map[]
    {
      capsInfo := map[];
    }

    /** Keeps the first registration; `registered` tells that this was it. */
    method RegisterCaps(s: Spec, features: seq<string>) returns (registered: bool)
      modifies this
      ensures registered == (s !in old(capsInfo))
      ensures capsInfo == if registered then old(capsInfo)[s := features] else old(capsInfo)
    {
      registered := s !in capsInfo;
      if registered {
        capsInfo := capsInfo[s := features];
      }
    }
  }

  /** The specification's simple ones, in a list appended to one by one. */
  method FlattenSpec(c: Spec) returns (l: seq<Spec>)
    ensures l == Flatten(c)
  {
    l := [Spec(c.node, c.ver, c.ver)];
    var exts := Split(c.ext, ' ');
    for i := 0 to |exts|
      invariant l == Flatten(c)[..i + 1]
    {
      l := l + [Spec(c.node, c.ver, exts[i])];
    }
  }

  class CapsManager {
    const registry: CapsRegistry
    var isEnabled: bool
    var capsSpecs: map<string, Spec>
    var capsJids: map<Spec, seq<string>>
    var changed: seq<string>
    var requests: seq<Request>

    function View(): Caps
      reads this, registry
    {
      Caps(capsSpecs, capsJids, registry.capsInfo, changed, requests)
    }

    constructor (registry: CapsRegistry)
      ensures this.registry == registry && View() == INITIAL.(info := registry.capsInfo) && isEnabled
    {
      this.registry := registry;
      isEnabled, capsSpecs, capsJids, changed, requests := true, map[], map[], [], [];
    }

    /** Takes the address off the lists of the specifications. */
    method Forget(ss: seq<Spec>, jid: string)
      modifies this`capsJids
      ensures capsJids == CapsModel.Forget(old(capsJids), ss, jid)
    {
      assert ss[..0] == [];
      for n := 0 to |ss|
        invariant capsJids == CapsModel.Forget(old(capsJids), ss[..n], jid)
      {
        assert ss[..n + 1][..n] == ss[..n];
        if ss[n] != NO_SPEC {
          capsJids := capsJids[ss[n] := Without(Listed(capsJids, ss[n]), jid)];
        }
      }
      assert ss[..|ss|] == ss;
    }

    /** Files the address under its new specifications, reports it, and asks what they mean. */
    method Advertise(jid: string, c: Spec, caps: seq<Spec>)
      modifies this
      ensures var st := old(View()); var jids := CapsModel.Enroll(st.jids, caps, jid);
              View() == st.(specs := st.specs[jid := c], jids := jids, changed := st.changed + [jid],
                            requests := st.requests + if isEnabled then Requests(jids, st.info, caps, jid, c.node) else [])
      ensures isEnabled == old(isEnabled)
    {
      hide CapsModel.Enroll;
      hide Requests;
      capsSpecs := capsSpecs[jid := c];
      Enroll(caps, jid);
      changed := changed + [jid];
      if isEnabled {
        Discover(caps, jid, c.node);
      } else {
        assert requests + [] == requests;
      }
    }

    method UpdateCaps(own: bool, jid: string, node: string, ver: string, ext: string)
      modifies this
      ensures View() == CapsModel.UpdateCaps(old(View()), own, isEnabled, jid, node, ver, ext) && isEnabled == old(isEnabled)
    {
      hide CapsModel.Forget;
      hide CapsModel.Enroll;
      hide CapsModel.PushAll;
      hide Requests;
      hide Flatten;
      if own {
        return;
      }
      var c := Spec(node, ver, ext);
      var caps := FlattenSpec(c);
      var was := SpecOf(capsSpecs, jid);
      capsSpecs := capsSpecs[jid := was];
      if was != c {
        var oldCaps := FlattenSpec(was);
        Forget(oldCaps, jid);
        if node != "" && ver != "" {
          Advertise(jid, c, caps);
        } else {
          capsSpecs := capsSpecs - {jid};
          assert capsSpecs == old(capsSpecs) - {jid};
        }
      } else {
        PushAll(caps, jid);
      }
    }

    method Enroll(ss: seq<Spec>, jid: string)
      modifies this`capsJids
      ensures capsJids == CapsModel.Enroll(old(capsJids), ss, jid)
    {
      assert ss[..0] == [];
      for n := 0 to |ss|
        invariant capsJids == CapsModel.Enroll(old(capsJids), ss[..n], jid)
      {
        assert ss[..n + 1][..n] == ss[..n];
        var listed := Listed(capsJids, ss[n]);
        capsJids := capsJids[ss[n] := listed];
        if jid !in listed {
          capsJids := capsJids[ss[n] := listed + [jid]];
        }
      }
      assert ss[..|ss|] == ss;
    }

    method PushAll(ss: seq<Spec>, jid: string)
      modifies this`capsJids
      ensures capsJids == CapsModel.PushAll(old(capsJids), ss, jid)
    {
      assert ss[..0] == [];
      for n := 0 to |ss|
        invariant capsJids == CapsModel.PushAll(old(capsJids), ss[..n], jid)
      {
        assert ss[..n + 1][..n] == ss[..n];
        capsJids := capsJids[ss[n] := Listed(capsJids, ss[n]) + [jid]];
      }
      assert ss[..|ss|] == ss;
    }

    /** Asks about every specification nobody else advertises and nothing is known about. */
    method Discover(ss: seq<Spec>, jid: string, node: string)
      modifies this`requests
      ensures requests == old(requests) + Requests(capsJids, registry.capsInfo, ss, jid, node)
    {
      assert ss[..0] == [];
      for n := 0 to |ss|
        invariant requests == old(requests) + Requests(capsJids, registry.capsInfo, ss[..n], jid, node)
      {
        assert ss[..n + 1][..n] == ss[..n];
        if ss[n] !in registry.capsInfo && |Listed(capsJids, ss[n])| == 1 {
          requests := requests + [Request(jid, node + "#" + ss[n].ext)];
        }
      }
      assert ss[..|ss|] == ss;
    }

    method DisableCaps(jid: string)
      modifies this
      ensures View() == CapsModel.DisableCaps(old(View()), jid) && isEnabled == old(isEnabled)
    {
      if jid in capsSpecs {
        var cs := FlattenSpec(capsSpecs[jid]);
        Forget(cs, jid);
        capsSpecs := capsSpecs - {jid};
        changed := changed + [jid];
      }
    }

    method DiscoFinished(jid: string, replyNode: string, success: bool, features: seq<string>)
      requires |Split(replyNode, '#')| >= 2
      modifies this, registry
      ensures View() == CapsModel.DiscoFinished(old(View()), jid, Split(replyNode, '#'), success, features)
      ensures isEnabled == old(isEnabled)
    {
      var tokens := Split(replyNode, '#');
      var node, ext := tokens[0], tokens[1];
      var jidSpec := SpecOf(capsSpecs, jid);
      capsSpecs := capsSpecs[jid := jidSpec];
      if jidSpec.node == node && success {
        var cs := Spec(node, jidSpec.ver, ext);
        var registered := registry.RegisterCaps(cs, features);
        if registered {
          CapsRegistered(cs);
        }
      }
    }

    /** Reports everyone listed under the specification. */
    method CapsRegistered(cs: Spec)
      modifies this`changed
      ensures changed == old(changed) + Listed(capsJids, cs)
    {
      var listed := Listed(capsJids, cs);
      for n := 0 to |listed|
        invariant changed == old(changed) + listed[..n]
      {
        changed := changed + [listed[n]];
      }
      assert listed[..|listed|] == listed;
    }

    method Features(jid: string) returns (f: seq<string>)
      ensures f == CapsModel.Features(View(), jid)
    {
      f := [];
      if jid in capsSpecs {
        var cs := FlattenSpec(capsSpecs[jid]);
        assert cs[..0] == [];
        for n := 0 to |cs|
          invariant f == Gather(registry.capsInfo, cs[..n])
        {
          assert cs[..n + 1][..n] == cs[..n];
          f := f + Meaning(registry.capsInfo, cs[n]);
        }
        assert cs[..|cs|] == cs;
      }
    }
  }
}
