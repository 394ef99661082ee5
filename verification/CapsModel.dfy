/** Entity capabilities: who advertises what, who is listed under which advertisement, and the
    registry of what the advertisements mean. */
module CapsModel {
  import opened Lists

  datatype Spec = Spec(node: string, ver: string, ext: string)
  const NO_SPEC := Spec("", "", "")

  /** The pieces between separators, empty ones left out. */
  function Split(s: string, sep: char): (r: seq<string>)
    ensures forall p <- r :: p != "" && sep !in p
    decreases |s|
  {
    if s == "" then []
    else
      var w := FirstWord(s, sep);
      var rest := if |w| == |s| then [] else Split(s[|w| + 1..], sep);
      if w == "" then rest else [w] + rest
  }

  function FirstWord(s: string, sep: char): (w: string)
    ensures |w| <= |s| && w == s[..|w|] && sep !in w && (|w| < |s| ==> s[|w|] == sep)
  {
    if s == "" || s[0] == sep then "" else [s[0]] + FirstWord(s[1..], sep)
  }

  /** The simple specifications a full one stands for. */
  function Flatten(c: Spec): seq<Spec> {
    var exts := Split(c.ext, ' ');
    [Spec(c.node, c.ver, c.ver)] + seq(|exts|, i requires 0 <= i < |exts| => Spec(c.node, c.ver, exts[i]))
  }

  datatype Request = Request(jid: string, node: string)

  /** `changed` lists the addresses whose features were reported as changed. */
  datatype Caps = Caps(specs: map<string, Spec>, jids: map<Spec, seq<string>>, info: map<Spec, seq<string>>,
                       changed: seq<string>, requests: seq<Request>)

  function SpecOf(specs: map<string, Spec>, j: string): Spec { if j in specs then specs[j] else NO_SPEC }
  function Listed(jids: map<Spec, seq<string>>, s: Spec): seq<string> { if s in jids then jids[s] else [] }
  function Meaning(info: map<Spec, seq<string>>, s: Spec): seq<string> { if s in info then info[s] else [] }

  // ---- small steps --------------------------------------------------------------------------------

  function Forget(jids: map<Spec, seq<string>>, ss: seq<Spec>, j: string): map<Spec, seq<string>> {
    if ss == [] then jids
    else
      var m, s := Forget(jids, ss[..|ss| - 1], j), ss[|ss| - 1];
      if s == NO_SPEC then m else m[s := Without(Listed(m, s), j)]
  }

  function Enroll(jids: map<Spec, seq<string>>, ss: seq<Spec>, j: string): map<Spec, seq<string>> {
    if ss == [] then jids
    else
      var m, s := Enroll(jids, ss[..|ss| - 1], j), ss[|ss| - 1];
      m[s := if j in Listed(m, s) then Listed(m, s) else Listed(m, s) + [j]]
  }

  function PushAll(jids: map<Spec, seq<string>>, ss: seq<Spec>, j: string): map<Spec, seq<string>> {
    if ss == [] then jids
    else
      var m, s := PushAll(jids, ss[..|ss| - 1], j), ss[|ss| - 1];
      m[s := Listed(m, s) + [j]]
  }

  function Requests(jids: map<Spec, seq<string>>, info: map<Spec, seq<string>>, ss: seq<Spec>, j: string, node: string): seq<Request> {
    if ss == [] then []
    else
      var rest, s := Requests(jids, info, ss[..|ss| - 1], j, node), ss[|ss| - 1];
      if s !in info && |Listed(jids, s)| == 1 then rest + [Request(j, node + "#" + s.ext)] else rest
  }

  // ---- events -------------------------------------------------------------------------------------

  /** `own` tells that the address is the client's own. Looking a specification up leaves a default one
      behind for an address that had none. */
  function UpdateCaps(st: Caps, own: bool, enabled: bool, j: string, node: string, ver: string, ext: string): Caps {
    if own then st
    else
      var c := Spec(node, ver, ext);
      var was := SpecOf(st.specs, j);
      if was != c then
        var without := Forget(st.jids, Flatten(was), j);
        if node != "" && ver != "" then
          var jids := Enroll(without, Flatten(c), j);
          st.(specs := st.specs[j := c], jids := jids, changed := st.changed + [j],
              requests := st.requests + if enabled then Requests(jids, st.info, Flatten(c), j, node) else [])
        else st.(specs := st.specs - {j}, jids := without)
      else st.(specs := st.specs[j := was], jids := PushAll(st.jids, Flatten(c), j))
  }

  function DisableCaps(st: Caps, j: string): Caps {
    if j !in st.specs then st
    else st.(specs := st.specs - {j}, jids := Forget(st.jids, Flatten(st.specs[j]), j), changed := st.changed + [j])
  }

  /** A specification is registered once and for all; everyone listed under it is reported. */
  function Register(st: Caps, s: Spec, features: seq<string>): Caps {
    if s in st.info then st
    else st.(info := st.info[s := features], changed := st.changed + Listed(st.jids, s))
  }

  /** `tokens` are the parts of the node the reply is about, of which the first two count. */
  function DiscoFinished(st: Caps, j: string, tokens: seq<string>, success: bool, features: seq<string>): Caps
    requires |tokens| >= 2
  {
    var c := SpecOf(st.specs, j);
    var t := st.(specs := st.specs[j := c]);
    if c.node == tokens[0] && success then Register(t, Spec(tokens[0], c.ver, tokens[1]), features) else t
  }

  function Features(st: Caps, j: string): seq<string> {
    if j in st.specs then Gather(st.info, Flatten(st.specs[j])) else []
  }

  function Gather(info: map<Spec, seq<string>>, ss: seq<Spec>): seq<string> {
    if ss == [] then [] else Gather(info, ss[..|ss| - 1]) + Meaning(info, ss[|ss| - 1])
  }

  const INITIAL := Caps(map[], map[], map[], [], [])
}
