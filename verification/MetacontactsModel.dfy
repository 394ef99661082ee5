/** Integers written in decimal and read back, as the text library does it. */
module Decimal {
  const INT_MIN := -0x8000_0000
  const INT_MAX := 0x7FFF_FFFF

  function Digits(n: nat): (s: string)
    ensures AllDigits(s)
  {
    if n < 10 then [(n + '0' as int) as char] else Digits(n / 10) + [(n % 10 + '0' as int) as char]
  }

  function Number(n: int): string { if n < 0 then "-" + Digits(-n) else Digits(n) }

  function Value(s: string): nat
    requires forall i :: 0 <= i < |s| ==> '0' <= s[i] <= '9'
  {
    if s == "" then 0 else 10 * Value(s[..|s| - 1]) + (s[|s| - 1] as int - '0' as int)
  }

  predicate AllDigits(s: string) { s != "" && forall i :: 0 <= i < |s| ==> '0' <= s[i] <= '9' }

  /** Anything but a number of 32 bits reads as 0. */
  function ToInt(s: string): int {
    var n := if AllDigits(s) then Value(s) else if s != "" && s[0] == '-' && AllDigits(s[1..]) then -(Value(s[1..]) as int) else 0;
    if INT_MIN <= n <= INT_MAX then n else 0
  }

  lemma {:induction false} ValueOfDigits(n: nat)
    ensures Value(Digits(n)) == n
  {
    var s := Digits(n);
    if n < 10 {
      assert s[..0] == "";
    } else {
      assert s[..|s| - 1] == Digits(n / 10);
      ValueOfDigits(n / 10);
    }
  }

  lemma NumberBack(n: int)
    requires INT_MIN <= n <= INT_MAX
    ensures ToInt(Number(n)) == n
  {
    ValueOfDigits(if n < 0 then -n else n);
    if n < 0 {
      assert Number(n)[1..] == Digits(-n);
      assert !AllDigits(Number(n)) by { assert Number(n)[0] == '-'; }
    }
  }
}

/** The directory of metacontact tags and orders of an account, kept in step with the server's. */
module MetacontactsModel {
  import opened Decimal

  datatype Option = None | Some(text: string)

  /** One record of the list on the server. */
  datatype Record = Record(jid: Option, tag: string, order: string)

  datatype Signal = Changed(jid: string, tag: string, order: int)

  datatype Dir = Dir(tags: map<string, string>, orders: map<string, int>, needs: bool, timer: bool, dirty: set<string>,
                     signals: seq<Signal>, sent: seq<seq<Record>>)

  const INITIAL := Dir(map[], map[], false, false, {}, [], [])

  /** What anyone asking for a tag or an order is told. */
  function TagOf(d: Dir, j: string): string { if j in d.tags then d.tags[j] else "" }
  function OrderOf(d: Dir, j: string): int { if j in d.orders then d.orders[j] else 0 }

  // ---- small steps: a look-up leaves the default behind -------------------------------------------

  function TouchTag(d: Dir, j: string): Dir { d.(tags := d.tags[j := TagOf(d, j)]) }
  function TouchOrder(d: Dir, j: string): Dir { d.(orders := d.orders[j := OrderOf(d, j)]) }
  function PutTag(d: Dir, j: string, tag: string): Dir { d.(tags := if tag == "" then d.tags - {j} else d.tags[j := tag]) }
  function PutOrder(d: Dir, j: string, n: int): Dir { d.(orders := if n <= 0 then d.orders - {j} else d.orders[j := n]) }
  function SetNeeds(d: Dir, flag: bool): Dir { d.(needs := flag, timer := flag) }
  function Emit(d: Dir, j: string, tag: string, n: int): Dir { d.(signals := d.signals + [Changed(j, tag, n)]) }
  function Edited(d: Dir, j: string): Dir { SetNeeds(d, true).(dirty := d.dirty + {j}) }

  // ---- local edits ----------------------------------------------------------------------------------

  function SetTag(d: Dir, j: string, tag: string): Dir {
    if tag == TagOf(d, j) then TouchTag(d, j)
    else Emit(TouchOrder(Edited(PutTag(d, j, tag), j), j), j, tag, OrderOf(d, j))
  }

  function SetOrder(d: Dir, j: string, n: int): Dir {
    if n == OrderOf(d, j) then TouchOrder(d, j)
    else Emit(TouchTag(Edited(PutOrder(d, j, n), j), j), j, TagOf(d, j), n)
  }

  function SetTagAndOrder(d: Dir, j: string, tag: string, n: int): Dir {
    var t := if tag == TagOf(d, j) then TouchTag(d, j) else PutTag(d, j, tag);
    var u := if n == OrderOf(d, j) then TouchOrder(t, j) else PutOrder(t, j, n);
    if tag == TagOf(d, j) && n == OrderOf(d, j) then u else Emit(Edited(u, j), j, tag, n)
  }

  function Clear(d: Dir): Dir { SetNeeds(d.(tags := map[], orders := map[], dirty := {}), false) }

  // ---- saving ---------------------------------------------------------------------------------------

  ghost predicate Lists(keys: seq<string>, tags: map<string, string>) {
    (forall j :: j in keys <==> j in tags) && forall i, k :: 0 <= i < k < |keys| ==> keys[i] != keys[k]
  }

  function RecordOf(d: Dir, j: string): Record {
    Record(Some(j), TagOf(d, j), if j in d.orders then Number(d.orders[j]) else "")
  }

  function SaveList(d: Dir, keys: seq<string>): (l: seq<Record>)
    ensures |l| == |keys| && forall i :: 0 <= i < |keys| ==> l[i] == RecordOf(d, keys[i])
  {
    seq(|keys|, i requires 0 <= i < |keys| => RecordOf(d, keys[i]))
  }

  function Save(d: Dir, keys: seq<string>): Dir { SetNeeds(d.(sent := d.sent + [SaveList(d, keys)]), false) }

  function SaveIfNeeded(d: Dir, keys: seq<string>): Dir { if d.needs then Save(d, keys) else d }

  /** The timer runs once, so it is off when its signal comes. */
  function TimerFires(d: Dir, keys: seq<string>): Dir { SaveIfNeeded(d.(timer := false), keys) }

  function SaveFinished(d: Dir, success: bool): Dir { if success then d.(dirty := {}) else d }

  // ---- downloading ----------------------------------------------------------------------------------

  function Receive(d: Dir, r: Record): Dir {
    if r.jid.None? then d
    else
      var j, n := r.jid.text, ToInt(r.order);
      var t := d.(tags := d.tags[j := r.tag], orders := d.orders[j := n]);
      if r.tag == TagOf(d, j) && n == OrderOf(d, j) then t else Emit(t, j, r.tag, n)
  }

  function ReceiveAll(d: Dir, l: seq<Record>): Dir {
    if l == [] then d else Receive(ReceiveAll(d, l[..|l| - 1]), l[|l| - 1])
  }

  predicate Mentions(l: seq<Record>, j: string) { exists i :: 0 <= i < |l| && l[i].jid == Some(j) }

  function Discard(d: Dir, j: string): Dir { Emit(d.(tags := d.tags - {j}, orders := d.orders - {j}), j, "", 0) }

  function DiscardAll(d: Dir, keys: seq<string>, l: seq<Record>): Dir {
    if keys == [] then d
    else
      var t, j := DiscardAll(d, keys[..|keys| - 1], l), keys[|keys| - 1];
      if Mentions(l, j) then t else Discard(t, j)
  }

  function Finish(d: Dir): Dir { SetNeeds(d, false).(dirty := {}) }

  /** `keys` are the addresses with a tag entry once the list has been taken over. */
  function Download(d: Dir, success: bool, l: seq<Record>, keys: seq<string>): Dir {
    if !success then d else Finish(DiscardAll(ReceiveAll(d, l), keys, l))
  }
}
