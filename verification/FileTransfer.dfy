/** Progress steps of a file transfer: sizes cut down to at most 65536 steps by shifting. */
module ProgressSteps {
  const BITS := 64
  const MIN_BITS := 16

  function Pow2(k: nat): (p: nat)
    ensures p > 0
  {
    if k == 0 then 1 else 2 * Pow2(k - 1)
  }

  lemma {:induction false} Pow2Grows(a: nat, b: nat)
    requires a <= b
    ensures Pow2(a) <= Pow2(b)
    decreases b
  {
    if a < b {
      Pow2Grows(a, b - 1);
    }
  }

  lemma Pow2Small()
    ensures Pow2(15) == 0x8000 && Pow2(16) == 0x1_0000 && Pow2(17) == 0x2_0000
  {
    assert Pow2(4) == 16 && Pow2(8) == 16 * Pow2(4) && Pow2(12) == 16 * Pow2(8);
  }

  lemma Pow2Values()
    ensures Pow2(15) == 0x8000 && Pow2(16) == 0x1_0000 && Pow2(31) == 0x8000_0000 && Pow2(46) == 0x4000_0000_0000
    ensures Pow2(63) == 0x8000_0000_0000_0000
  {
    Pow2Small();
    hide Pow2;
    Pow2Sum(15, 16);
    Pow2Sum(31, 15);
    Pow2Sum(46, 17);
  }

  lemma {:induction false} Pow2Sum(a: nat, b: nat)
    ensures Pow2(a + b) == Pow2(a) * Pow2(b)
    decreases b
  {
    if b > 0 {
      Pow2Sum(a, b - 1);
      assert Pow2(a + b) == 2 * Pow2(a + b - 1);
    }
  }

  /** Whole blocks of size `d` in `x`. */
  function Div(x: nat, d: nat): (q: nat)
    requires d > 0
    ensures q * d <= x < q * d + d
  {
    x / d
  }

  function Rem(x: nat, d: nat): (r: nat)
    requires d > 0
    ensures r < d && Div(x, d) * d + r == x
  {
    x - Div(x, d) * d
  }

  lemma {:induction false} MulLess(a: nat, b: nat, d: nat)
    requires a < b
    ensures a * d + d <= b * d
    decreases b
  {
    assert (b - 1) * d + d == b * d;
    if a < b - 1 {
      MulLess(a, b - 1, d);
    }
  }

  /** There is only one way to fit blocks. */
  lemma DivIs(x: nat, q: nat, d: nat)
    requires d > 0 && q * d <= x < q * d + d
    ensures Div(x, d) == q
  {
    hide Div;
    if Div(x, d) < q {
      MulLess(Div(x, d), q, d);
    } else if q < Div(x, d) {
      MulLess(q, Div(x, d), d);
    }
  }

  lemma BelowMultiple(x: nat, n: nat, d: nat)
    requires d > 0
    ensures Div(x, d) < n <==> x < n * d
  {
    hide Div;
    if Div(x, d) < n {
      MulLess(Div(x, d), n, d);
    } else if n < Div(x, d) {
      MulLess(n, Div(x, d), d);
    }
  }

  lemma Monotone(a: nat, b: nat, d: nat)
    requires d > 0 && a <= b
    ensures Div(a, d) <= Div(b, d)
  {
    hide Div;
    BelowMultiple(a, Div(b, d) + 1, d);
    assert (Div(b, d) + 1) * d == Div(b, d) * d + d;
  }

  /** `k` is the shift for the size: the excess of its leading bit over the 16 bits allowed. */
  predicate IsShift(size: nat, k: nat) {
    if k == 0 then size < Pow2(MIN_BITS) else Pow2(k + 15) <= size < Pow2(k + 16)
  }

  /** Looks for the leading bit from the top. Bit tests are on a number that is not negative. */
  method CalcShift(big: nat) returns (k: nat)
    requires big < Pow2(BITS - 1)
    ensures IsShift(big, k) && k <= BITS - MIN_BITS
  {
    hide Div;
    var val := Pow2(BITS - 1);
    var n: nat := BITS - MIN_BITS;
    while n > 0
      invariant val == Pow2(n + 15) && big < 2 * val && n <= BITS - MIN_BITS
    {
      TopBit(big, val);
      if Div(big, val) % 2 == 1 {
        return n;
      }
      assert Pow2(n + 15) == 2 * Pow2(n + 14);
      val := Pow2(n + 14);
      n := n - 1;
    }
    return 0;
  }

  /** The bit of weight `val`, where no higher one is set. */
  lemma TopBit(big: nat, val: nat)
    requires val > 0 && big < 2 * val
    ensures Div(big, val) % 2 == 1 <==> big >= val
  {
    hide Div;
    DivIs(big, if big >= val then 1 else 0, val);
  }

  /** There is just one such shift. */
  lemma ShiftUnique(size: nat, j: nat, k: nat)
    requires IsShift(size, j) && IsShift(size, k)
    ensures j == k
  {
    if j < k {
      Pow2Grows(j + 16, k + 15);
    } else if k < j {
      Pow2Grows(k + 16, j + 15);
    }
  }

  function CalcComplement(big: nat, shift: nat): nat {
    var block := Pow2(shift);
    var rem := Rem(big, block);
    if rem == 0 then 0 else block - rem
  }

  function CalcTotalSteps(big: nat, shift: nat): nat {
    if big < 1 then 0 else Div(big - 1, Pow2(shift)) + 1
  }

  function CalcProgressStep(big: nat, complement: nat, shift: nat): nat {
    Div(big + complement, Pow2(shift))
  }

  /** Size and complement together are exactly all the steps; the complement is less than a block. */
  lemma StepsFill(size: nat, shift: nat)
    ensures size + CalcComplement(size, shift) == CalcTotalSteps(size, shift) * Pow2(shift)
    ensures CalcComplement(size, shift) < Pow2(shift)
  {
    hide Div;
    hide Rem;
    var block := Pow2(shift);
    var q, rem := Div(size, block), Rem(size, block);
    if size > 0 {
      OneBlock(q, block);
      if rem == 0 {
        NotZero(q, block, size);
        DivIs(size - 1, q - 1, block);
      } else {
        DivIs(size - 1, q, block);
      }
    } else {
      DivIs(0, 0, block);
    }
  }

  lemma OneBlock(q: int, block: nat)
    ensures (q - 1) * block == q * block - block && (q + 1) * block == q * block + block
  {
  }

  lemma NotZero(q: nat, block: nat, size: nat)
    requires q * block == size && size > 0
    ensures q > 0
  {
  }

  /** For every size: at most 65536 steps, counted up without ever going back from 0, and the last is
      reached with the last byte and not before. */
  lemma ProgressRight(size: nat, shift: nat, s: nat, t: nat)
    requires IsShift(size, shift) && s <= t <= size
    ensures var c, total := CalcComplement(size, shift), CalcTotalSteps(size, shift);
            && total <= 65536 && (shift > 0 ==> total > 32767)
            && CalcProgressStep(0, c, shift) == 0
            && CalcProgressStep(s, c, shift) <= CalcProgressStep(t, c, shift) <= total
            && (CalcProgressStep(s, c, shift) == total <==> s == size)
  {
    hide Div;
    hide CalcComplement;
    hide CalcTotalSteps;
    var c, total, block := CalcComplement(size, shift), CalcTotalSteps(size, shift), Pow2(shift);
    StepsFill(size, shift);
    Monotone(s + c, t + c, block);
    Monotone(t + c, size + c, block);
    DivIs(size + c, total, block);
    DivIs(c, 0, block);
    BelowMultiple(s + c, total, block);
    StepsBounded(size, shift);
  }

  lemma StepsBounded(size: nat, shift: nat)
    requires IsShift(size, shift)
    ensures CalcTotalSteps(size, shift) <= 65536 && (shift > 0 ==> CalcTotalSteps(size, shift) > 32767)
  {
    hide Div;
    hide Pow2;
    var block := Pow2(shift);
    Pow2Values();
    if size > 0 {
      if shift > 0 {
        Pow2Sum(15, shift);
        Pow2Sum(16, shift);
        assert 15 + shift == shift + 15 && 16 + shift == shift + 16;
        BelowMultiple(size - 1, 65536, block);
        BelowMultiple(size - 1, 32767, block);
      } else {
        assert Pow2(0) == 1 by { Pow2Zero(); }
        DivIs(size - 1, size - 1, 1);
      }
    }
  }

  lemma Pow2Zero()
    ensures Pow2(0) == 1
  {
  }

  /** The block size of the complement overflows a 32-bit integer for sizes of 2 to the 46 and more, and
      for no others. */
  lemma BlockFits(size: nat, shift: nat)
    requires IsShift(size, shift)
    ensures Pow2(shift) <= 0x7FFF_FFFF <==> size < Pow2(46)
  {
    Pow2Values();
    if shift <= 30 {
      Pow2Grows(shift + 16, 46);
      Pow2Grows(shift, 30);
      assert Pow2(31) == 2 * Pow2(30);
      Pow2Grows(16, 46);
    } else {
      Pow2Grows(46, shift + 15);
      Pow2Grows(31, shift);
    }
  }
}

/** One file transfer as the bridge reports it: bytes counted by the handler, notified by a timer. */
module FileTransfer {
  import opened ProgressSteps

  datatype Note = Progress(delta: int, at: int, size: int) | Finished | Error

  /** `linked` is the stream being there, `alive` the handler and its timer; `finishing` is a queued
      look whether there is nothing to transfer. */
  datatype Transfer = Transfer(size: int, sending: bool, sent: int, linked: bool, finishing: bool, alive: bool, ticking: bool,
                               last: int, current: int, notes: seq<Note>)

  function Start(size: int, sending: bool): Transfer { Transfer(size, sending, 0, true, false, true, false, 0, 0, []) }

  datatype Event =
    | Connected(offset: nat, fileOpens: bool)
    | ReadyRead(count: nat, written: bool)
    | BytesWritten(count: nat)
    | SendFailed
    | FinishLook
    | StreamError(known: bool)
    | Tick
    | Cancel

  predicate Legal(f: Transfer, ev: Event) {
    match ev
    case Connected(_, _) => f.alive && f.linked
    case ReadyRead(_, _) => f.alive && f.linked && !f.sending
    case BytesWritten(_) => f.alive && f.linked && f.sending
    case SendFailed => f.alive && f.linked && f.sending
    case FinishLook => f.alive && f.finishing
    case StreamError(_) => f.alive
    case Tick => f.alive && f.ticking
    case Cancel => true
  }

  // ---- what the methods make of a transfer ------------------------------------------------------------

  function CleanedUp(f: Transfer): Transfer { f.(alive := false, ticking := false) }

  function Failed(f: Transfer): Transfer {
    CleanedUp(f.(linked := false, notes := f.notes + [Error]))
  }

  function Progressed(f: Transfer): Transfer { f.(current := f.sent, ticking := true) }

  function CloseIfDone(f: Transfer): Transfer { if f.sent == f.size then f.(linked := false) else f }

  function Ticked(f: Transfer): Transfer {
    var t := f.(notes := f.notes + [Progress(f.current - f.last, f.current, f.size)], last := f.current);
    if f.current == f.size then CleanedUp(t.(notes := t.notes + [Finished])) else t
  }

  function Step(f: Transfer, ev: Event): Transfer
    requires Legal(f, ev)
  {
    match ev
    case Connected(offset, fileOpens) =>
      var t := f.(sent := offset);
      if !fileOpens then Failed(t) else t.(finishing := t.finishing || offset == f.size)
    case ReadyRead(count, written) => if !written then Failed(f) else Progressed(CloseIfDone(f.(sent := f.sent + count)))
    case BytesWritten(count) => Progressed(CloseIfDone(f.(sent := f.sent + count)))
    case SendFailed => Failed(f)
    case FinishLook => Progressed(CloseIfDone(f.(finishing := false)))
    case StreamError(known) => if known then Failed(f) else f.(linked := false)
    case Tick => Ticked(f)
    case Cancel => CleanedUp(f)
  }

  /** The handler and the bridge's record of it. */
  class FileTransferInfo {
    var fileSize: int
    var sending: bool
    var sent: int
    var linked: bool
    var finishing: bool
    var alive: bool
    var timerActive: bool
    var totalOnLastNotification: int
    var currentTotal: int
    var notes: seq<Note>

    function View(): Transfer
      reads this
    {
      Transfer(fileSize, sending, sent, linked, finishing, alive, timerActive, totalOnLastNotification, currentTotal, notes)
    }

    constructor (size: int, sending: bool)
      ensures View() == Start(size, sending)
    {
      fileSize, this.sending, sent, linked, finishing, alive, timerActive := size, sending, 0, true, false, true, false;
      totalOnLastNotification, currentTotal, notes := 0, 0, [];
    }

    method Cleanup()
      modifies this`alive, this`timerActive
      ensures View() == CleanedUp(old(View()))
    {
      alive := false;
      timerActive := false;
    }

    method HandlerError()
      modifies this
      ensures View() == Failed(old(View()))
    {
      linked := false;
      notes := notes + [Error];
      Cleanup();
    }

    method HandlerProgress(total: int)
      modifies this`currentTotal, this`timerActive
      ensures View() == old(View()).(current := total, ticking := true)
    {
      currentTotal := total;
      if !timerActive {
        timerActive := true;
      }
    }

    method FtConnected(offset: nat, fileOpens: bool)
      requires Legal(View(), Connected(offset, fileOpens))
      modifies this
      ensures View() == Step(old(View()), Connected(offset, fileOpens))
    {
      sent := offset;
      if !fileOpens {
        HandlerError();
        return;
      }
      if sent == fileSize {
        finishing := true;
      }
    }

    method FtReadyRead(count: nat, written: bool)
      requires Legal(View(), ReadyRead(count, written))
      modifies this
      ensures View() == Step(old(View()), ReadyRead(count, written))
    {
      if !written {
        HandlerError();
        return;
      }
      sent := sent + count;
      DoFinish();
    }

    method DoFinish()
      modifies this`linked, this`currentTotal, this`timerActive
      ensures View() == Progressed(CloseIfDone(old(View())))
    {
      if sent == fileSize {
        linked := false;
      }
      HandlerProgress(sent);
    }

    method FtBytesWritten(count: nat)
      requires Legal(View(), BytesWritten(count))
      modifies this
      ensures View() == Step(old(View()), BytesWritten(count))
    {
      sent := sent + count;
      if sent == fileSize {
        linked := false;
      }
      HandlerProgress(sent);
    }

    method TimerUpdateProgress()
      requires Legal(View(), Tick)
      modifies this
      ensures View() == Step(old(View()), Tick)
    {
      notes := notes + [Progress(currentTotal - totalOnLastNotification, currentTotal, fileSize)];
      totalOnLastNotification := currentTotal;
      if currentTotal == fileSize {
        notes := notes + [Finished];
        Cleanup();
      }
    }
  }

  // ---- what holds over a whole transfer -----------------------------------------------------------------

  function Sum(notes: seq<Note>): int {
    if notes == [] then 0
    else Sum(notes[..|notes| - 1]) + (if notes[|notes| - 1].Progress? then notes[|notes| - 1].delta else 0)
  }

  /** What the last progress notification said was done in all. */
  function LastAt(notes: seq<Note>): int {
    if notes == [] then 0
    else if notes[|notes| - 1].Progress? then notes[|notes| - 1].at
    else LastAt(notes[..|notes| - 1])
  }

  function Endings(notes: seq<Note>): nat {
    if notes == [] then 0 else Endings(notes[..|notes| - 1]) + (if notes[|notes| - 1].Progress? then 0 else 1)
  }

  ghost predicate Inv(f: Transfer) {
    && Sum(f.notes) == f.last == LastAt(f.notes)
    && Endings(f.notes) <= (if f.alive then 0 else 1)
    && (Finished in f.notes ==> f.last == f.size && !f.alive)
    && (f.ticking ==> f.alive)
  }

  lemma NotesNext(notes: seq<Note>, n: Note)
    ensures var m := notes + [n];
            && Sum(m) == Sum(notes) + (if n.Progress? then n.delta else 0)
            && LastAt(m) == (if n.Progress? then n.at else LastAt(notes))
            && Endings(m) == Endings(notes) + (if n.Progress? then 0 else 1)
  {
    assert (notes + [n])[..|notes|] == notes;
  }

  lemma FailedInv(f: Transfer)
    requires Inv(f) && f.alive
    ensures Inv(Failed(f))
  {
    hide Sum;
    hide LastAt;
    hide Endings;
    NotesNext(f.notes, Error);
  }

  lemma TickedInv(f: Transfer)
    requires Inv(f) && f.alive
    ensures Inv(Ticked(f))
  {
    hide Sum;
    hide LastAt;
    hide Endings;
    var p := Progress(f.current - f.last, f.current, f.size);
    NotesNext(f.notes, p);
    NotesNext(f.notes + [p], Finished);
  }

  lemma StepInv(f: Transfer, ev: Event)
    requires Inv(f) && Legal(f, ev)
    ensures Inv(Step(f, ev))
  {
    hide Sum;
    hide LastAt;
    hide Endings;
    hide Failed;
    hide Ticked;
    match ev
    case Connected(offset, _) => FailedInv(f.(sent := offset));
    case ReadyRead(_, _) => FailedInv(f);
    case BytesWritten(_) =>
    case SendFailed => FailedInv(f);
    case FinishLook =>
    case StreamError(_) => FailedInv(f);
    case Tick => TickedInv(f);
    case Cancel =>
  }

  ghost predicate IsRun(states: seq<Transfer>, events: seq<Event>) {
    && |states| == |events| + 1 && states[0] == Start(states[0].size, states[0].sending)
    && forall i :: 0 <= i < |events| ==> Legal(states[i], events[i]) && states[i + 1] == Step(states[i], events[i])
  }

  lemma {:induction false} RunInv(states: seq<Transfer>, events: seq<Event>)
    requires IsRun(states, events)
    ensures Inv(states[|events|])
  {
    if events != [] {
      var n := |events| - 1;
      RunInv(states[..n + 1], events[..n]);
      StepInv(states[n], events[n]);
    }
  }

  /** However progress, ticks, errors and cancelling interleave: the deltas notified add up to the last
      total notified, the transfer is called finished only when that is the size of the file, and there
      is at most one ending of either kind, nothing being left that could cause another. */
  lemma DeltasAndEndings(states: seq<Transfer>, events: seq<Event>)
    requires IsRun(states, events)
    ensures var f := states[|events|];
            && Sum(f.notes) == LastAt(f.notes)
            && (Finished in f.notes ==> LastAt(f.notes) == f.size)
            && Endings(f.notes) <= 1
            && (Endings(f.notes) == 1 ==> forall ev :: Legal(f, ev) ==> Step(f, ev).notes == f.notes)
  {
    RunInv(states, events);
  }

  // ---- when a transfer finishes -------------------------------------------------------------------------

  /** The event brings the last bytes of the file, or finds that there are none left to come. */
  predicate LastBytes(f: Transfer, ev: Event) {
    match ev
    case ReadyRead(count, written) => written && f.sent + count == f.size
    case BytesWritten(count) => f.sent + count == f.size
    case FinishLook => f.sent == f.size
    case _ => false
  }

  /** Something ends the transfer before it is called finished. */
  predicate Intervenes(ev: Event) { ev.Cancel? || (ev.StreamError? && ev.known) }

  /** The whole file is reported, and the timer about to notify it. */
  predicate Reported(f: Transfer) { f.alive && f.ticking && !f.linked && f.sent == f.size && f.current == f.size }

  predicate Done(f: Transfer) { !f.alive && Finished in f.notes }

  lemma LastBytesReported(f: Transfer, ev: Event)
    requires Legal(f, ev) && LastBytes(f, ev)
    ensures Reported(Step(f, ev))
  {
  }

  lemma TickFinishes(f: Transfer)
    requires Reported(f)
    ensures Legal(f, Tick) && Done(Step(f, Tick))
  {
    var t := Step(f, Tick);
    assert t.notes[|t.notes| - 1] == Finished;
  }

  lemma StaysReported(f: Transfer, ev: Event)
    requires Reported(f) && Legal(f, ev) && !Intervenes(ev) && !ev.Tick?
    ensures Reported(Step(f, ev))
  {
  }

  lemma StaysDone(f: Transfer, ev: Event)
    requires Done(f) && Legal(f, ev)
    ensures Done(Step(f, ev))
  {
  }

  /** Once the last bytes have come, and unless it is cancelled or an error comes in between, the transfer
      is called finished if and only if the timer has run since. */
  lemma {:induction false} WholeFileFinishes(states: seq<Transfer>, events: seq<Event>, i: nat)
    requires IsRun(states, events) && i < |events| && LastBytes(states[i], events[i])
    requires forall k :: i < k < |events| ==> !Intervenes(events[k])
    ensures Finished in states[|events|].notes <==> exists k :: i < k < |events| && events[k].Tick?
    ensures if exists k :: i < k < |events| && events[k].Tick? then Done(states[|events|]) else Reported(states[|events|])
  {
    hide Step;
    hide Reported;
    hide Done;
    hide Legal;
    var n := |events| - 1;
    if n == i {
      LastBytesReported(states[i], events[i]);
    } else {
      WholeFileFinishes(states[..n + 1], events[..n], i);
      if k :| i < k < n && events[k].Tick? {
        assert events[..n][k].Tick?;
        StaysDone(states[n], events[n]);
      } else {
        assert !exists k :: i < k < n && events[..n][k].Tick?;
        if events[n].Tick? {
          TickFinishes(states[n]);
        } else {
          StaysReported(states[n], events[n]);
        }
      }
    }
    RunInv(states, events);
    NotYet(states[|events|]);
  }

  lemma NotYet(f: Transfer)
    requires Inv(f)
    ensures (Reported(f) ==> Finished !in f.notes) && (Done(f) ==> Finished in f.notes)
  {
  }

  // ---- what the events of a transfer amount to ------------------------------------------------------------

  /** The bytes there are of the file: those there were when it was last connected, and all that came since. */
  function Counted(events: seq<Event>): int {
    if events == [] then 0
    else
      var before, ev := Counted(events[..|events| - 1]), events[|events| - 1];
      match ev
      case Connected(offset, _) => offset
      case ReadyRead(count, true) => before + count
      case BytesWritten(count) => before + count
      case _ => before
  }

  /** Bytes came, or it was found that there are none left to come. */
  predicate Counts(ev: Event) { (ev.ReadyRead? && ev.written) || ev.BytesWritten? || ev.FinishLook? }

  /** How many there were when some came last. */
  function Shown(events: seq<Event>): int {
    if events == [] then 0
    else if Counts(events[|events| - 1]) then Counted(events)
    else Shown(events[..|events| - 1])
  }

  /** How many there were when some came last before the timer last ran. */
  function Notified(events: seq<Event>): int {
    if events == [] then 0
    else if events[|events| - 1].Tick? then Shown(events[..|events| - 1])
    else Notified(events[..|events| - 1])
  }

  /** In every run the bytes counted are those of the file that are there, resumed transfers included, and what was
      notified last is how many there were when some came last before the timer ran. */
  lemma {:induction false} TotalsNotified(states: seq<Transfer>, events: seq<Event>)
    requires IsRun(states, events)
    ensures var f := states[|events|];
            && f.size == states[0].size && f.sending == states[0].sending
            && f.sent == Counted(events) && f.current == Shown(events) && f.last == LastAt(f.notes) == Notified(events)
  {
    hide LastAt;
    RunInv(states, events);
    if events != [] {
      var n := |events| - 1;
      TotalsNotified(states[..n + 1], events[..n]);
      StepTotals(states[n], events[n]);
    }
  }

  lemma StepTotals(f: Transfer, ev: Event)
    requires Legal(f, ev)
    ensures var t := Step(f, ev);
            && t.size == f.size && t.sending == f.sending
            && t.sent == (match ev
                          case Connected(offset, _) => offset
                          case ReadyRead(count, true) => f.sent + count
                          case BytesWritten(count) => f.sent + count
                          case _ => f.sent)
            && t.current == (if Counts(ev) then t.sent else f.current)
            && t.last == (if ev.Tick? then f.current else f.last)
  {
  }

  /** The file cannot be opened or written, sending fails, or the stream reports an error. */
  predicate Failing(ev: Event) {
    match ev
    case Connected(_, fileOpens) => !fileOpens
    case ReadyRead(_, written) => !written
    case SendFailed => true
    case StreamError(known) => known
    case _ => false
  }

  /** The timer runs when the whole file was shown. */
  predicate RunsAtEnd(events: seq<Event>, size: int, k: nat)
    requires k < |events|
  {
    events[k].Tick? && Shown(events[..k]) == size
  }

  ghost predicate SomeFailed(events: seq<Event>) { exists k :: 0 <= k < |events| && Failing(events[k]) }
  ghost predicate SomeEnd(events: seq<Event>, size: int) { exists k :: 0 <= k < |events| && RunsAtEnd(events, size, k) }
  ghost predicate SomeCancel(events: seq<Event>) { exists k :: 0 <= k < |events| && events[k].Cancel? }

  lemma NextSome(events: seq<Event>, ev: Event, size: int)
    ensures SomeFailed(events + [ev]) <==> SomeFailed(events) || Failing(ev)
    ensures SomeCancel(events + [ev]) <==> SomeCancel(events) || ev.Cancel?
    ensures SomeEnd(events + [ev], size) <==> SomeEnd(events, size) || (ev.Tick? && Shown(events) == size)
  {
    hide Failing;
    hide Shown;
    var all, n := events + [ev], |events|;
    assert all[n] == ev && all[..n] == events;
    assert RunsAtEnd(all, size, n) <==> ev.Tick? && Shown(events) == size;
    forall k | 0 <= k < n ensures all[k] == events[k] && (RunsAtEnd(all, size, k) <==> RunsAtEnd(events, size, k)) {
      assert all[..k] == events[..k];
    }
  }

  /** In every run an error is notified exactly if something failed, the end exactly if the timer ran when the whole
      file was shown, and the transfer goes on exactly if neither happened and it was not cancelled. */
  lemma {:induction false} EndingsExact(states: seq<Transfer>, events: seq<Event>)
    requires IsRun(states, events)
    ensures var f := states[|events|];
            && (Error in f.notes <==> SomeFailed(events))
            && (Finished in f.notes <==> SomeEnd(events, f.size))
            && (f.alive <==> !SomeFailed(events) && !SomeEnd(events, f.size) && !SomeCancel(events))
  {
    hide Shown;
    hide SomeFailed;
    hide SomeEnd;
    hide SomeCancel;
    hide Failing;
    TotalsNotified(states, events);
    if events == [] {
      NoneYet(states[0].size);
    } else {
      var n := |events| - 1;
      EndingsExact(states[..n + 1], events[..n]);
      TotalsNotified(states[..n + 1], events[..n]);
      assert events == events[..n] + [events[n]];
      NextSome(events[..n], events[n], states[0].size);
      StepEndings(states[n], events[n]);
    }
  }

  lemma NoneYet(size: int)
    ensures !SomeFailed([]) && !SomeEnd([], size) && !SomeCancel([])
  {
  }

  lemma StepEndings(f: Transfer, ev: Event)
    requires Legal(f, ev)
    ensures var t := Step(f, ev);
            && (Error in t.notes <==> Error in f.notes || Failing(ev))
            && (Finished in t.notes <==> Finished in f.notes || (ev.Tick? && f.current == f.size))
            && (t.alive <==> f.alive && !Failing(ev) && !ev.Cancel? && !(ev.Tick? && f.current == f.size))
  {
    hide Failed;
    hide Ticked;
    FailedNotes(f);
    FailedNotes(f.(sent := if ev.Connected? then ev.offset else f.sent));
    TickedNotes(f);
  }

  lemma FailedNotes(f: Transfer)
    ensures var t := Failed(f); (Error in t.notes) && (Finished in t.notes <==> Finished in f.notes) && !t.alive
  {
    assert Failed(f).notes == f.notes + [Error];
  }

  lemma TickedNotes(f: Transfer)
    ensures var t := Ticked(f);
            && (Error in t.notes <==> Error in f.notes)
            && (Finished in t.notes <==> Finished in f.notes || f.current == f.size)
            && (t.alive <==> f.alive && f.current != f.size)
  {
    var p := Progress(f.current - f.last, f.current, f.size);
    assert Ticked(f).notes == f.notes + [p] + if f.current == f.size then [Finished] else [];
  }

  /** Something closes the stream: its error, any failure, or the last bytes. */
  predicate Closes(f: Transfer, ev: Event) { ev.StreamError? || Failing(ev) || LastBytes(f, ev) }

  lemma StepLinks(f: Transfer, ev: Event)
    requires Legal(f, ev)
    ensures Step(f, ev).linked <==> f.linked && !Closes(f, ev)
    ensures Step(f, ev).finishing <==> (f.finishing && !ev.FinishLook?) || FindsNone(f, ev)
    ensures Step(f, ev).ticking <==> Step(f, ev).alive && (f.ticking || Counts(ev))
    ensures Step(f, ev).size == f.size
  {
  }

  /** A transfer connects of which nothing is left to come. */
  predicate FindsNone(f: Transfer, ev: Event) { ev.Connected? && ev.fileOpens && ev.offset == f.size }

  ghost predicate SomeClosed(states: seq<Transfer>, events: seq<Event>)
    requires |states| > |events|
  {
    exists k :: 0 <= k < |events| && Closes(states[k], events[k])
  }

  /** A transfer with nothing left to come has connected, and was not looked at since. */
  ghost predicate LookDue(states: seq<Transfer>, events: seq<Event>)
    requires |states| > |events|
  {
    exists k :: 0 <= k < |events| && FindsNone(states[k], events[k]) && forall m :: k < m < |events| ==> !events[m].FinishLook?
  }

  ghost predicate SomeCounted(events: seq<Event>) { exists k :: 0 <= k < |events| && Counts(events[k]) }

  /** In every run the stream is there exactly as long as nothing has closed it; a look at an empty transfer is due
      exactly if one has connected with nothing left to come and was not looked at since; and the timer runs
      exactly if some bytes were counted and the transfer goes on. */
  lemma {:induction false} StreamAndTimer(states: seq<Transfer>, events: seq<Event>)
    requires IsRun(states, events)
    ensures var f := states[|events|];
            && (f.linked <==> !SomeClosed(states, events))
            && (f.finishing <==> LookDue(states, events))
            && (f.ticking <==> f.alive && SomeCounted(events))
  {
    hide Step;
    hide SomeClosed;
    hide LookDue;
    hide SomeCounted;
    if events == [] {
      NothingYet(states);
    } else {
      var n := |events| - 1;
      StreamAndTimer(states[..n + 1], events[..n]);
      StepLinks(states[n], events[n]);
      AliveBefore(states[n], events[n]);
      ClosedNext(states, events);
      LookNext(states, events);
      CountedNext(events);
    }
  }

  lemma NothingYet(states: seq<Transfer>)
    requires |states| > 0
    ensures !SomeClosed(states, []) && !LookDue(states, []) && !SomeCounted([])
  {
  }

  lemma AliveBefore(f: Transfer, ev: Event)
    requires Legal(f, ev)
    ensures Step(f, ev).alive ==> f.alive
  {
  }

  lemma ClosedNext(states: seq<Transfer>, events: seq<Event>)
    requires |states| > |events| > 0
    ensures var n := |events| - 1;
            SomeClosed(states, events) <==> SomeClosed(states[..n + 1], events[..n]) || Closes(states[n], events[n])
  {
    hide Closes;
    var n := |events| - 1;
    assert forall k :: 0 <= k < n ==> states[..n + 1][k] == states[k] && events[..n][k] == events[k];
  }

  lemma CountedNext(events: seq<Event>)
    requires |events| > 0
    ensures var n := |events| - 1; SomeCounted(events) <==> SomeCounted(events[..n]) || Counts(events[n])
  {
    hide Counts;
    var n := |events| - 1;
    assert forall k :: 0 <= k < n ==> events[..n][k] == events[k];
  }

  lemma LookNext(states: seq<Transfer>, events: seq<Event>)
    requires |states| > |events| > 0
    ensures var n := |events| - 1;
            LookDue(states, events) <==> (LookDue(states[..n + 1], events[..n]) && !events[n].FinishLook?) || FindsNone(states[n], events[n])
  {
    var n := |events| - 1;
    var before, past := states[..n + 1], events[..n];
    assert forall k :: 0 <= k < n ==> before[k] == states[k] && past[k] == events[k];
    if LookDue(before, past) && !events[n].FinishLook? {
      var k :| 0 <= k < n && FindsNone(before[k], past[k]) && forall m :: k < m < n ==> !past[m].FinishLook?;
      assert FindsNone(states[k], events[k]);
    }
    if LookDue(states, events) && !FindsNone(states[n], events[n]) {
      var k :| 0 <= k < n + 1 && FindsNone(states[k], events[k]) && forall m :: k < m < n + 1 ==> !events[m].FinishLook?;
      assert FindsNone(before[k], past[k]);
    }
  }
}
