/**
 * Completion attribution in the scaler driver (modules/ar_scaler.c): submit, wait, timeout reset, suspend and
 * resume under the device lock, against an engine that may finish and an interrupt handler that may start at any
 * time. Every operation carries a tag; a completion carries the tag of the transfer that raised it.
 */
module ScalerIrq {

  /** The lock holder's place in ar_scaler_run, ar_scaler_run_batch or ar_scaler_timeout_reset. */
  datatype Pc =
    | Unlocked
    | Locked(op: nat)
    | Fresh(op: nat)
    | Waiting(op: nat)
    | TimedOut(op: nat)
    | Masked(op: nat)
    | Synced(op: nat)
    | Reset(op: nat)
    | Remasked(op: nat)
    | StatusRead(op: nat, bits: set<nat>)
    | StatusCleared(op: nat)
    | Resynced(op: nat)
    | Reinited(op: nat)

  /** ar_scaler_irq_handler: after its status read, and after its write back. */
  datatype Handler = Idle | Read(bits: set<nat>) | Cleared(bits: set<nat>)

  /**
   * running: transfers the engine has been triggered on and not finished; latched: the transfers behind the DONE
   * bit, which is set when this is not empty; signals: the completion's count, with the transfer behind each.
   */
  datatype State = State(pc: Pc, running: set<nat>, latched: set<nat>, handler: Handler, signals: seq<nat>,
                         enabled: bool, suspended: bool, dead: bool, next: nat, log: seq<(nat, nat)>)

  datatype Event =
    | Lock
    | Reinit
    | Trigger
    | WaitDone
    | WaitTimeout
    | MaskIrq
    | Synchronize
    | HwInit
    | RemaskIrq
    | ReadStatus
    | WriteStatus
    | SynchronizeAgain
    | ReinitAgain
    | Unmask
    | Suspend
    | Resume
    | Remove
    | EngineDone(tag: nat)
    | HandlerReads
    | HandlerWrites
    | HandlerCompletes(tag: nat)

  function Boot(): State {
    State(Unlocked, {}, {}, Idle, [], true, false, false, 0, [])
  }

  predicate Enabled(s: State, e: Event) {
    match e
    case Lock => s.pc.Unlocked?
    case Reinit => s.pc.Locked?
    case Trigger => s.pc.Fresh?
    case WaitDone => s.pc.Waiting? && s.signals != []
    case WaitTimeout => s.pc.Waiting? && s.signals == []
    case MaskIrq => s.pc.TimedOut?
    case Synchronize => s.pc.Masked? && s.handler == Idle
    case HwInit => s.pc.Synced?
    case RemaskIrq => s.pc.Reset?
    case ReadStatus => s.pc.Remasked?
    case WriteStatus => s.pc.StatusRead?
    case SynchronizeAgain => s.pc.StatusCleared? && s.handler == Idle
    case ReinitAgain => s.pc.Resynced?
    case Unmask => s.pc.Reinited?
    case Suspend => s.pc.Unlocked?
    case Resume => s.pc.Unlocked?
    case Remove => s.pc.Unlocked?
    case EngineDone(tag) => tag in s.running
    case HandlerReads => s.handler == Idle
    case HandlerWrites => s.handler.Read?
    case HandlerCompletes(tag) => s.handler.Cleared? && (s.handler.bits == {} || tag in s.handler.bits)
  }

  /** Writing a status value back: the DONE bit is write-one-to-clear, whatever is behind it. */
  function ClearDone(latched: set<nat>, bits: set<nat>): set<nat> {
    if bits == {} then latched else {}
  }

  /** ar_scaler_hw_init; aborts says whether it reaches the clock gate and stopping the clock ends a transfer. */
  function HwInited(s: State, aborts: bool): State {
    s.(running := if aborts then {} else s.running, enabled := aborts || s.enabled)
  }

  function Apply(aborts: bool, s: State, e: Event): State
    requires Enabled(s, e)
  {
    match e
    case Lock => if s.suspended || s.dead then s else s.(pc := Locked(s.next), next := s.next + 1)
    case Reinit => s.(pc := Fresh(s.pc.op), signals := [])
    case Trigger => s.(pc := Waiting(s.pc.op), running := s.running + {s.pc.op})
    case WaitDone => s.(pc := Unlocked, signals := s.signals[1..], log := s.log + [(s.pc.op, s.signals[0])])
    case WaitTimeout => s.(pc := TimedOut(s.pc.op))
    case MaskIrq => s.(pc := Masked(s.pc.op), enabled := false)
    case Synchronize => s.(pc := Synced(s.pc.op))
    case HwInit => HwInited(s, aborts).(pc := Reset(s.pc.op))
    case RemaskIrq => s.(pc := Remasked(s.pc.op), enabled := false)
    case ReadStatus => s.(pc := StatusRead(s.pc.op, s.latched))
    case WriteStatus => s.(pc := StatusCleared(s.pc.op), latched := ClearDone(s.latched, s.pc.bits))
    case SynchronizeAgain => s.(pc := Resynced(s.pc.op))
    case ReinitAgain => s.(pc := Reinited(s.pc.op), signals := [])
    case Unmask => s.(pc := Unlocked, enabled := true)
    case Suspend => s.(suspended := true, running := if aborts then {} else s.running)
    case Resume => HwInited(s, aborts).(suspended := false)
    case Remove => s.(dead := true, running := if aborts then {} else s.running)
    case EngineDone(tag) => s.(running := s.running - {tag}, latched := s.latched + {tag})
    case HandlerReads => s.(handler := Read(s.latched))
    case HandlerWrites => s.(handler := Cleared(s.handler.bits), latched := ClearDone(s.latched, s.handler.bits))
    case HandlerCompletes(tag) =>
      s.(handler := Idle, signals := if s.handler.bits == {} then s.signals else s.signals + [tag])
  }

  function Exec(aborts: bool, s: State, es: seq<Event>): State {
    if es == [] then s
    else
      var t := Exec(aborts, s, es[..|es| - 1]);
      if Enabled(t, es[|es| - 1]) then Apply(aborts, t, es[|es| - 1]) else t
  }

  predicate Legal(aborts: bool, s: State, es: seq<Event>) {
    es == [] ||
    (Legal(aborts, s, es[..|es| - 1]) && Enabled(Exec(aborts, s, es[..|es| - 1]), es[|es| - 1]))
  }

  // ---- where the one transfer in flight can be ----

  function Seen(h: Handler): set<nat> {
    if h.Idle? then {} else h.bits
  }

  /** Nothing of any transfer is left in the engine, the status register or a running handler. */
  predicate Quiet(s: State) {
    s.running == {} && s.latched == {} && Seen(s.handler) == {}
  }

  /** Exactly one transfer is somewhere on its way from the engine to the waiter, and it is this operation's. */
  predicate OneToken(s: State, op: nat) {
    || (s.running == {op} && s.latched == {} && Seen(s.handler) == {} && s.signals == [])
    || (s.running == {} && s.latched == {op} && (Seen(s.handler) == {} || s.handler == Read({op})) && s.signals == [])
    || (s.running == {} && s.latched == {} && s.handler == Cleared({op}) && s.signals == [])
    || (Quiet(s) && s.signals == [op])
  }

  predicate Inv(s: State) {
    && (forall i :: 0 <= i < |s.log| ==> s.log[i].0 == s.log[i].1)
    && match s.pc
       case Unlocked => Quiet(s)
       case Locked(_) => Quiet(s)
       case Fresh(_) => Quiet(s) && s.signals == []
       case Waiting(op) => OneToken(s, op)
       case TimedOut(op) => OneToken(s, op)
       case Masked(op) => OneToken(s, op)
       case Synced(op) => OneToken(s, op)
       case Reset(_) => s.running == {}
       case Remasked(_) => s.running == {}
       case StatusRead(_, bits) => s.running == {} && (bits == {} ==> s.latched == {})
       case StatusCleared(_) => s.running == {} && s.latched == {}
       case Resynced(_) => Quiet(s)
       case Reinited(_) => Quiet(s) && s.signals == []
  }

  lemma {:induction false} StepKeepsInv(s: State, e: Event)
    requires Inv(s) && Enabled(s, e)
    ensures Inv(Apply(true, s, e))
  {
    var t := Apply(true, s, e);
    match e {
      case WaitDone => assert s.signals == [s.pc.op];
      case EngineDone(tag) => assert s.running - {tag} == {} && s.latched + {tag} == {tag};
      case HandlerCompletes(tag) => assert s.handler.bits == {} || |t.signals| == |s.signals| + 1;
      case _ =>
    }
  }

  lemma {:induction false} RunKeepsInv(es: seq<Event>)
    requires Legal(true, Boot(), es)
    ensures Inv(Exec(true, Boot(), es))
    decreases |es|
  {
    if es != [] {
      var n := |es| - 1;
      RunKeepsInv(es[..n]);
      StepKeepsInv(Exec(true, Boot(), es[..n]), es[n]);
    }
  }

  /** Every wait that succeeded was completed by the transfer its own operation triggered. */
  predicate Attributed(s: State) {
    forall i :: 0 <= i < |s.log| ==> s.log[i].0 == s.log[i].1
  }

  /** The first operation times out with the transfer still running; the second is woken by it. */
  function LateDone(): seq<Event> {
    [Lock, Reinit, Trigger, WaitTimeout, MaskIrq, Synchronize, HwInit, RemaskIrq, ReadStatus, WriteStatus,
     SynchronizeAgain, ReinitAgain, Unmask, Lock, Reinit, Trigger, EngineDone(0), HandlerReads, HandlerWrites,
     HandlerCompletes(0), WaitDone]
  }

  function LateState(i: nat): State
    requires i <= 21
  {
    var a := State(Unlocked, {}, {}, Idle, [], true, false, false, 1, []);
    var run := a.(running := {0});
    var off := run.(enabled := false);
    var b := run.(next := 2);
    var two := b.(running := {0, 1}, pc := Waiting(1));
    var late := two.(running := {1}, latched := {0});
    match i
    case 0 => Boot()
    case 1 => a.(pc := Locked(0))
    case 2 => a.(pc := Fresh(0))
    case 3 => run.(pc := Waiting(0))
    case 4 => run.(pc := TimedOut(0))
    case 5 => off.(pc := Masked(0))
    case 6 => off.(pc := Synced(0))
    case 7 => off.(pc := Reset(0))
    case 8 => off.(pc := Remasked(0))
    case 9 => off.(pc := StatusRead(0, {}))
    case 10 => off.(pc := StatusCleared(0))
    case 11 => off.(pc := Resynced(0))
    case 12 => off.(pc := Reinited(0))
    case 13 => run
    case 14 => b.(pc := Locked(1))
    case 15 => b.(pc := Fresh(1))
    case 16 => two
    case 17 => late
    case 18 => late.(handler := Read({0}))
    case 19 => late.(handler := Cleared({0}), latched := {})
    case 20 => late.(latched := {}, signals := [0])
    case _ => late.(latched := {}, pc := Unlocked, log := [(1, 0)])
  }

  lemma {:induction false} FirstTimesOut(i: nat)
    requires i < 13
    ensures Enabled(LateState(i), LateDone()[i]) && LateState(i + 1) == Apply(false, LateState(i), LateDone()[i])
  {
    assert {} + {0} == {0};
  }

  lemma {:induction false} SecondIsWoken(i: nat)
    requires 13 <= i < 21
    ensures Enabled(LateState(i), LateDone()[i]) && LateState(i + 1) == Apply(false, LateState(i), LateDone()[i])
  {
    assert {0} + {1} == {0, 1} && {0, 1} - {0} == {1} && {} + {0} == {0};
    assert [0][1..] == [] && [] + [0] == [0] && [] + [(1, 0)] == [(1, 0)];
  }

  lemma {:induction false} LatePrefix(i: nat)
    requires i <= 21
    ensures Legal(false, Boot(), LateDone()[..i]) && Exec(false, Boot(), LateDone()[..i]) == LateState(i)
  {
    if i == 0 {
      return;
    }
    hide Apply, Enabled, LateState;
    LatePrefix(i - 1);
    if i <= 13 {
      FirstTimesOut(i - 1);
    } else {
      SecondIsWoken(i - 1);
    }
    assert LateDone()[..i][..i - 1] == LateDone()[..i - 1];
  }

  /**
   * Completion attribution: in every run, with late and early DONE, DONE racing the timeout or latched across
   * the reset, and handlers starting at any point, a wait that succeeds is its own operation's, if and only if
   * the reset's clock gate ends the transfer that timed out.
   */
  lemma {:induction false} AttributedIffClockResetAborts(aborts: bool)
    ensures (forall es :: Legal(aborts, Boot(), es) ==> Attributed(Exec(aborts, Boot(), es))) <==> aborts
  {
    if aborts {
      forall es | Legal(aborts, Boot(), es)
        ensures Attributed(Exec(aborts, Boot(), es))
      {
        RunKeepsInv(es);
      }
    } else {
      LatePrefix(21);
      assert LateDone()[..21] == LateDone();
      var s := LateState(21);
      assert s.log[0] == (1, 0);
      assert !Attributed(Exec(aborts, Boot(), LateDone()));
    }
  }

  /** After any timeout recovery nothing of the old transfer is left to reach the next operation. */
  lemma {:induction false} RecoveryLeavesNothing(es: seq<Event>)
    requires Legal(true, Boot(), es) && Exec(true, Boot(), es).pc.Reinited?
    ensures Quiet(Exec(true, Boot(), es)) && Exec(true, Boot(), es).signals == []
  {
    RunKeepsInv(es);
  }

  // ---- suspend, remove and the interrupt enable ----

  /** In a suspended or removed device nobody holds the lock and, if stopping the clock aborts, nothing runs. */
  predicate DownIsStill(aborts: bool, s: State) {
    s.suspended || s.dead ==> s.pc.Unlocked? && (aborts ==> s.running == {})
  }

  lemma StepKeepsStill(aborts: bool, s: State, e: Event)
    requires Enabled(s, e) && DownIsStill(aborts, s)
    ensures DownIsStill(aborts, Apply(aborts, s, e))
  {
    hide Seen, ClearDone;
  }

  /** While the device is suspended or removed nothing is triggered: a new operation is turned away. */
  lemma {:induction false} NothingStartsWhileDown(aborts: bool, es: seq<Event>)
    requires Legal(aborts, Boot(), es)
    ensures var s := Exec(aborts, Boot(), es);
            && DownIsStill(aborts, s)
            && (s.suspended || s.dead ==> !Enabled(s, Trigger) && Apply(aborts, s, Lock) == s)
    decreases |es|
  {
    if es != [] {
      var n := |es| - 1;
      NothingStartsWhileDown(aborts, es[..n]);
      StepKeepsStill(aborts, Exec(aborts, Boot(), es[..n]), es[n]);
    }
    hide HwInited, ClearDone;
  }

  /** The last of the suspends and resumes of a run is a suspend. */
  predicate LastSuspended(es: seq<Event>) {
    es != [] && (es[|es| - 1].Suspend? || (!es[|es| - 1].Resume? && LastSuspended(es[..|es| - 1])))
  }

  /** In every run the device is down exactly from a suspend to the next resume, and for good once removed. */
  lemma {:induction false} DownIffAsked(aborts: bool, es: seq<Event>)
    requires Legal(aborts, Boot(), es)
    ensures var s := Exec(aborts, Boot(), es); (s.suspended <==> LastSuspended(es)) && (s.dead <==> Remove in es)
    decreases |es|
  {
    if es != [] {
      var n := |es| - 1;
      DownIffAsked(aborts, es[..n]);
      assert es == es[..n] + [es[n]];
      StepPutsDown(aborts, Exec(aborts, Boot(), es[..n]), es[n]);
      hide Apply;
    }
  }

  lemma StepPutsDown(aborts: bool, s: State, e: Event)
    requires Enabled(s, e)
    ensures var t := Apply(aborts, s, e);
            (t.suspended <==> e.Suspend? || (!e.Resume? && s.suspended)) && (t.dead <==> s.dead || e.Remove?)
  {
    hide ClearDone;
  }

  /** In a device that is up, an operation gets the lock under a tag of its own. */
  lemma LockIsTaken(aborts: bool, s: State)
    requires s.pc.Unlocked? && !s.suspended && !s.dead
    ensures Enabled(s, Lock) && Apply(aborts, s, Lock).pc == Locked(s.next) && Apply(aborts, s, Lock).next == s.next + 1
  {
  }

  /** The places in a timeout recovery where the interrupt is masked. */
  predicate InMaskedRecovery(pc: Pc) {
    pc.Masked? || pc.Synced? || pc.Remasked? || pc.StatusRead? || pc.StatusCleared? || pc.Resynced? || pc.Reinited?
  }

  lemma StepKeepsMask(s: State, e: Event)
    requires Enabled(s, e) && (s.enabled <==> !InMaskedRecovery(s.pc))
    ensures var t := Apply(true, s, e); t.enabled <==> !InMaskedRecovery(t.pc)
  {
    hide ClearDone;
  }

  /** The interrupt is enabled everywhere else, so a recovery never leaves it masked. */
  lemma {:induction false} MaskedOnlyInRecovery(es: seq<Event>)
    requires Legal(true, Boot(), es)
    ensures var s := Exec(true, Boot(), es); s.enabled <==> !InMaskedRecovery(s.pc)
    decreases |es|
  {
    if es != [] {
      var n := |es| - 1;
      MaskedOnlyInRecovery(es[..n]);
      StepKeepsMask(Exec(true, Boot(), es[..n]), es[n]);
      hide Apply;
    }
  }

  /**
   * An operation that nothing disturbs takes the lock, triggers its transfer, is finished, handled and woken, and is
   * recorded as completed by its own transfer.
   */
  predicate Completes(aborts: bool, s: State) {
    Enabled(s, Lock) && Apply(aborts, s, Lock).pc.Locked? &&
    var t := Apply(aborts, Apply(aborts, Apply(aborts, s, Lock), Reinit), Trigger);
    Enabled(t, EngineDone(s.next)) && t.handler == Idle &&
    var u := Apply(aborts, Apply(aborts, t, EngineDone(s.next)), HandlerReads);
    Enabled(u, HandlerWrites) && Enabled(Apply(aborts, u, HandlerWrites), HandlerCompletes(s.next)) &&
    var v := Apply(aborts, Apply(aborts, u, HandlerWrites), HandlerCompletes(s.next));
    Enabled(v, WaitDone) &&
    var w := Apply(aborts, v, WaitDone);
    w.log == s.log + [(s.next, s.next)] && w.pc.Unlocked?
  }

  lemma QuietCompletes(aborts: bool, s: State)
    requires s.pc.Unlocked? && !s.suspended && !s.dead && Quiet(s) && s.handler == Idle
    ensures Completes(aborts, s)
  {
    assert {} + {s.next} == {s.next} && {s.next} - {s.next} == {};
  }

  /** After every run, recoveries included, an operation that nothing disturbs completes. */
  lemma {:induction false} UndisturbedCompletes(es: seq<Event>)
    requires Legal(true, Boot(), es)
    requires var s := Exec(true, Boot(), es); s.pc.Unlocked? && !s.suspended && !s.dead && s.handler == Idle
    ensures Completes(true, Exec(true, Boot(), es))
  {
    RunKeepsInv(es);
    QuietCompletes(true, Exec(true, Boot(), es));
  }
}
