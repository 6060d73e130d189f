/**
 * Engine slots of the MPP control device (modules/ar_mpp_drv.c): REGISTER, FREE, release and the interrupt
 * handler, interleaved step by step. A step is one critical section or one action of the interrupt core; each
 * open file has one operation in flight.
 */
module EngineSlots {
  import opened Wrappers

  const MAX_ENGINES := 32
  const RING := 64

  /** struct mpp_engine; gen tells one registration of the slot from the next. */
  datatype Slot = Slot(active: bool, freeing: bool, hwirq: nat, virq: nat, owner: Option<nat>, gen: nat)

  /** An installed interrupt action: the slot it was installed for, and which registration. */
  datatype Action = Action(slot: nat, gen: nat)

  /** Where an open file's operation is; rel marks the steps of a release. */
  datatype Pc =
    | Idle
    | Requesting(slot: nat)
    | RollingBack(slot: nat)
    | Marked(slot: nat, virq: nat, gen: nat, rel: bool)
    | Unlinked(slot: nat, virq: nat, rel: bool)
    | Returned(slot: nat, rel: bool)
    | Scanning(i: nat)

  /** A running handler: its action, and the file it has read from the slot, if it has. */
  datatype Handler = Handler(slot: nat, gen: nat, virq: nat, fd: Option<Option<nat>>)

  datatype State = State(slots: seq<Slot>, actions: map<nat, Action>, gens: nat, fds: map<nat, Pc>, dead: set<nat>,
                         handlers: map<nat, Handler>)

  datatype Event =
    | Open(f: nat)
    | Register(f: nat, hwirq: nat, virq: nat)
    | RequestIrq(f: nat, ok: bool)
    | RollBack(f: nat)
    | Free(f: nat, hwirq: nat)
    | Unlink(f: nat)
    | Sync(f: nat)
    | Clear(f: nat)
    | Release(f: nat)
    | Scan(f: nat)
    | Kill(f: nat)
    | Fire(h: nat, virq: nat)
    | ReadOwner(h: nat)
    | Push(h: nat)

  const UNUSED := Slot(false, false, 0, 0, None, 0)

  function Boot(): State {
    State(seq(MAX_ENGINES, i => UNUSED), map[], 0, map[], {}, map[])
  }

  /** The first slot REGISTER may take, or the table's size. */
  function FirstInactive(slots: seq<Slot>, i: nat): (k: nat)
    requires i <= |slots|
    ensures i <= k <= |slots| && (k < |slots| ==> !slots[k].active)
    ensures forall j :: i <= j < k ==> slots[j].active
    decreases |slots| - i
  {
    if i == |slots| || !slots[i].active then i else FirstInactive(slots, i + 1)
  }

  predicate Owns(s: Slot, f: nat) {
    s.active && !s.freeing && s.owner == Some(f)
  }

  /** engine_by_hwirq. */
  function EngineOf(slots: seq<Slot>, f: nat, hwirq: nat, i: nat): (k: nat)
    requires i <= |slots|
    ensures i <= k <= |slots| && (k < |slots| ==> Owns(slots[k], f) && slots[k].hwirq == hwirq)
    ensures forall j :: i <= j < k ==> !(Owns(slots[j], f) && slots[j].hwirq == hwirq)
    decreases |slots| - i
  {
    if i == |slots| || (Owns(slots[i], f) && slots[i].hwirq == hwirq) then i else EngineOf(slots, f, hwirq, i + 1)
  }

  predicate Enabled(s: State, e: Event) {
    match e
    case Open(f) => f !in s.fds && f !in s.dead
    case Register(f, _, _) => f in s.fds && s.fds[f].Idle?
    case RequestIrq(f, _) => f in s.fds && s.fds[f].Requesting? && s.fds[f].slot < |s.slots|
    case RollBack(f) => f in s.fds && s.fds[f].RollingBack? && s.fds[f].slot < |s.slots|
    case Free(f, _) => f in s.fds && s.fds[f].Idle?
    case Unlink(f) => f in s.fds && s.fds[f].Marked?
    case Sync(f) =>
      f in s.fds && s.fds[f].Unlinked? && forall h :: h in s.handlers ==> s.handlers[h].virq != s.fds[f].virq
    case Clear(f) => f in s.fds && s.fds[f].Returned? && s.fds[f].slot < |s.slots|
    case Release(f) => f in s.fds && s.fds[f].Idle?
    case Scan(f) => f in s.fds && s.fds[f].Scanning? && s.fds[f].i < |s.slots|
    case Kill(f) => f in s.fds && s.fds[f].Scanning? && s.fds[f].i >= |s.slots|
    case Fire(h, v) => h !in s.handlers && v in s.actions
    case ReadOwner(h) => h in s.handlers && s.handlers[h].fd.None? && s.handlers[h].slot < |s.slots|
    case Push(h) => h in s.handlers && s.handlers[h].fd.Some?
  }

  function SetPc(s: State, f: nat, pc: Pc): State {
    s.(fds := s.fds[f := pc])
  }

  /** Marking a slot for free_irq: detached from its file, still active. */
  function Mark(s: State, f: nat, i: nat, rel: bool): State
    requires i < |s.slots|
  {
    SetPc(s.(slots := s.slots[i := s.slots[i].(freeing := true, owner := None)]), f,
          Marked(i, s.slots[i].virq, s.slots[i].gen, rel))
  }

  function Apply(s: State, e: Event): State
    requires Enabled(s, e)
  {
    match e
    case Open(f) => SetPc(s, f, Idle)
    case Register(f, hwirq, virq) =>
      var i := FirstInactive(s.slots, 0);
      if i == |s.slots| then s
      else
        SetPc(s.(slots := s.slots[i := s.slots[i].(active := true, hwirq := hwirq, virq := virq, owner := Some(f))]),
              f, Requesting(i))
    case RequestIrq(f, ok) =>
      var i := s.fds[f].slot;
      var v := s.slots[i].virq;
      if ok && v !in s.actions then
        SetPc(s.(slots := s.slots[i := s.slots[i].(gen := s.gens)], actions := s.actions[v := Action(i, s.gens)],
                 gens := s.gens + 1), f, Idle)
      else SetPc(s, f, RollingBack(i))
    case RollBack(f) =>
      var i := s.fds[f].slot;
      SetPc(s.(slots := s.slots[i := s.slots[i].(active := false, owner := None)]), f, Idle)
    case Free(f, hwirq) =>
      var i := EngineOf(s.slots, f, hwirq, 0);
      if i == |s.slots| then s else Mark(s, f, i, false)
    case Unlink(f) =>
      var pc := s.fds[f];
      SetPc(s.(actions := if pc.virq in s.actions && s.actions[pc.virq].slot == pc.slot then s.actions - {pc.virq}
                          else s.actions),
            f, Unlinked(pc.slot, pc.virq, pc.rel))
    case Sync(f) => SetPc(s, f, Returned(s.fds[f].slot, s.fds[f].rel))
    case Clear(f) =>
      var i := s.fds[f].slot;
      SetPc(s.(slots := s.slots[i := s.slots[i].(active := false, freeing := false)]), f,
            if s.fds[f].rel then Scanning(i + 1) else Idle)
    case Release(f) => SetPc(s, f, Scanning(0))
    case Scan(f) =>
      var i := s.fds[f].i;
      if Owns(s.slots[i], f) then Mark(s, f, i, true) else SetPc(s, f, Scanning(i + 1))
    case Kill(f) => s.(fds := s.fds - {f}, dead := s.dead + {f})
    case Fire(h, v) => s.(handlers := s.handlers[h := Handler(s.actions[v].slot, s.actions[v].gen, v, None)])
    case ReadOwner(h) =>
      s.(handlers := s.handlers[h := s.handlers[h].(fd := Some(s.slots[s.handlers[h].slot].owner))])
    case Push(h) => s.(handlers := s.handlers - {h})
  }

  // ---- the invariant ----

  predicate Works(pc: Pc, i: nat) {
    (pc.Requesting? || pc.RollingBack? || pc.Marked? || pc.Unlinked? || pc.Returned?) && pc.slot == i
  }

  predicate HasAction(s: State, i: nat)
    requires i < |s.slots|
  {
    s.slots[i].virq in s.actions && s.actions[s.slots[i].virq] == Action(i, s.slots[i].gen)
  }

  predicate NoAction(s: State, i: nat) {
    forall v :: v in s.actions ==> s.actions[v].slot != i
  }

  predicate NoHandler(s: State, i: nat) {
    forall h :: h in s.handlers ==> s.handlers[h].slot != i
  }

  /** A release has not yet gone past slot i. */
  predicate NotPassed(pc: Pc, i: nat) {
    match pc
    case Scanning(k) => k <= i
    case Marked(k, _, _, rel) => rel ==> k < i
    case Unlinked(k, _, rel) => rel ==> k < i
    case Returned(k, rel) => rel ==> k < i
    case _ => true
  }

  predicate SlotOk(s: State, i: nat)
    requires i < |s.slots|
  {
    var t := s.slots[i];
    && (!t.active ==> t.owner.None? && !t.freeing && NoAction(s, i) && NoHandler(s, i))
    && (t.freeing ==> t.owner.None?)
    && (t.active && !t.freeing ==>
          && t.owner.Some? && t.owner.value in s.fds && NotPassed(s.fds[t.owner.value], i)
          && (Works(s.fds[t.owner.value], i) || HasAction(s, i)))
  }

  predicate ActionOk(s: State, v: nat)
    requires v in s.actions
  {
    var a := s.actions[v];
    a.slot < |s.slots| && s.slots[a.slot].active && s.slots[a.slot].virq == v && s.slots[a.slot].gen == a.gen
  }

  predicate HandlerOk(s: State, h: nat)
    requires h in s.handlers
  {
    var r := s.handlers[h];
    && r.slot < |s.slots| && s.slots[r.slot].active && s.slots[r.slot].gen == r.gen && s.slots[r.slot].virq == r.virq
    && (r.fd.Some? && r.fd.value.Some? ==>
          var f := r.fd.value.value;
          f in s.fds && (s.slots[r.slot].owner == Some(f) || Works(s.fds[f], r.slot)))
  }

  predicate PcOk(s: State, f: nat)
    requires f in s.fds
  {
    var pc := s.fds[f];
    match pc
    case Idle => true
    case Scanning(_) => true
    case Requesting(i) => i < |s.slots| && Owns(s.slots[i], f) && NoAction(s, i) && NoHandler(s, i)
    case RollingBack(i) => i < |s.slots| && Owns(s.slots[i], f) && NoAction(s, i) && NoHandler(s, i)
    case Marked(i, v, gen, _) =>
      i < |s.slots| && s.slots[i].active && s.slots[i].freeing && s.slots[i].virq == v && s.slots[i].gen == gen
      && HasAction(s, i)
    case Unlinked(i, v, _) =>
      i < |s.slots| && s.slots[i].active && s.slots[i].freeing && s.slots[i].virq == v && NoAction(s, i)
    case Returned(i, _) =>
      i < |s.slots| && s.slots[i].active && s.slots[i].freeing && NoAction(s, i) && NoHandler(s, i)
  }

  ghost predicate Apart(s: State) {
    forall f, g, i :: f in s.fds && g in s.fds && Works(s.fds[f], i) && Works(s.fds[g], i) ==> f == g
  }

  ghost predicate Inv(s: State) {
    && |s.slots| == MAX_ENGINES
    && (forall i :: 0 <= i < |s.slots| ==> SlotOk(s, i))
    && (forall v :: v in s.actions ==> ActionOk(s, v))
    && (forall h :: h in s.handlers ==> HandlerOk(s, h))
    && (forall f :: f in s.fds ==> PcOk(s, f))
    && Apart(s)
    && s.dead !! s.fds.Keys
  }

  /** What the acting file, or the slot a step touches, is known to be. */
  ghost predicate ActorOk(s: State, e: Event)
    requires Enabled(s, e)
  {
    match e
    case Register(f, _, _) => FirstInactive(s.slots, 0) < |s.slots| ==> SlotOk(s, FirstInactive(s.slots, 0))
    case RequestIrq(f, _) => PcOk(s, f)
    case RollBack(f) => PcOk(s, f)
    case Free(f, hwirq) => EngineOf(s.slots, f, hwirq, 0) < |s.slots| ==> SlotOk(s, EngineOf(s.slots, f, hwirq, 0))
    case Unlink(f) => PcOk(s, f)
    case Sync(f) => PcOk(s, f)
    case Clear(f) => PcOk(s, f)
    case Scan(f) => SlotOk(s, s.fds[f].i)
    case Fire(_, v) => ActionOk(s, v)
    case ReadOwner(h) => HandlerOk(s, h) && SlotOk(s, s.handlers[h].slot)
    case _ => true
  }

  lemma SlotStaysAllocating(s: State, e: Event, i: nat)
    requires Inv(s) && Enabled(s, e) && ActorOk(s, e) && i < MAX_ENGINES
    requires e.Register? || e.RequestIrq? || e.RollBack?
    ensures |Apply(s, e).slots| == MAX_ENGINES && SlotOk(Apply(s, e), i)
  {
    hide ActionOk, HandlerOk, Apart;
    assert SlotOk(s, i);
  }

  lemma SlotStaysMarking(s: State, e: Event, i: nat)
    requires Inv(s) && Enabled(s, e) && ActorOk(s, e) && i < MAX_ENGINES
    requires e.Free? || e.Scan?
    ensures |Apply(s, e).slots| == MAX_ENGINES && SlotOk(Apply(s, e), i)
  {
    hide ActionOk, HandlerOk, Apart;
    assert SlotOk(s, i);
  }

  lemma SlotStaysFreeing(s: State, e: Event, i: nat)
    requires Inv(s) && Enabled(s, e) && ActorOk(s, e) && i < MAX_ENGINES
    requires e.Unlink? || e.Sync? || e.Clear?
    ensures |Apply(s, e).slots| == MAX_ENGINES && SlotOk(Apply(s, e), i)
  {
    hide ActionOk, HandlerOk, Apart;
    assert SlotOk(s, i);
  }

  lemma SlotStaysElsewhere(s: State, e: Event, i: nat)
    requires Inv(s) && Enabled(s, e) && ActorOk(s, e) && i < MAX_ENGINES
    requires e.Open? || e.Release? || e.Kill? || e.Fire? || e.ReadOwner? || e.Push?
    ensures |Apply(s, e).slots| == MAX_ENGINES && SlotOk(Apply(s, e), i)
  {
    hide ActionOk, HandlerOk, Apart;
    assert SlotOk(s, i);
  }

  lemma SlotStays(s: State, e: Event, i: nat)
    requires Inv(s) && Enabled(s, e) && ActorOk(s, e) && i < MAX_ENGINES
    ensures |Apply(s, e).slots| == MAX_ENGINES && SlotOk(Apply(s, e), i)
  {
    hide *;
    if e.Register? || e.RequestIrq? || e.RollBack? {
      SlotStaysAllocating(s, e, i);
    } else if e.Free? || e.Scan? {
      SlotStaysMarking(s, e, i);
    } else if e.Unlink? || e.Sync? || e.Clear? {
      SlotStaysFreeing(s, e, i);
    } else {
      SlotStaysElsewhere(s, e, i);
    }
  }

  lemma ActionStaysAllocating(s: State, e: Event, v: nat)
    requires Inv(s) && Enabled(s, e) && ActorOk(s, e) && v in Apply(s, e).actions
    requires e.Register? || e.RequestIrq? || e.RollBack?
    ensures ActionOk(Apply(s, e), v)
  {
    hide HandlerOk, NoHandler, Apart, NotPassed;
    assert v in s.actions ==> ActionOk(s, v);
  }

  lemma ActionStaysFreeing(s: State, e: Event, v: nat)
    requires Inv(s) && Enabled(s, e) && ActorOk(s, e) && v in Apply(s, e).actions
    requires e.Free? || e.Unlink? || e.Sync? || e.Clear? || e.Scan?
    ensures ActionOk(Apply(s, e), v)
  {
    hide HandlerOk, NoHandler, Apart, NotPassed;
    assert v in s.actions ==> ActionOk(s, v);
  }

  lemma ActionStaysElsewhere(s: State, e: Event, v: nat)
    requires Inv(s) && Enabled(s, e) && ActorOk(s, e) && v in Apply(s, e).actions
    requires e.Open? || e.Release? || e.Kill? || e.Fire? || e.ReadOwner? || e.Push?
    ensures ActionOk(Apply(s, e), v)
  {
    hide HandlerOk, NoHandler, Apart, NotPassed;
    assert v in s.actions ==> ActionOk(s, v);
  }

  lemma ActionStays(s: State, e: Event, v: nat)
    requires Inv(s) && Enabled(s, e) && ActorOk(s, e) && v in Apply(s, e).actions
    ensures ActionOk(Apply(s, e), v)
  {
    hide *;
    if e.Register? || e.RequestIrq? || e.RollBack? {
      ActionStaysAllocating(s, e, v);
    } else if e.Free? || e.Unlink? || e.Sync? || e.Clear? || e.Scan? {
      ActionStaysFreeing(s, e, v);
    } else {
      ActionStaysElsewhere(s, e, v);
    }
  }

  lemma HandlerStaysAllocating(s: State, e: Event, h: nat)
    requires Inv(s) && Enabled(s, e) && ActorOk(s, e) && h in Apply(s, e).handlers
    requires e.Register? || e.RequestIrq? || e.RollBack?
    ensures HandlerOk(Apply(s, e), h)
  {
    hide NoAction, HasAction, Apart, NotPassed;
    if h in s.handlers {
      assert HandlerOk(s, h) && SlotOk(s, s.handlers[h].slot);
    }
  }

  lemma HandlerStaysMarking(s: State, e: Event, h: nat)
    requires Inv(s) && Enabled(s, e) && ActorOk(s, e) && h in Apply(s, e).handlers
    requires e.Free? || e.Scan?
    ensures HandlerOk(Apply(s, e), h)
  {
    hide NoAction, HasAction, Apart, NotPassed;
    if h in s.handlers {
      assert HandlerOk(s, h) && SlotOk(s, s.handlers[h].slot);
    }
  }

  lemma HandlerStaysFreeing(s: State, e: Event, h: nat)
    requires Inv(s) && Enabled(s, e) && ActorOk(s, e) && h in Apply(s, e).handlers
    requires e.Unlink? || e.Sync? || e.Clear?
    ensures HandlerOk(Apply(s, e), h)
  {
    hide NoAction, HasAction, Apart, NotPassed;
    if h in s.handlers {
      assert HandlerOk(s, h) && SlotOk(s, s.handlers[h].slot);
    }
  }

  lemma HandlerStaysElsewhere(s: State, e: Event, h: nat)
    requires Inv(s) && Enabled(s, e) && ActorOk(s, e) && h in Apply(s, e).handlers
    requires e.Open? || e.Release? || e.Kill? || e.Fire? || e.ReadOwner? || e.Push?
    ensures HandlerOk(Apply(s, e), h)
  {
    hide NoAction, HasAction, Apart;
    if h in s.handlers {
      assert HandlerOk(s, h) && SlotOk(s, s.handlers[h].slot);
    }
  }

  lemma HandlerStays(s: State, e: Event, h: nat)
    requires Inv(s) && Enabled(s, e) && ActorOk(s, e) && h in Apply(s, e).handlers
    ensures HandlerOk(Apply(s, e), h)
  {
    hide *;
    if e.Register? || e.RequestIrq? || e.RollBack? {
      HandlerStaysAllocating(s, e, h);
    } else if e.Free? || e.Scan? {
      HandlerStaysMarking(s, e, h);
    } else if e.Unlink? || e.Sync? || e.Clear? {
      HandlerStaysFreeing(s, e, h);
    } else {
      HandlerStaysElsewhere(s, e, h);
    }
  }

  predicate IsActor(e: Event, f: nat) {
    (e.Open? || e.Register? || e.RequestIrq? || e.RollBack? || e.Free? || e.Unlink? || e.Sync? || e.Clear?
     || e.Release? || e.Scan? || e.Kill?) && e.f == f
  }

  lemma OwnPcStaysSyncing(s: State, e: Event, f: nat)
    requires Inv(s) && Enabled(s, e) && ActorOk(s, e) && f in Apply(s, e).fds && IsActor(e, f)
    requires e.Sync?
    ensures PcOk(Apply(s, e), f)
  {
    hide SlotOk, ActionOk, Apart;
  }

  lemma OwnPcStaysOtherwise(s: State, e: Event, f: nat)
    requires Inv(s) && Enabled(s, e) && ActorOk(s, e) && f in Apply(s, e).fds && IsActor(e, f)
    requires !e.Sync?
    ensures PcOk(Apply(s, e), f)
  {
    hide HandlerOk, Apart;
  }

  lemma OwnPcStays(s: State, e: Event, f: nat)
    requires Inv(s) && Enabled(s, e) && ActorOk(s, e) && f in Apply(s, e).fds && IsActor(e, f)
    ensures PcOk(Apply(s, e), f)
  {
    hide *;
    if e.Sync? {
      OwnPcStaysSyncing(s, e, f);
    } else {
      OwnPcStaysOtherwise(s, e, f);
    }
  }

  /** The step of one file leaves another file's operation and its slot alone. */
  lemma OtherPcStaysRegistering(s: State, e: Event, f: nat)
    requires Inv(s) && Enabled(s, e) && ActorOk(s, e) && f in s.fds && !IsActor(e, f)
    requires e.Register?
    ensures f in Apply(s, e).fds && PcOk(Apply(s, e), f)
  {
    hide HandlerOk, ActionOk, NotPassed;
    OtherFile(s, f);
  }

  lemma OtherPcStaysRequesting(s: State, e: Event, f: nat)
    requires Inv(s) && Enabled(s, e) && ActorOk(s, e) && f in s.fds && !IsActor(e, f)
    requires e.RequestIrq? || e.RollBack?
    ensures f in Apply(s, e).fds && PcOk(Apply(s, e), f)
  {
    hide HandlerOk, ActionOk, NotPassed;
    OtherFile(s, f);
  }

  lemma OtherPcStaysFreeing(s: State, e: Event, f: nat)
    requires Inv(s) && Enabled(s, e) && ActorOk(s, e) && f in s.fds && !IsActor(e, f)
    requires e.Free?
    ensures f in Apply(s, e).fds && PcOk(Apply(s, e), f)
  {
    hide HandlerOk, ActionOk, NotPassed;
    OtherFile(s, f);
  }

  lemma OtherPcStaysScanning(s: State, e: Event, f: nat)
    requires Inv(s) && Enabled(s, e) && ActorOk(s, e) && f in s.fds && !IsActor(e, f)
    requires e.Scan?
    ensures f in Apply(s, e).fds && PcOk(Apply(s, e), f)
  {
    hide HandlerOk, ActionOk, NotPassed;
    OtherFile(s, f);
  }

  lemma OtherPcStaysUnlinking(s: State, e: Event, f: nat)
    requires Inv(s) && Enabled(s, e) && ActorOk(s, e) && f in s.fds && !IsActor(e, f)
    requires e.Unlink?
    ensures f in Apply(s, e).fds && PcOk(Apply(s, e), f)
  {
    hide HandlerOk, ActionOk, NotPassed;
    OtherFile(s, f);
  }

  lemma OtherPcStaysClearing(s: State, e: Event, f: nat)
    requires Inv(s) && Enabled(s, e) && ActorOk(s, e) && f in s.fds && !IsActor(e, f)
    requires e.Sync? || e.Clear?
    ensures f in Apply(s, e).fds && PcOk(Apply(s, e), f)
  {
    hide HandlerOk, ActionOk, NotPassed;
    OtherFile(s, f);
  }

  lemma OtherPcStaysElsewhere(s: State, e: Event, f: nat)
    requires Inv(s) && Enabled(s, e) && ActorOk(s, e) && f in s.fds && !IsActor(e, f)
    requires e.Open? || e.Release? || e.Kill? || e.Fire? || e.ReadOwner? || e.Push?
    ensures f in Apply(s, e).fds && PcOk(Apply(s, e), f)
  {
    hide HandlerOk, ActionOk, NotPassed;
    OtherFile(s, f);
  }

  lemma OtherFile(s: State, f: nat)
    requires Inv(s) && f in s.fds
    ensures PcOk(s, f)
    ensures !s.fds[f].Idle? && !s.fds[f].Scanning? ==>
              Works(s.fds[f], s.fds[f].slot) && s.fds[f].slot < |s.slots| && SlotOk(s, s.fds[f].slot)
  {
    assert PcOk(s, f);
  }

  lemma OtherPcStays(s: State, e: Event, f: nat)
    requires Inv(s) && Enabled(s, e) && ActorOk(s, e) && f in s.fds && !IsActor(e, f)
    ensures f in Apply(s, e).fds && PcOk(Apply(s, e), f)
  {
    hide *;
    if e.Register? {
      OtherPcStaysRegistering(s, e, f);
    } else if e.RequestIrq? || e.RollBack? {
      OtherPcStaysRequesting(s, e, f);
    } else if e.Free? {
      OtherPcStaysFreeing(s, e, f);
    } else if e.Scan? {
      OtherPcStaysScanning(s, e, f);
    } else if e.Unlink? {
      OtherPcStaysUnlinking(s, e, f);
    } else if e.Sync? || e.Clear? {
      OtherPcStaysClearing(s, e, f);
    } else {
      OtherPcStaysElsewhere(s, e, f);
    }
  }

  lemma ApartStaysAllocating(s: State, e: Event)
    requires Inv(s) && Enabled(s, e) && ActorOk(s, e)
    requires e.Register? || e.RequestIrq? || e.RollBack?
    ensures Apart(Apply(s, e))
  {
    hide HandlerOk, ActionOk, NoAction, NoHandler, HasAction, NotPassed;
  }

  lemma ApartStaysFreeing(s: State, e: Event)
    requires Inv(s) && Enabled(s, e) && ActorOk(s, e)
    requires e.Free? || e.Unlink? || e.Sync? || e.Clear? || e.Scan?
    ensures Apart(Apply(s, e))
  {
    hide HandlerOk, ActionOk, NoAction, NoHandler, HasAction, NotPassed;
  }

  lemma ApartStaysElsewhere(s: State, e: Event)
    requires Inv(s) && Enabled(s, e) && ActorOk(s, e)
    requires e.Open? || e.Release? || e.Kill? || e.Fire? || e.ReadOwner? || e.Push?
    ensures Apart(Apply(s, e))
  {
    hide HandlerOk, ActionOk, NoAction, NoHandler, HasAction, NotPassed;
  }

  lemma ApartStays(s: State, e: Event)
    requires Inv(s) && Enabled(s, e) && ActorOk(s, e)
    ensures Apart(Apply(s, e))
  {
    hide *;
    if e.Register? || e.RequestIrq? || e.RollBack? {
      ApartStaysAllocating(s, e);
    } else if e.Free? || e.Unlink? || e.Sync? || e.Clear? || e.Scan? {
      ApartStaysFreeing(s, e);
    } else {
      ApartStaysElsewhere(s, e);
    }
  }

  lemma ActorIsOk(s: State, e: Event)
    requires Inv(s) && Enabled(s, e)
    ensures ActorOk(s, e)
  {
    if e.ReadOwner? {
      assert HandlerOk(s, e.h);
    }
  }

  lemma {:induction false} StepKeepsInv(s: State, e: Event)
    requires Inv(s) && Enabled(s, e)
    ensures Inv(Apply(s, e))
  {
    var t := Apply(s, e);
    ActorIsOk(s, e);
    DeadStayDead(s, e);
    ApartStays(s, e);
    SlotStays(s, e, 0);
    forall i | 0 <= i < |t.slots|
      ensures SlotOk(t, i)
    {
      SlotStays(s, e, i);
    }
    forall v | v in t.actions
      ensures ActionOk(t, v)
    {
      ActionStays(s, e, v);
    }
    forall h | h in t.handlers
      ensures HandlerOk(t, h)
    {
      HandlerStays(s, e, h);
    }
    forall f | f in t.fds
      ensures PcOk(t, f)
    {
      if IsActor(e, f) {
        OwnPcStays(s, e, f);
      } else {
        KnownFile(s, e, f);
        OtherPcStays(s, e, f);
      }
    }
    hide Apply, Enabled, ActorOk, SlotOk, ActionOk, HandlerOk, PcOk, Apart;
  }

  lemma KnownFile(s: State, e: Event, f: nat)
    requires Enabled(s, e) && f in Apply(s, e).fds && !IsActor(e, f)
    ensures f in s.fds
  {
  }

  lemma DeadStayDead(s: State, e: Event)
    requires Enabled(s, e) && s.dead !! s.fds.Keys
    ensures Apply(s, e).dead !! Apply(s, e).fds.Keys
  {
  }

  function Exec(s: State, es: seq<Event>): State {
    if es == [] then s
    else
      var t := Exec(s, es[..|es| - 1]);
      if Enabled(t, es[|es| - 1]) then Apply(t, es[|es| - 1]) else t
  }

  predicate Legal(s: State, es: seq<Event>) {
    es == [] || (Legal(s, es[..|es| - 1]) && Enabled(Exec(s, es[..|es| - 1]), es[|es| - 1]))
  }

  lemma {:induction false} RunKeepsInv(es: seq<Event>)
    requires Legal(Boot(), es)
    ensures Inv(Exec(Boot(), es))
    decreases |es|
  {
    if es == [] {
      assert forall i :: 0 <= i < MAX_ENGINES ==> SlotOk(Boot(), i);
    } else {
      var n := |es| - 1;
      RunKeepsInv(es[..n]);
      StepKeepsInv(Exec(Boot(), es[..n]), es[n]);
    }
  }

  // ---- what follows, at every point of every run ----

  /**
   * A registration disappears only by the free_irq issued for it: the file whose call removes it had marked that
   * very registration of that very slot, and the call removes nothing else.
   */
  lemma {:induction false} FreeRemovesItsOwnRegistration(es: seq<Event>, e: Event, v: nat)
    requires Legal(Boot(), es) && Enabled(Exec(Boot(), es), e) && v in Exec(Boot(), es).actions
    ensures var s := Exec(Boot(), es);
            var t, a := Apply(s, e), s.actions[v];
            (v !in t.actions || t.actions[v] != a) <==>
            e.Unlink? && s.fds[e.f].slot == a.slot && s.fds[e.f].virq == v && s.fds[e.f].gen == a.gen
    ensures var s := Exec(Boot(), es);
            e.Unlink? ==> s.fds[e.f].virq in s.actions
                          && s.actions[s.fds[e.f].virq] == Action(s.fds[e.f].slot, s.fds[e.f].gen)
  {
    RunKeepsInv(es);
    var s := Exec(Boot(), es);
    assert ActionOk(s, v);
    if e.Unlink? {
      assert PcOk(s, e.f);
    }
    hide Exec, Legal, Inv;
  }

  /** A slot REGISTER takes is nobody's: no free_irq on it is in flight, and no action or handler uses it. */
  lemma {:induction false} SlotIsNotReusedEarly(es: seq<Event>, f: nat, g: nat)
    requires Legal(Boot(), es)
    ensures var s := Exec(Boot(), es);
            var i := FirstInactive(s.slots, 0);
            i < |s.slots| ==> NoAction(s, i) && NoHandler(s, i) && (g in s.fds ==> !Works(s.fds[g], i))
  {
    RunKeepsInv(es);
    var s := Exec(Boot(), es);
    var i := FirstInactive(s.slots, 0);
    if i < |s.slots| {
      assert SlotOk(s, i);
    }
    if g in s.fds {
      assert PcOk(s, g);
    }
    hide Exec, Legal;
  }

  /** A handler that is about to queue an event queues it to a file that is still open. */
  lemma {:induction false} HandlersPushToLiveFiles(es: seq<Event>, h: nat)
    requires Legal(Boot(), es) && Enabled(Exec(Boot(), es), Push(h))
    ensures var s := Exec(Boot(), es);
            var fd := s.handlers[h].fd.value;
            fd.Some? ==> fd.value in s.fds && fd.value !in s.dead
  {
    RunKeepsInv(es);
    assert HandlerOk(Exec(Boot(), es), h);
  }

  /** When a file's structure is freed no slot refers to it, and no handler, however long it has been running. */
  lemma {:induction false} FreedFileIsForgotten(es: seq<Event>, f: nat)
    requires Legal(Boot(), es) && f in Exec(Boot(), es).dead
    ensures var s := Exec(Boot(), es);
            && (forall i :: 0 <= i < |s.slots| ==> s.slots[i].owner != Some(f))
            && (forall h :: h in s.handlers ==> s.handlers[h].fd != Some(Some(f)))
  {
    RunKeepsInv(es);
    var s := Exec(Boot(), es);
    forall i | 0 <= i < |s.slots|
      ensures s.slots[i].owner != Some(f)
    {
      assert SlotOk(s, i);
    }
    forall h | h in s.handlers
      ensures s.handlers[h].fd != Some(Some(f))
    {
      assert HandlerOk(s, h);
    }
    hide Exec, Legal;
  }

  // ---- what a registration is good for ----

  /** Every slot but i is as it was. */
  predicate OtherSlotsSame(s: State, t: State, i: nat) {
    |t.slots| == |s.slots| && forall j :: 0 <= j < |s.slots| && j != i ==> t.slots[j] == s.slots[j]
  }

  /**
   * REGISTER takes a slot whenever one is unused, for the calling file and the lines it asked for, and installs the
   * handler if the line is free; if request_irq fails the slot is unused again and nothing is installed.
   */
  lemma {:induction false} RegisterInstalls(es: seq<Event>, f: nat, hwirq: nat, virq: nat, ok: bool)
    requires Legal(Boot(), es) && Enabled(Exec(Boot(), es), Register(f, hwirq, virq))
    requires exists i :: 0 <= i < |Exec(Boot(), es).slots| && !Exec(Boot(), es).slots[i].active
    ensures Installed(Exec(Boot(), es), f, hwirq, virq, ok)
  {
    RunKeepsInv(es);
    var s := Exec(Boot(), es);
    hide Exec, Legal, Installed;
    var k := FirstInactive(s.slots, 0);
    assert k < |s.slots| && SlotOk(s, k);
    hide Inv, SlotOk;
    TwoStepsInstall(s, f, hwirq, virq, ok);
  }

  /** The two steps of REGISTER, and the third when request_irq fails. */
  predicate Installed(s: State, f: nat, hwirq: nat, virq: nat, ok: bool) {
    Enabled(s, Register(f, hwirq, virq)) &&
    var t := Apply(s, Register(f, hwirq, virq));
    f in t.fds && t.fds[f].Requesting? && Enabled(t, RequestIrq(f, ok)) &&
    var i, u := t.fds[f].slot, Apply(t, RequestIrq(f, ok));
    && i < |s.slots| && !s.slots[i].active && OtherSlotsSame(s, t, i) && OtherSlotsSame(s, u, i) && f in u.fds
    && (if ok && virq !in s.actions then
          && u.fds[f].Idle? && Owns(u.slots[i], f) && u.slots[i].hwirq == hwirq && u.slots[i].virq == virq
          && u.actions == s.actions[virq := Action(i, u.slots[i].gen)]
        else
          u.actions == s.actions && Enabled(u, RollBack(f)) &&
          var v := Apply(u, RollBack(f));
          |v.slots| == |s.slots| && !v.slots[i].active && f in v.fds && v.fds[f].Idle?)
  }

  lemma TwoStepsInstall(s: State, f: nat, hwirq: nat, virq: nat, ok: bool)
    requires Enabled(s, Register(f, hwirq, virq)) && FirstInactive(s.slots, 0) < |s.slots|
    requires !s.slots[FirstInactive(s.slots, 0)].freeing
    ensures Installed(s, f, hwirq, virq, ok)
  {
    hide FirstInactive;
  }

  /** A handler reads the owner of its slot: the file that registered it, or nobody once the slot is being freed. */
  lemma {:induction false} HandlerReadsItsFile(es: seq<Event>, h: nat)
    requires Legal(Boot(), es) && Enabled(Exec(Boot(), es), ReadOwner(h))
    ensures var s := Exec(Boot(), es);
            var slot, fd := s.slots[s.handlers[h].slot], Apply(s, ReadOwner(h)).handlers[h].fd;
            && slot.active && slot.virq == s.handlers[h].virq && slot.gen == s.handlers[h].gen
            && (slot.freeing <==> fd == Some(None))
            && (!slot.freeing ==> fd.Some? && fd.value.Some? && Owns(slot, fd.value.value))
  {
    RunKeepsInv(es);
    var s := Exec(Boot(), es);
    assert HandlerOk(s, h) && SlotOk(s, s.handlers[h].slot);
    hide Exec, Legal, Inv, NoAction, NoHandler, HasAction, NotPassed;
  }

  /**
   * An interrupt on a registered line, with no free under way, is on its way to the file that registered it; its
   * handler ends with everything else as it was.
   */
  lemma {:induction false} InterruptReachesItsFile(es: seq<Event>, h: nat, virq: nat)
    requires Legal(Boot(), es) && Enabled(Exec(Boot(), es), Fire(h, virq))
    ensures var s := Exec(Boot(), es);
            virq in s.actions && s.actions[virq].slot < |s.slots| &&
            var slot, t := s.slots[s.actions[virq].slot], Apply(s, Fire(h, virq));
            && slot.active && slot.virq == virq && Enabled(t, ReadOwner(h))
            && var u := Apply(t, ReadOwner(h));
            && Enabled(u, Push(h)) && Apply(u, Push(h)) == s
            && (!slot.freeing ==>
                  && u.handlers[h].fd.Some? && u.handlers[h].fd.value.Some?
                  && Owns(slot, u.handlers[h].fd.value.value))
  {
    RunKeepsInv(es);
    var s := Exec(Boot(), es);
    assert Apply(Apply(Apply(s, Fire(h, virq)), ReadOwner(h)), Push(h)).handlers == s.handlers;
    assert ActionOk(s, virq) && SlotOk(s, s.actions[virq].slot);
    hide Exec, Legal, Inv, NoAction, NoHandler, HasAction, NotPassed;
  }

  /**
   * FREE of a line the file has registered ends with the slot unused, the action gone and nothing else changed, once no
   * handler runs on the line; FREE of a line it has not registered changes nothing.
   */
  lemma {:induction false} FreeReleases(es: seq<Event>, f: nat, hwirq: nat)
    requires Legal(Boot(), es) && Enabled(Exec(Boot(), es), Free(f, hwirq)) && Exec(Boot(), es).handlers == map[]
    ensures var s := Exec(Boot(), es);
            if exists i :: 0 <= i < |s.slots| && Owns(s.slots[i], f) && s.slots[i].hwirq == hwirq then
              Freed(s, f, hwirq)
            else Apply(s, Free(f, hwirq)) == s
  {
    RunKeepsInv(es);
    var s := Exec(Boot(), es);
    hide Exec, Legal;
    var k := EngineOf(s.slots, f, hwirq, 0);
    if k < |s.slots| {
      assert SlotOk(s, k);
      assert Owns(s.slots[k], f) && s.slots[k].hwirq == hwirq;
      FourStepsFree(s, f, hwirq);
    }
  }

  /** The four steps of a free are enabled one after the other, and undo the registration. */
  predicate Freed(s: State, f: nat, hwirq: nat) {
    Enabled(s, Free(f, hwirq)) &&
    var t := Apply(s, Free(f, hwirq));
    Enabled(t, Unlink(f)) &&
    var u := Apply(t, Unlink(f));
    Enabled(u, Sync(f)) &&
    var v := Apply(u, Sync(f));
    Enabled(v, Clear(f)) &&
    var w, i := Apply(v, Clear(f)), t.fds[f].slot;
    && i < |s.slots| && Owns(s.slots[i], f) && s.slots[i].hwirq == hwirq
    && !w.slots[i].active && !w.slots[i].freeing && OtherSlotsSame(s, w, i)
    && w.actions == s.actions - {s.slots[i].virq} && w.fds == s.fds[f := Idle]
  }

  lemma {:induction false} FourStepsFree(s: State, f: nat, hwirq: nat)
    requires Inv(s) && Enabled(s, Free(f, hwirq)) && s.handlers == map[]
    requires EngineOf(s.slots, f, hwirq, 0) < |s.slots|
    ensures Freed(s, f, hwirq)
  {
    var k := EngineOf(s.slots, f, hwirq, 0);
    assert SlotOk(s, k);
    assert !Works(s.fds[f], k) && HasAction(s, k);
  }

  // ---- a release comes to its end ----

  /** The operation is a release under way. */
  predicate Releasing(pc: Pc) {
    match pc
    case Scanning(_) => true
    case Marked(_, _, _, rel) => rel
    case Unlinked(_, _, rel) => rel
    case Returned(_, rel) => rel
    case _ => false
  }

  /** What a release does next. */
  function NextStep(s: State, f: nat): Event
    requires f in s.fds
  {
    match s.fds[f]
    case Scanning(i) => if i < 32 then Scan(f) else Kill(f)
    case Marked(_, _, _, _) => Unlink(f)
    case Unlinked(_, _, _) => Sync(f)
    case _ => Clear(f)
  }

  /** At most so many steps of a release are left. */
  function StepsLeft(pc: Pc): int {
    match pc
    case Scanning(i) => if i < 32 then 4 * (32 - i) + 1 else 1
    case Marked(i, _, _, _) => 4 * (32 - i)
    case Unlinked(i, _, _) => 4 * (32 - i) - 1
    case Returned(i, _) => 4 * (32 - i) - 2
    case _ => 0
  }

  /**
   * A release waits for nothing but a handler running on the line it is freeing; each step of its own brings it nearer
   * its end, nobody else's step sets it back, and at the end the file is gone.
   */
  lemma {:induction false} ReleaseProceeds(es: seq<Event>, f: nat, e: Event)
    requires Legal(Boot(), es) && f in Exec(Boot(), es).fds && Releasing(Exec(Boot(), es).fds[f])
    requires Enabled(Exec(Boot(), es), e)
    ensures var s := Exec(Boot(), es);
            var next := NextStep(s, f);
            && StepsLeft(s.fds[f]) > 0
            && (Enabled(s, next) <==>
                  (next.Sync? ==> forall h :: h in s.handlers ==> s.handlers[h].virq != s.fds[f].virq))
            && (e == next ==> Nearer(s, Apply(s, e), f))
            && (e != next ==> f in Apply(s, e).fds && Apply(s, e).fds[f] == s.fds[f])
  {
    RunKeepsInv(es);
    var s := Exec(Boot(), es);
    assert PcOk(s, f) && |s.slots| == 32;
    hide *;
    ReleaseStep(s, f, e);
    ReleaseWaits(s, f);
  }

  lemma ReleaseStep(s: State, f: nat, e: Event)
    requires f in s.fds && Releasing(s.fds[f]) && Enabled(s, e) && PcOk(s, f) && |s.slots| == 32
    ensures e == NextStep(s, f) ==> Nearer(s, Apply(s, e), f)
    ensures e != NextStep(s, f) ==> f in Apply(s, e).fds && Apply(s, e).fds[f] == s.fds[f]
  {
    hide NoAction, NoHandler, HasAction, FirstInactive, EngineOf, Owns;
  }

  lemma ReleaseWaits(s: State, f: nat)
    requires f in s.fds && Releasing(s.fds[f]) && PcOk(s, f) && |s.slots| == 32
    ensures StepsLeft(s.fds[f]) > 0
    ensures var next := NextStep(s, f);
            Enabled(s, next) <==>
            (next.Sync? ==> forall h :: h in s.handlers ==> s.handlers[h].virq != s.fds[f].virq)
  {
    hide NoAction, NoHandler, HasAction, Owns;
  }

  /** The release has taken its last step and the file is gone, or it has fewer steps left. */
  predicate Nearer(s: State, t: State, f: nat)
    requires f in s.fds
  {
    if f in t.fds then Releasing(t.fds[f]) && StepsLeft(t.fds[f]) < StepsLeft(s.fds[f])
    else NextStep(s, f).Kill? && f in t.dead
  }

  // ---- the event ring of an open file ----

  datatype Note = Note(hwirq: nat, time: nat)

  /** A 64-entry ring that keeps one slot empty: 63 events, later ones dropped. */
  class EventRing {
    const buf: array<Note>
    var head: nat
    var tail: nat

    ghost predicate Valid()
      reads this
    {
      buf.Length == RING && head < RING && tail < RING
    }

    /** The queued events, oldest first. */
    ghost function Queued(): (q: seq<Note>)
      reads this, buf
      requires Valid()
      ensures |q| < RING
    {
      if tail <= head then buf[tail..head] else buf[tail..] + buf[..head]
    }

    constructor ()
      ensures Valid() && fresh(buf) && Queued() == []
    {
      buf := new Note[RING](_ => Note(0, 0));
      head, tail := 0, 0;
    }

    /** The handler's part. */
    method Push(hwirq: nat, now: nat)
      requires Valid()
      modifies this`head, buf
      ensures Valid()
      ensures Queued() == old(Queued()) + if |old(Queued())| < RING - 1 then [Note(hwirq, now)] else []
    {
      var next := (head + 1) % RING;
      if next != tail {
        ghost var q := Queued();
        buf[head] := Note(hwirq, now);
        head := next;
        assert Queued() == q + [Note(hwirq, now)];
      }
    }

    /** The wait ioctl's part, once something is queued. */
    method Pop() returns (e: Note)
      requires Valid() && Queued() != []
      modifies this`tail
      ensures Valid() && [e] + Queued() == old(Queued())
    {
      e := buf[tail];
      ghost var q := Queued();
      assert (tail + 1) % RING == if tail == RING - 1 then 0 else tail + 1;
      tail := (tail + 1) % RING;
      assert Queued() == q[1..];
    }
  }
}
