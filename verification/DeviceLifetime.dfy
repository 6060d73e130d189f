/**
 * fd operations racing with device removal (modules/artosyn_sdio.c): the reference count, the active-operation
 * count and the removed flag, stepped one atomic access at a time, for any number of threads and open files.
 */
module DeviceLifetime {

  /** Where a thread is in an fd operation bracketed by artosyn_op_enter and artosyn_op_exit. */
  datatype Pc =
    | Called      // about to increment active_ops
    | Counted     // about to test removed
    | Inside      // may use func and ndev
    | Bailing     // saw removed, about to decrement
    | Emptied(bail: bool)  // its decrement reached zero, about to signal

  datatype Op = Op(fd: nat, pc: Pc)

  /** Where remove() is: artosyn_quiesce, then teardown, then the probe reference. */
  datatype Remover = Live | Sampling | Waiting | Quiet | TornDown | Deregistered | Gone

  datatype Dev = Dev(refs: nat, activeOps: nat, removed: bool, drained: nat, freed: nat,
                     files: set<nat>, ops: map<nat, Op>, remover: Remover)

  datatype Step =
    | Open(fd: nat)
    | Close(fd: nat)
    | Call(t: nat, fd: nat)
    | Increment(t: nat)
    | TestRemoved(t: nat)
    | Leave(t: nat)
    | Signal(t: nat)
    | MarkRemoved
    | Sample
    | Wake
    | TimeOut
    | TearDown
    | Deregister
    | PutProbe

  function Probed(): Dev {
    Dev(1, 0, false, 0, 0, {}, map[], Live)
  }

  /** An operation this thread has counted and not yet given back. */
  predicate Holds(pc: Pc) {
    pc in {Counted, Inside, Bailing}
  }

  predicate At(d: Dev, t: nat, pc: Pc) {
    t in d.ops && d.ops[t].pc == pc
  }

  predicate Enabled(d: Dev, s: Step) {
    match s
    case Open(fd) => fd !in d.files && d.remover !in {Deregistered, Gone}
    case Close(fd) => fd in d.files && forall t :: t in d.ops ==> d.ops[t].fd != fd
    case Call(t, fd) => t !in d.ops && fd in d.files
    case Increment(t) => At(d, t, Called)
    case TestRemoved(t) => At(d, t, Counted)
    case Leave(t) => At(d, t, Inside) || At(d, t, Bailing)
    case Signal(t) => t in d.ops && d.ops[t].pc.Emptied?
    case MarkRemoved => d.remover == Live
    case Sample => d.remover == Sampling
    case Wake => d.remover == Waiting && d.drained > 0
    case TimeOut => d.remover == Waiting
    case TearDown => d.remover == Quiet
    case Deregister => d.remover == TornDown
    case PutProbe => d.remover == Deregistered
  }

  function SetPc(d: Dev, t: nat, pc: Pc): Dev
    requires t in d.ops
  {
    d.(ops := d.ops[t := d.ops[t].(pc := pc)])
  }

  /** artosyn_dev_put. */
  function Put(d: Dev): Dev {
    if d.refs == 1 then d.(refs := 0, freed := d.freed + 1)
    else d.(refs := if d.refs > 0 then d.refs - 1 else 0)
  }

  function Apply(d: Dev, s: Step): Dev
    requires Enabled(d, s)
  {
    match s
    case Open(fd) => d.(refs := d.refs + 1, files := d.files + {fd})
    case Close(fd) => Put(d.(files := d.files - {fd}))
    case Call(t, fd) => d.(ops := d.ops[t := Op(fd, Called)])
    case Increment(t) => SetPc(d, t, Counted).(activeOps := d.activeOps + 1)
    case TestRemoved(t) => SetPc(d, t, if d.removed then Bailing else Inside)
    case Leave(t) =>
      var n := if d.activeOps > 0 then d.activeOps - 1 else 0;
      if n == 0 then SetPc(d, t, Emptied(d.ops[t].pc == Bailing)).(activeOps := n)
      else d.(ops := d.ops - {t}, activeOps := n)
    case Signal(t) =>
      d.(ops := d.ops - {t}, drained := d.drained + if d.ops[t].pc.bail || d.removed then 1 else 0)
    case MarkRemoved => d.(removed := true, remover := Sampling)
    case Sample => d.(remover := if d.activeOps == 0 then Quiet else Waiting)
    case Wake => d.(remover := Sampling, drained := if d.drained > 0 then d.drained - 1 else 0)
    case TimeOut => d.(remover := Sampling)
    case TearDown => d.(remover := TornDown)
    case Deregister => d.(remover := Deregistered)
    case PutProbe => Put(d).(remover := Gone)
  }

  // ---- counting ----

  function Holders(ops: map<nat, Op>): set<nat> {
    set t | t in ops && Holds(ops[t].pc)
  }

  lemma HoldersAfterSet(ops: map<nat, Op>, t: nat, op: Op)
    ensures |Holders(ops[t := op])|
         == |Holders(ops)| + (if Holds(op.pc) then 1 else 0) - (if t in ops && Holds(ops[t].pc) then 1 else 0)
  {
    var was, now := Holders(ops), Holders(ops[t := op]);
    if Holds(op.pc) {
      assert now == was + {t};
    } else {
      assert now == was - {t};
    }
  }

  lemma HoldersAfterDrop(ops: map<nat, Op>, t: nat)
    requires t in ops
    ensures |Holders(ops - {t})| == |Holders(ops)| - if Holds(ops[t].pc) then 1 else 0
  {
    assert Holders(ops - {t}) == Holders(ops) - {t};
  }

  // ---- the invariant ----

  predicate Quiesced(d: Dev) {
    d.remover in {Quiet, TornDown, Deregistered, Gone}
  }

  predicate SomeSignaller(ops: map<nat, Op>) {
    exists t :: t in ops && ops[t].pc.Emptied?
  }

  predicate Inv(d: Dev) {
    && d.activeOps == |Holders(d.ops)|
    && (d.removed <==> d.remover != Live)
    && (Quiesced(d) ==> forall t :: t in d.ops ==> d.ops[t].pc != Inside)
    && (forall t :: t in d.ops ==> d.ops[t].fd in d.files)
    && d.refs == |d.files| + (if d.remover == Gone then 0 else 1)
    && d.freed == (if d.refs == 0 then 1 else 0)
    && (d.remover == Waiting ==> d.drained > 0 || d.activeOps > 0 || SomeSignaller(d.ops))
  }

  lemma NoHolders(ops: map<nat, Op>, t: nat)
    requires |Holders(ops)| == 0 && t in ops
    ensures !Holds(ops[t].pc)
  {
    assert t !in Holders(ops);
  }

  lemma LeaveKeepsInv(d: Dev, t: nat)
    requires Inv(d) && Enabled(d, Leave(t))
    ensures Inv(Apply(d, Leave(t)))
  {
    assert t in Holders(d.ops);
    var n := d.activeOps - 1;
    if n == 0 {
      var op := d.ops[t].(pc := Emptied(d.ops[t].pc == Bailing));
      HoldersAfterSet(d.ops, t, op);
      assert d.ops[t := op][t].pc.Emptied?;
    } else {
      HoldersAfterDrop(d.ops, t);
    }
  }

  lemma SignalKeepsInv(d: Dev, t: nat)
    requires Inv(d) && Enabled(d, Signal(t))
    ensures Inv(Apply(d, Signal(t)))
  {
    HoldersAfterDrop(d.ops, t);
  }

  lemma ClosingKeepsInv(d: Dev, fd: nat)
    requires Inv(d) && Enabled(d, Close(fd))
    ensures Inv(Apply(d, Close(fd)))
  {
    assert |d.files - {fd}| == |d.files| - 1;
  }

  lemma SignallerStays(ops: map<nat, Op>, t: nat, op: Op)
    requires SomeSignaller(ops) && (t in ops ==> !ops[t].pc.Emptied?)
    ensures SomeSignaller(ops[t := op])
  {
    var s :| s in ops && ops[s].pc.Emptied?;
    assert s in ops[t := op] && ops[t := op][s].pc.Emptied?;
  }

  lemma SetPcKeepsInv(d: Dev, s: Step)
    requires Inv(d) && Enabled(d, s) && (s.Call? || s.Increment? || s.TestRemoved?)
    ensures Inv(Apply(d, s))
  {
    var d' := Apply(d, s);
    var t := s.t;
    HoldersAfterSet(d.ops, t, d'.ops[t]);
    if SomeSignaller(d.ops) {
      SignallerStays(d.ops, t, d'.ops[t]);
    }
  }

  lemma {:induction false} StepKeepsInv(d: Dev, s: Step)
    requires Inv(d) && Enabled(d, s)
    ensures Inv(Apply(d, s))
  {
    match s {
      case Leave(t) => LeaveKeepsInv(d, t);
      case Signal(t) => SignalKeepsInv(d, t);
      case Close(fd) => ClosingKeepsInv(d, fd);
      case Call(t, fd) => SetPcKeepsInv(d, s);
      case Increment(t) => SetPcKeepsInv(d, s);
      case TestRemoved(t) => SetPcKeepsInv(d, s);
      case Sample =>
        if d.activeOps == 0 {
          forall t | t in d.ops
            ensures d.ops[t].pc != Inside
          {
            NoHolders(d.ops, t);
          }
        }
      case _ =>
    }
  }

  /** A run: a sequence of states from a fresh probe, each reached by an enabled step. */
  predicate Run(ds: seq<Dev>, ss: seq<Step>) {
    && |ds| == |ss| + 1 && ds[0] == Probed()
    && forall i {:trigger ss[i]} :: 0 <= i < |ss| ==> Enabled(ds[i], ss[i]) && ds[i + 1] == Apply(ds[i], ss[i])
  }

  lemma {:induction false} RunKeepsInv(ds: seq<Dev>, ss: seq<Step>, i: nat)
    requires Run(ds, ss) && i < |ds|
    ensures Inv(ds[i])
  {
    if i == 0 {
      assert Holders(map[]) == {};
    } else {
      RunKeepsInv(ds, ss, i - 1);
      StepKeepsInv(ds[i - 1], ss[i - 1]);
    }
  }

  /** The remover never goes back to before the quiesce. */
  lemma {:induction false} QuietForever(ds: seq<Dev>, ss: seq<Step>, i: nat, j: nat)
    requires Run(ds, ss) && i <= j < |ds| && Quiesced(ds[i])
    ensures Quiesced(ds[j])
  {
    if i < j {
      QuietForever(ds, ss, i, j - 1);
      assert Enabled(ds[j - 1], ss[j - 1]) && ds[j] == Apply(ds[j - 1], ss[j - 1]);
    }
  }

  /**
   * Removal safety: once the quiesce has sampled active_ops at zero, no operation that passed the removed check
   * is inside the driver, and none ever is again, so nothing uses func or ndev during or after the teardown.
   */
  lemma {:induction false} NobodyInsideAfterQuiesce(ds: seq<Dev>, ss: seq<Step>, i: nat, j: nat, t: nat)
    requires Run(ds, ss) && i < |ss| && i < j < |ds|
    requires ss[i].Sample? && ds[i].activeOps == 0
    ensures !At(ds[j], t, Inside)
  {
    assert ds[i + 1] == Apply(ds[i], ss[i]);
    QuietForever(ds, ss, i + 1, j);
    RunKeepsInv(ds, ss, j);
  }

  /** Nor is anyone inside at any point of the teardown, however removal got there. */
  lemma NobodyInsideTornDown(ds: seq<Dev>, ss: seq<Step>, j: nat, t: nat)
    requires Run(ds, ss) && j < |ds| && ds[j].remover in {TornDown, Deregistered, Gone}
    ensures !At(ds[j], t, Inside)
  {
    RunKeepsInv(ds, ss, j);
  }

  /**
   * The structure is freed at most once, exactly when the probe reference and every open file are gone, and no
   * operation is in progress then.
   */
  lemma {:induction false} FreedExactlyOnce(ds: seq<Dev>, ss: seq<Step>, j: nat)
    requires Run(ds, ss) && j < |ds|
    ensures ds[j].freed <= 1
    ensures ds[j].freed == 1 <==> ds[j].remover == Gone && ds[j].files == {}
    ensures ds[j].freed == 1 ==> ds[j].ops == map[]
  {
    RunKeepsInv(ds, ss, j);
    var d := ds[j];
    assert d.files == {} <==> |d.files| == 0;
    if d.ops.Keys != {} {
      var t :| t in d.ops.Keys;
      assert d.ops[t].fd in d.files;
    }
  }

  /** The one-second timeout never has to end the wait: a wake-up has been sent, is being sent, or will be. */
  lemma {:induction false} NoLostWakeup(ds: seq<Dev>, ss: seq<Step>, j: nat)
    requires Run(ds, ss) && j < |ds| && ds[j].remover == Waiting && ds[j].activeOps == 0
    ensures ds[j].drained > 0 || exists t :: t in ds[j].ops && ds[j].ops[t].pc.Emptied?
                                             && Apply(ds[j], Signal(t)).drained == ds[j].drained + 1
  {
    RunKeepsInv(ds, ss, j);
    if ds[j].drained == 0 {
      var t :| t in ds[j].ops && ds[j].ops[t].pc.Emptied?;
      assert Apply(ds[j], Signal(t)).drained == ds[j].drained + 1;
    }
  }

  // ---- what live devices allow, and how removal ends ----

  /** An operation gets inside a live device, and is turned away once the device is marked removed. */
  lemma {:induction false} EntersIffLive(ds: seq<Dev>, ss: seq<Step>, j: nat, t: nat)
    requires Run(ds, ss) && j < |ds| && At(ds[j], t, Counted)
    ensures Enabled(ds[j], TestRemoved(t))
    ensures At(Apply(ds[j], TestRemoved(t)), t, Inside) <==> ds[j].remover == Live
    ensures At(Apply(ds[j], TestRemoved(t)), t, Bailing) <==> ds[j].remover != Live
  {
    RunKeepsInv(ds, ss, j);
  }

  /** The quiesce ends at the first sample with no operation under way, and then the removal runs to its end. */
  lemma {:induction false} RemovalEnds(ds: seq<Dev>, ss: seq<Step>, j: nat)
    requires Run(ds, ss) && j < |ds| && ds[j].remover == Sampling
    ensures var d := Apply(ds[j], Sample);
            && (d.remover == Quiet <==> forall t :: t in ds[j].ops ==> !Holds(ds[j].ops[t].pc))
            && (d.remover == Waiting <==> exists t :: t in ds[j].ops && Holds(ds[j].ops[t].pc))
            && (d.remover == Quiet ==>
                  Enabled(d, TearDown) && Enabled(Apply(d, TearDown), Deregister) &&
                  var u := Apply(Apply(d, TearDown), Deregister);
                  Enabled(u, PutProbe) && Apply(u, PutProbe).remover == Gone
                  && (ds[j].files == {} ==> Apply(u, PutProbe).freed == 1))
  {
    RunKeepsInv(ds, ss, j);
    if ds[j].activeOps == 0 {
      forall t | t in ds[j].ops
        ensures !Holds(ds[j].ops[t].pc)
      {
        NoHolders(ds[j].ops, t);
      }
    } else {
      var t :| t in Holders(ds[j].ops);
      assert t in ds[j].ops && Holds(ds[j].ops[t].pc);
    }
  }

  /**
   * A quiesce that waits samples again after a completion, which it takes, or after a time-out, which it need not; if
   * every operation has left by then, that sample ends it.
   */
  lemma {:induction false} WaitSamplesAgain(ds: seq<Dev>, ss: seq<Step>, j: nat)
    requires Run(ds, ss) && j < |ds| && ds[j].remover == Waiting
    ensures var d := ds[j];
            && Enabled(d, TimeOut) && (Enabled(d, Wake) <==> d.drained > 0)
            && Apply(d, TimeOut) == d.(remover := Sampling)
            && (Enabled(d, Wake) ==> Apply(d, Wake) == d.(remover := Sampling, drained := d.drained - 1))
            && (Apply(Apply(d, TimeOut), Sample).remover == Quiet <==> forall t :: t in d.ops ==> !Holds(d.ops[t].pc))
  {
    RunKeepsInv(ds, ss, j);
    if ds[j].activeOps == 0 {
      forall t | t in ds[j].ops
        ensures !Holds(ds[j].ops[t].pc)
      {
        NoHolders(ds[j].ops, t);
      }
    } else {
      var t :| t in Holders(ds[j].ops);
      assert t in ds[j].ops && Holds(ds[j].ops[t].pc);
    }
  }
}
