/** Runs that interleave list rebuilds, routed edits, locking, and writes by other code. */
module BootSession {
  import opened Efi
  import opened VariableStore
  import opened BootOrderModel
  import opened BootOrderProperties
  import opened BootOrderSafety
  import opened BootVariableLock

  datatype Step =
    | RebuildList
    | RouteEdit(e: Edit)
    | LockVariables(k: LockScript)
    | OtherWrite(name: string, value: Option<Value>)

  predicate StepFits(step: Step, p: Platform) {
    step.RouteEdit? && step.e.edited.Some? ==> |step.e.edited.value| == p.maxDisplayed
  }

  function Do(m: Menu, p: Platform, step: Step): (m': Menu)
    requires Scannable(m, p) && StepFits(step, p)
    ensures Scannable(m', p)
  {
    RebuildFacts(m.store, p);
    match step
    case RebuildList => Rebuild(m.store, p)
    case RouteEdit(e) => RouteStaysScannable(m, p, e); Route(m, p, e).menu
    case LockVariables(k) => m.(store := LockBootVariables(m.store, k))
    case OtherWrite(name, value) =>
      m.(store := if value.Some? then m.store.Write(name, value.value) else m.store.Delete(name))
  }

  lemma RouteStaysScannable(m: Menu, p: Platform, e: Edit)
    requires Scannable(m, p) && (e.edited.Some? ==> |e.edited.value| == p.maxDisplayed)
    ensures Scannable(Route(m, p, e).menu, p)
  {
    if Runs(m, p, e) {
      var s := FinalScan(m, p, e);
      RebuildFacts(Route(m, p, e).menu.store, p);
    }
  }

  function Run(m: Menu, p: Platform, steps: seq<Step>): (m': Menu)
    requires Scannable(m, p) && forall k :: 0 <= k < |steps| ==> StepFits(steps[k], p)
    ensures Scannable(m', p)
    decreases |steps|
  {
    if steps == [] then m else Run(Do(m, p, steps[0]), p, steps[1..])
  }

  // ------------------------------------------------------- locked variables

  lemma ToggleKeepsLocked(options: seq<LoadOption>, s: Store, limit: nat, n: bv16, active: bool)
    requires limit <= |options|
    ensures LockedKept(s, Toggle(options, s, limit, n, active).store)
  {
    var t := Toggle(options, s, limit, n, active);
    if t.store != s {
      KeptByWrite(s, BootName(n), BootOption(t.options[FindFrom(options, limit, n, 0)].body));
    }
  }

  lemma {:induction false} ScanKeepsLocked(m: Menu, p: Platform, i: nat)
    requires Scannable(m, p) && i <= |m.options|
    ensures LockedKept(m.store, ScanTo(m, p, i).store)
  {
    hide ScanTo, Toggle;
    if i == 0 {
      ScanStart(m, p);
    } else {
      var s := ScanTo(m, p, i - 1);
      ScanKeepsLocked(m, p, i - 1);
      if s.bootNow.Some? {
        ScanStops(m, p, i - 1, i);
      } else {
        ScanStep(m, p, i - 1);
        if i - 1 < Limit(m.options, p) {
          ToggleKeepsLocked(s.options, s.store, Limit(m.options, p), LoadOptionEncoding.Decode(m.list[i - 1]),
                            LoadOptionEncoding.HasBit(m.list[i - 1], p.flags.checkbox));
        }
        KeptTransitive(m.store, s.store, ScanTo(m, p, i).store);
      }
    }
  }

  lemma WriteOrderKeepsLocked(s: Store, order: seq<bv16>)
    ensures LockedKept(s, s.WriteOrder(order))
  {
    KeptByWrite(s, BOOT_ORDER, Order(order));
  }

  lemma {:induction false} SweepKeepsLocked(marked: seq<LoadOption>, s: Store, confirm: nat -> bool, i: nat)
    requires i <= |marked|
    ensures LockedKept(s, SweepTo(marked, s, confirm, i).store)
  {
    if i == 0 {
    } else {
      SweepKeepsLocked(marked, s, confirm, i - 1);
      var w := SweepTo(marked, s, confirm, i - 1).store;
      if marked[i - 1].number.Number? {
        var n := marked[i - 1].number.n;
        WriteOrderKeepsLocked(w, WithoutFirst(w.BootOrder(), n));
        KeptByWrite(w.Unlist(n), BootName(n), Flag(true));
        KeptTransitive(w, w.Unlist(n), DeleteOption(w, n));
        KeptTransitive(s, w, DeleteOption(w, n));
      }
    }
  }

  lemma CommitKeepsLocked(s: Scan, p: Platform, confirm: nat -> bool)
    ensures LockedKept(s.store, Commit(s, p, confirm).menu.store)
  {
    var limit := Limit(s.options, p);
    var marked := Mark(s.options, limit, s.order);
    SweepKeepsLocked(marked, s.store, confirm, limit);
    var w := SweepTo(marked, s.store, confirm, limit);
    hide SweepTo, Mark, Load, Entries, LockedKept;
    WriteOrderKeepsLocked(w.store, s.order);
    WriteOrderKeepsLocked(s.store, s.order);
    if w.confirmed { KeptTransitive(s.store, w.store, w.store.WriteOrder(s.order)); }
  }

  lemma BootNowKeepsLocked(s: Store, n: bv16)
    ensures LockedKept(s, BootNow(s, n))
  {
    var next := s.Write(BOOT_NEXT, Next(n));
    KeptByWrite(s, BOOT_NEXT, Next(n));
    KeptByWrite(next, MS_BOOT_NEXT, Flag(true));
    KeptTransitive(s, next, next.Write(MS_BOOT_NEXT, Flag(true)));
  }

  lemma RouteKeepsLocked(m: Menu, p: Platform, e: Edit)
    requires Scannable(m, p) && (e.edited.Some? ==> |e.edited.value| == p.maxDisplayed)
    ensures LockedKept(m.store, Route(m, p, e).menu.store)
  {
    if Runs(m, p, e) {
      var s := FinalScan(m, p, e);
      ScanKeepsLocked(Scanned(m, e), p, |m.options|);
      hide ScanTo, LockedKept, Commit, BootNow;
      assert LockedKept(s.store, s.store) by { KeptReflexive(s.store); }
      if s.bootNow.Some? {
        BootNowKeepsLocked(s.store, s.bootNow.value);
      } else {
        CommitKeepsLocked(s, p, e.confirm);
      }
      KeptTransitive(m.store, s.store, Route(m, p, e).menu.store);
    } else {
      KeptReflexive(m.store);
    }
  }

  lemma KeptReflexive(s: Store)
    ensures LockedKept(s, s)
  {
  }

  lemma DoKeepsLocked(m: Menu, p: Platform, step: Step)
    requires Scannable(m, p) && StepFits(step, p)
    ensures LockedKept(m.store, Do(m, p, step).store)
  {
    match step
    case RebuildList =>
    case RouteEdit(e) => RouteKeepsLocked(m, p, e);
    case LockVariables(k) => LockKeepsLocked(m.store, k);
    case OtherWrite(name, value) => KeptByWrite(m.store, name, if value.Some? then value.value else Flag(true));
  }

  /** Over every run, every locked variable keeps its value or its absence. */
  lemma {:induction false} RunKeepsLocked(m: Menu, p: Platform, steps: seq<Step>)
    requires Scannable(m, p) && forall k :: 0 <= k < |steps| ==> StepFits(steps[k], p)
    ensures LockedKept(m.store, Run(m, p, steps).store)
    decreases |steps|
  {
    if steps == [] {
    } else {
      var m' := Do(m, p, steps[0]);
      DoKeepsLocked(m, p, steps[0]);
      RunKeepsLocked(m', p, steps[1..]);
      KeptTransitive(m.store, m'.store, Run(m', p, steps[1..]).store);
    }
  }

  /**
   Once the lock routine has finished with the setting on and its registrations
   succeeding, BootNext stays absent, and BootOrder and every option it names stay
   as they were before locking, whatever happens later.
   */
  lemma LockedConfigurationIsFixed(m: Menu, p: Platform, k: LockScript, steps: seq<Step>)
    requires Scannable(m, p) && forall j :: 0 <= j < |steps| ==> StepFits(steps[j], p)
    requires k.Locks() && AllRegister(m.store, k) && BOOT_NEXT !in m.store.locked
    ensures
      var after := Run(Do(m, p, LockVariables(k)), p, steps).store;
      && BOOT_NEXT !in after.vars
      && after.BootOrder() == m.store.BootOrder()
      && FullyLocked(after)
      && forall n {:trigger OptionAt(after, n)} ::
           n in m.store.BootOrder() ==> OptionAt(after, n) == OptionAt(m.store, n)
  {
    var locked := Do(m, p, LockVariables(k));
    var after := Run(locked, p, steps).store;
    LockLocksEverything(m.store, k);
    LockChangesOnlyBootNext(m.store, k);
    RunKeepsLocked(locked, p, steps);
    hide Run, Do, BootName;
    forall n | n in m.store.BootOrder() ensures OptionAt(after, n) == OptionAt(m.store, n) {
      BootNameIsNoOther(n);
      assert BootName(n) in locked.store.locked;
    }
  }

  // ------------------------------------------------------------ no dangling

  /** The steps a run may take: lists name existing options, and locking is all or nothing. */
  ghost predicate Admissible(m: Menu, p: Platform, step: Step)
    requires Scannable(m, p)
  {
    && StepFits(step, p)
    && match step
       case RebuildList => true
       case RouteEdit(e) => BOOT_ORDER !in m.store.locked ==> ListsOptions(m, p, e)
       case LockVariables(k) => k.Locks() ==> AllRegister(m.store, k)
       case OtherWrite(name, value) => false
  }

  ghost predicate AdmissibleRun(m: Menu, p: Platform, steps: seq<Step>)
    requires Scannable(m, p)
    decreases |steps|
  {
    steps == [] || (Admissible(m, p, steps[0]) && AdmissibleRun(Do(m, p, steps[0]), p, steps[1..]))
  }

  /** Nothing dangles, and either the order can still be written or it is locked with all its options. */
  ghost predicate Safe(m: Menu, p: Platform) {
    && Sound(m, p)
    && (BOOT_ORDER in m.store.locked ==> forall n :: n in m.store.BootOrder() ==> BootName(n) in m.store.locked)
  }

  lemma LockedRouteIsSafe(m: Menu, p: Platform, e: Edit)
    requires Safe(m, p) && BOOT_ORDER in m.store.locked
    requires e.edited.Some? ==> |e.edited.value| == p.maxDisplayed
    ensures Safe(Route(m, p, e).menu, p)
  {
    var r := Route(m, p, e);
    RouteKeepsLocked(m, p, e);
    assert r.menu.store.BootOrder() == m.store.BootOrder();
    assert r.menu.store.NoDangling() by {
      hide BootName;
      forall n | n in r.menu.store.BootOrder() ensures r.menu.store.HasOption(n) {
        assert m.store.HasOption(n);
      }
    }
    if Runs(m, p, e) {
      var s := FinalScan(m, p, e);
      ScanKeepsSet(Scanned(m, e), p, |m.options|);
      RebuildFacts(r.menu.store, p);
      if s.bootNow.Some? { BootNowKeepsSet(s.store, s.bootNow.value); }
    }
  }

  lemma DoIsSafe(m: Menu, p: Platform, step: Step)
    requires Safe(m, p) && Admissible(m, p, step)
    ensures Safe(Do(m, p, step), p)
  {
    match step
    case RebuildList => RebuildIsSound(m.store, p);
    case RouteEdit(e) =>
      if BOOT_ORDER in m.store.locked { LockedRouteIsSafe(m, p, e); } else { RouteIsSound(m, p, e); }
    case LockVariables(k) =>
      LockChangesOnlyBootNext(m.store, k);
      if k.Locks() { LockLocksEverything(m.store, k); }
    case OtherWrite(_, _) =>
  }

  /** Over every admissible run, whatever the dialogs answer, every BootOrder entry has its variable. */
  lemma {:induction false} NoRunDangles(m: Menu, p: Platform, steps: seq<Step>)
    requires Safe(m, p) && AdmissibleRun(m, p, steps)
    requires forall k :: 0 <= k < |steps| ==> StepFits(steps[k], p)
    ensures Safe(Run(m, p, steps), p)
    decreases |steps|
  {
    if steps == [] {
    } else {
      DoIsSafe(m, p, steps[0]);
      NoRunDangles(Do(m, p, steps[0]), p, steps[1..]);
    }
  }

  /**
   With BootOrder locked but the variable of one of its options not, confirming that
   option's deletion leaves BootOrder naming an option that no longer exists.
   */
  lemma PartialLockDangles(m: Menu, p: Platform, e: Edit, k: nat)
    requires Sound(m, p) && OrdersOptions(m, p, e) && BOOT_ORDER in m.store.locked
    requires k < Limit(m.options, p) && m.options[k].number.n in m.store.BootOrder()
    requires BootName(m.options[k].number.n) !in m.store.locked
    requires e.confirm(k) && m.options[k].number.n !in Requested(m, p, e) && |Requested(m, p, e)| != |m.options|
    ensures !Route(m, p, e).menu.store.NoDangling()
  {
    RouteKeepsLocked(m, p, e);
    ConfirmedDeletionHappens(m, p, e, k);
    assert Route(m, p, e).menu.store.BootOrder() == m.store.BootOrder();
  }
}
