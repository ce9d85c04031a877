/** Exactly when a routed edit, or a run of steps, leaves BootOrder naming an option that has no variable. */
module DanglingOrder {
  import opened Efi
  import opened VariableStore
  import opened LoadOptionEncoding
  import opened BootOrderModel
  import opened BootOrderProperties
  import opened BootOrderSafety
  import opened BootVariableLock
  import opened BootSession

  // ------------------------------------------------- BootOrder is locked

  /** An unlocked option of BootOrder, missing from the requested order, is offered for deletion and confirmed. */
  ghost predicate DeletesListed(m: Menu, p: Platform, e: Edit)
    requires Runs(m, p, e)
  {
    && |Requested(m, p, e)| != |m.options|
    && exists k :: 0 <= k < Limit(m.options, p) && DeletesOption(m, p, e, k)
  }

  ghost predicate DeletesOption(m: Menu, p: Platform, e: Edit, k: nat)
    requires Runs(m, p, e) && k < |m.options|
  {
    var n := m.options[k].number.n;
    && n in m.store.BootOrder() && BootName(n) !in m.store.locked
    && n !in Requested(m, p, e) && e.confirm(k)
  }

  /** The sweep takes away no option but a confirmed, unlocked one that the order lacks. */
  lemma {:induction false} SweepDeletesOnlyConfirmed(
    options: seq<LoadOption>, limit: nat, order: seq<bv16>, store: Store, confirm: nat -> bool, i: nat, x: bv16)
    returns (k: nat)
    requires Assigned(options) && i <= limit <= |options|
    requires OptionAt(SweepTo(Mark(options, limit, order), store, confirm, i).store, x) != OptionAt(store, x)
    ensures k < i && options[k].number.n == x && x !in order && confirm(k) && BootName(x) !in store.locked
  {
    hide OptionAt, DeleteOption, BootName, Missing, AnyConfirmed;
    assert i > 0;
    var w := SweepTo(Mark(options, limit, order), store, confirm, i - 1);
    SweepFacts(options, limit, order, store, confirm, i - 1);
    DeleteOptionFacts(w.store, options[i - 1].number.n);
    if OptionAt(w.store, x) != OptionAt(store, x) {
      k := SweepDeletesOnlyConfirmed(options, limit, order, store, confirm, i - 1, x);
    } else {
      k := i - 1;
    }
  }

  /** The same for a whole call. */
  lemma RouteDeletesOnlyConfirmed(m: Menu, p: Platform, e: Edit, x: bv16) returns (k: nat)
    requires OrdersOptions(m, p, e)
    requires OptionAt(Route(m, p, e).menu.store, x) != OptionAt(FinalScan(m, p, e).store, x)
    ensures |Requested(m, p, e)| != |m.options| && k < Limit(m.options, p) && m.options[k].number.n == x
    ensures x !in Requested(m, p, e) && e.confirm(k) && BootName(x) !in FinalScan(m, p, e).store.locked
  {
    RequestedIsScanned(m, p, e);
    var s, order, limit := FinalScan(m, p, e), Requested(m, p, e), Limit(m.options, p);
    hide ScanTo, HasBit, Decode, OptionAt, Listed, Load, Entries, BootName;
    var w := SweepTo(Mark(s.options, limit, order), s.store, e.confirm, limit);
    WriteOrderFacts(s.store, order);
    WriteOrderFacts(w.store, order);
    hide SweepTo, Mark;
    k := SweepDeletesOnlyConfirmed(s.options, limit, order, s.store, e.confirm, limit, x);
    assert s.options[k].number == m.options[k].number;
  }

  /** With BootOrder locked, a call leaves it dangling exactly when such a deletion is confirmed. */
  lemma LockedOrderDangles(m: Menu, p: Platform, e: Edit)
    requires Sound(m, p) && OrdersOptions(m, p, e) && BOOT_ORDER in m.store.locked
    ensures !Route(m, p, e).menu.store.NoDangling() <==> DeletesListed(m, p, e)
  {
    var after, s := Route(m, p, e).menu.store, FinalScan(m, p, e).store;
    RouteKeepsLocked(m, p, e);
    assert after.BootOrder() == m.store.BootOrder();
    ScanKeepsSet(Scanned(m, e), p, |m.options|);
    hide Route, ScanTo, Requested, OptionAt, HasBit, Decode, BootName;
    if DeletesListed(m, p, e) {
      var k :| 0 <= k < Limit(m.options, p) && DeletesOption(m, p, e, k);
      PartialLockDangles(m, p, e, k);
    }
    if x :| x in after.BootOrder() && !after.HasOption(x) {
      NoneMeansAbsent(after, x);
      NoneMeansAbsent(s, x);
      var k := RouteDeletesOnlyConfirmed(m, p, e, x);
      assert DeletesOption(m, p, e, k);
    }
  }

  // --------------------------------------------- BootOrder can be written

  /** The order is written, and the edited list names a number that has no option. */
  ghost predicate WritesUnbacked(m: Menu, p: Platform, e: Edit)
    requires Runs(m, p, e)
  {
    var order, limit := Requested(m, p, e), Limit(m.options, p);
    && (|order| == |m.options| || AnyConfirmed(m.options, order, e.confirm, limit))
    && exists x :: x in Listed(e.edited.value, limit) && !m.store.HasOption(x)
  }

  lemma UnlockedOrderDangles(m: Menu, p: Platform, e: Edit)
    requires Sound(m, p) && OrdersOptions(m, p, e) && BOOT_ORDER !in m.store.locked
    ensures !Route(m, p, e).menu.store.NoDangling() <==> WritesUnbacked(m, p, e)
  {
    RouteEffects(m, p, e);
    ScanKeepsSet(Scanned(m, e), p, |m.options|);
    hide Route, ScanTo, Requested, Listed, OptionAt, HasBit, Decode, AnyConfirmed;
    if Route(m, p, e).written.Some? { WrittenOrderDangles(m, p, e); }
  }

  // ------------------------------------------------------ calls and runs

  ghost predicate Fits(e: Edit, p: Platform) {
    e.edited.Some? ==> |e.edited.value| == p.maxDisplayed
  }

  /** The condition for one call: nothing dangles unless the list is scanned to its end without a boot-now request. */
  ghost predicate Dangles(m: Menu, p: Platform, e: Edit) {
    && OrdersOptions(m, p, e)
    && if BOOT_ORDER in m.store.locked then DeletesListed(m, p, e) else WritesUnbacked(m, p, e)
  }

  /** Every call from a sound state is covered, and one that does not dangle ends in a sound state. */
  lemma RouteDanglesExactly(m: Menu, p: Platform, e: Edit)
    requires Sound(m, p) && Fits(e, p)
    ensures Route(m, p, e).menu.store.NoDangling() <==> !Dangles(m, p, e)
    ensures !Dangles(m, p, e) ==> Sound(Route(m, p, e).menu, p)
  {
    if OrdersOptions(m, p, e) {
      RouteEffects(m, p, e);
      hide Route, ScanTo, OptionAt;
      RebuildFacts(Route(m, p, e).menu.store, p);
      if BOOT_ORDER in m.store.locked { LockedOrderDangles(m, p, e); } else { UnlockedOrderDangles(m, p, e); }
    } else if Runs(m, p, e) {
      var s := FinalScan(m, p, e);
      ScanKeepsSet(Scanned(m, e), p, |m.options|);
      BootNowKeepsSet(s.store, s.bootNow.value);
      RebuildFacts(s.store, p);
    }
  }

  /** A run of rebuilds, routed edits and lock calls, without writes by other code. */
  ghost predicate OwnSteps(p: Platform, steps: seq<Step>) {
    forall k :: 0 <= k < |steps| ==> StepFits(steps[k], p) && !steps[k].OtherWrite?
  }

  /** No state of the run has a dangling entry. */
  ghost predicate NeverDangles(m: Menu, p: Platform, steps: seq<Step>)
    requires Scannable(m, p) && OwnSteps(p, steps)
    decreases |steps|
  {
    m.store.NoDangling() && (steps == [] || NeverDangles(Do(m, p, steps[0]), p, steps[1..]))
  }

  /** No routed edit of the run meets the condition in the state it is made in. */
  ghost predicate Harmless(m: Menu, p: Platform, steps: seq<Step>)
    requires Scannable(m, p) && OwnSteps(p, steps)
    decreases |steps|
  {
    steps == []
    || ((steps[0].RouteEdit? ==> !Dangles(m, p, steps[0].e)) && Harmless(Do(m, p, steps[0]), p, steps[1..]))
  }

  lemma OtherStepsStaySound(m: Menu, p: Platform, step: Step)
    requires Sound(m, p) && StepFits(step, p) && (step.RebuildList? || step.LockVariables?)
    ensures Sound(Do(m, p, step), p)
  {
    match step {
      case RebuildList => RebuildIsSound(m.store, p);
      case LockVariables(k) => LockChangesOnlyBootNext(m.store, k);
    }
  }

  /**
   Over every run, whatever is locked and whatever the dialogs answer: no state has a
   dangling entry exactly when no edit of the run meets the condition.
   */
  lemma {:induction false} RunNeverDangles(m: Menu, p: Platform, steps: seq<Step>)
    requires Sound(m, p) && OwnSteps(p, steps)
    ensures NeverDangles(m, p, steps) <==> Harmless(m, p, steps)
    decreases |steps|
  {
    hide Dangles, Do;
    if steps == [] {
    } else {
      var m' := Do(m, p, steps[0]);
      StepIsSound(m, p, steps[0]);
      if Sound(m', p) { RunNeverDangles(m', p, steps[1..]); }
    }
  }

  lemma StepIsSound(m: Menu, p: Platform, step: Step)
    requires Sound(m, p) && StepFits(step, p) && !step.OtherWrite?
    ensures Sound(Do(m, p, step), p) <==> (step.RouteEdit? ==> !Dangles(m, p, step.e))
    ensures Do(m, p, step).store.NoDangling() <==> Sound(Do(m, p, step), p)
  {
    if step.RouteEdit? {
      RouteDanglesExactly(m, p, step.e);
    } else {
      OtherStepsStaySound(m, p, step);
    }
  }

  // ------------------------------------------------------------- witness

  const OPTION_BODY := OptionBody(1, "")

  /** BootOrder [1] is locked, Boot0001 is not. */
  function PartlyLocked(): Store {
    Store(map[BOOT_ORDER := Order([1]), BootName(1) := BootOption(OPTION_BODY)], {BOOT_ORDER})
  }

  /** One confirmed deletion under that partial lock leaves BootOrder naming Boot0001, which is gone. */
  lemma PartialLockWitness(f: Flags)
    ensures var p := Platform(f, 1, []);
            var m := Menu([LoadOption(Number(1), OPTION_BODY)], [0], PartlyLocked());
            var e := Edit(None, Some([0]), true, false, _ => true);
            && Sound(m, p) && OrdersOptions(m, p, e) && DeletesListed(m, p, e)
            && Route(m, p, e).menu.store.BootOrder() == [1]
            && !Route(m, p, e).menu.store.HasOption(1)
  {
    var p := Platform(f, 1, []);
    var m := Menu([LoadOption(Number(1), OPTION_BODY)], [0], PartlyLocked());
    var e := Edit(None, Some([0]), true, false, _ => true);
    BootNameIsNoOther(1);
    hide BootName;
    assert m.store.BootOrder() == [1] && m.store.HasOption(1);
    assert ScanTo(m, p, 0).bootNow == None;
    assert ScanTo(m, p, 1).bootNow == None;
    assert Scanned(m, e) == m && OrdersOptions(m, p, e);
    assert Listed([0], 0) == [] && Listed([0], 1) == [];
    assert Requested(m, p, e) == [];
    assert DeletesOption(m, p, e, 0);
    hide Route, ScanTo, Requested;
    ConfirmedDeletionHappens(m, p, e, 0);
    RouteKeepsLocked(m, p, e);
  }
}
