/** Guarantees of whole RouteConfig calls: deletion, dangling entries, and the identity on an unedited list. */
module BootOrderSafety {
  import opened Efi
  import opened VariableStore
  import opened LoadOptionEncoding
  import opened BootOrderModel
  import opened BootOrderProperties

  // ---------------------------------------------------------------- loading

  /** The numbers of an order that have a variable, in order. */
  function Existing(store: Store, order: seq<bv16>): seq<bv16> {
    if order == [] then []
    else
      var before, n := Existing(store, order[..|order| - 1]), order[|order| - 1];
      if store.HasOption(n) then before + [n] else before
  }

  lemma {:induction false} LoadFacts(store: Store, order: seq<bv16>)
    ensures var r := Load(store, order);
            Backed(r, store) && InSync(r, store) && Numbers(r) == Existing(store, order)
  {
    if order == [] {
    } else {
      var init, n := order[..|order| - 1], order[|order| - 1];
      LoadFacts(store, init);
      hide BootName;
      var before, r := Load(store, init), Load(store, order);
      if store.HasOption(n) {
        assert Numbers(r) == Numbers(before) + [n];
      }
    }
  }

  /** Order by order and entry by entry: an entry is loaded exactly when its variable exists, in its place. */
  lemma {:induction false} LoadInOrder(store: Store, a: seq<bv16>, b: seq<bv16>)
    ensures Existing(store, a + b) == Existing(store, a) + Existing(store, b)
    ensures b == [] || |b| > 1 ||
      Existing(store, b) == if BootName(b[0]) in store.vars && store.vars[BootName(b[0])].BootOption? then b else []
  {
    hide BootName;
    if b == [] {
      assert a + b == a;
    } else {
      var init, n := b[..|b| - 1], b[|b| - 1];
      LoadInOrder(store, a, init);
      assert (a + b)[..|a + b| - 1] == a + init;
      if |b| == 1 { assert init == [] && b == [n]; }
    }
  }

  lemma {:induction false} AllExisting(store: Store, order: seq<bv16>)
    requires forall n :: n in order ==> store.HasOption(n)
    ensures Existing(store, order) == order
  {
    if order == [] {
    } else {
      AllExisting(store, order[..|order| - 1]);
      assert order == order[..|order| - 1] + [order[|order| - 1]];
    }
  }

  /**
   A rebuild shows options that exist and are what their variables say, numbered as
   BootOrder without its dangling entries.
   */
  lemma RebuildFacts(store: Store, p: Platform)
    ensures var m := Rebuild(store, p);
            && Scannable(m, p) && m.store == store
            && Backed(m.options, store) && InSync(m.options, store)
            && Numbers(m.options) == Existing(store, store.BootOrder())
            && (store.NoDangling() ==> Numbers(m.options) == store.BootOrder())
  {
    LoadFacts(store, store.BootOrder());
    if store.NoDangling() { AllExisting(store, store.BootOrder()); }
  }

  // -------------------------------------------------- one call, all effects

  lemma {:induction false} NoBootNowSoFar(m: Menu, p: Platform, i: nat)
    requires Scannable(m, p) && i <= |m.options| && ScanTo(m, p, i).bootNow.None?
    ensures NoBootNow(m, p, i)
  {
    hide ScanTo, HasBit, Decode, Toggle;
    if i == 0 {
    } else {
      if ScanTo(m, p, i - 1).bootNow.Some? { ScanStops(m, p, i - 1, i); }
      NoBootNowSoFar(m, p, i - 1);
      ScanStep(m, p, i - 1);
    }
  }

  /** The state a call scans: the edited list in place of the list shown. */
  function Scanned(m: Menu, e: Edit): Menu
    requires e.edited.Some?
  {
    m.(list := e.edited.value)
  }

  ghost predicate Runs(m: Menu, p: Platform, e: Edit) {
    && Scannable(m, p)
    && e.lockSetting != Some(true)
    && e.edited.Some? && |e.edited.value| == p.maxDisplayed && e.copied
  }

  /** A call scans its list unless the boot order lock is on; a lock setting that cannot be read counts as off. */
  lemma LockSkipsTheCall(m: Menu, p: Platform, e: Edit)
    requires Scannable(m, p) && (e.edited.Some? ==> |e.edited.value| == p.maxDisplayed)
    ensures Runs(m, p, e) <==> (e.lockSetting.None? || !e.lockSetting.value) && e.edited.Some? && e.copied
    ensures !Runs(m, p, e) ==>
      var r := Route(m, p, e);
      && r.prompts == [] && r.written == None && r.menu.options == m.options && r.menu.store == m.store
      && (e.lockSetting == Some(true) || e.edited.None? ==> r.menu.list == m.list)
  {
    hide ScanTo;
  }

  function FinalScan(m: Menu, p: Platform, e: Edit): Scan
    requires Runs(m, p, e)
  {
    ScanTo(Scanned(m, e), p, |m.options|)
  }

  ghost predicate OrdersOptions(m: Menu, p: Platform, e: Edit) {
    Runs(m, p, e) && FinalScan(m, p, e).bootNow.None?
  }

  /** The order the edited list asks for. */
  function Requested(m: Menu, p: Platform, e: Edit): seq<bv16>
    requires Runs(m, p, e)
  {
    var l := Limit(m.options, p);
    Listed(e.edited.value, l) + Numbers(m.options)[l..]
  }

  lemma RequestedIsScanned(m: Menu, p: Platform, e: Edit)
    requires OrdersOptions(m, p, e)
    ensures FinalScan(m, p, e).order == Requested(m, p, e)
    ensures |Requested(m, p, e)| <= |m.options|
  {
    hide ScanTo, HasBit, Decode;
    NoBootNowSoFar(Scanned(m, e), p, |m.options|);
    NewOrder(Scanned(m, e), p);
  }

  /**
   What one call offers, deletes and writes: exactly the displayed options missing
   from the requested order are offered, when its length differs from the option
   count; the order is written unless something was offered and nothing confirmed;
   no offered number is in a written order; numbers in the order keep their options.
   */
  lemma RouteEffects(m: Menu, p: Platform, e: Edit)
    requires OrdersOptions(m, p, e)
    ensures
      var r, order, limit, s := Route(m, p, e), Requested(m, p, e), Limit(m.options, p), FinalScan(m, p, e).store;
      var offers := |order| != |m.options|;
      && r.prompts == (if offers then Missing(m.options, order, limit) else [])
      && (forall x :: x in r.prompts ==> x !in order)
      && r.written == (if offers && !AnyConfirmed(m.options, order, e.confirm, limit) then None else Some(order))
      && r.menu == Rebuild(r.menu.store, p)
      && r.menu.store.locked == s.locked
      && (r.written.None? ==> r.menu.store == s)
      && (r.written.Some? && BOOT_ORDER !in s.locked ==> r.menu.store.BootOrder() == order)
      && (forall x {:trigger OptionAt(r.menu.store, x)} :: x in order ==> OptionAt(r.menu.store, x) == OptionAt(s, x))
      && (forall x {:trigger OptionAt(r.menu.store, x)} ::
            OptionAt(r.menu.store, x) == OptionAt(s, x) || OptionAt(r.menu.store, x) == None)
  {
    RequestedIsScanned(m, p, e);
    var s, order, limit := FinalScan(m, p, e), Requested(m, p, e), Limit(m.options, p);
    hide ScanTo, HasBit, Decode, OptionAt, Listed, Load, Entries;
    assert Numbers(s.options) == Numbers(m.options);
    MissingIsMissing(m.options, order, limit);
    SameMissing(s.options, m.options, order, limit, e.confirm);
    SweepFacts(s.options, limit, order, s.store, e.confirm, limit);
    var w := SweepTo(Mark(s.options, limit, order), s.store, e.confirm, limit);
    hide SweepTo, Mark;
    WriteOrderFacts(s.store, order);
    WriteOrderFacts(w.store, order);
  }

  lemma {:induction false} SameMissing(
    a: seq<LoadOption>, b: seq<LoadOption>, order: seq<bv16>, i: nat, confirm: nat -> bool)
    requires Assigned(a) && Assigned(b) && i <= |a| == |b|
    requires forall k :: 0 <= k < |a| ==> a[k].number == b[k].number
    ensures Missing(a, order, i) == Missing(b, order, i)
    ensures AnyConfirmed(a, order, confirm, i) == AnyConfirmed(b, order, confirm, i)
  {
    if i == 0 {
    } else {
      SameMissing(a, b, order, i - 1, confirm);
    }
  }

  /** The option behind a confirmed deletion is gone when the call returns. */
  lemma ConfirmedDeletionHappens(m: Menu, p: Platform, e: Edit, k: nat)
    requires OrdersOptions(m, p, e) && Backed(m.options, m.store)
    requires k < Limit(m.options, p) && e.confirm(k) && m.options[k].number.n !in Requested(m, p, e)
    requires BootName(m.options[k].number.n) !in m.store.locked
    requires |Requested(m, p, e)| != |m.options|
    ensures !Route(m, p, e).menu.store.HasOption(m.options[k].number.n)
  {
    RequestedIsScanned(m, p, e);
    ScanKeepsSet(Scanned(m, e), p, |m.options|);
    var s, order, limit := FinalScan(m, p, e), Requested(m, p, e), Limit(m.options, p);
    var n := s.options[k].number.n;
    hide ScanTo, HasBit, Decode, OptionAt, Listed, Load, Entries;
    SweepFacts(s.options, limit, order, s.store, e.confirm, limit);
    ConfirmedAreDeleted(s.options, limit, order, s.store, e.confirm, limit, k);
    assert AnyConfirmed(s.options, order, e.confirm, limit);
    var w := SweepTo(Mark(s.options, limit, order), s.store, e.confirm, limit);
    hide SweepTo, Mark;
    WriteOrderFacts(w.store, order);
    NoneMeansAbsent(Route(m, p, e).menu.store, n);
  }

  /** After the call, the variable of every option kept in the order carries the checkbox it was listed with. */
  lemma CheckboxesAreSaved(m: Menu, p: Platform, e: Edit, k: nat)
    requires OrdersOptions(m, p, e) && k < |m.options| && m.options[k].number.n in Requested(m, p, e)
    requires Distinct(m.options) && InSync(m.options, m.store) && Unlocked(m.options, m.store)
    ensures
      var l, o := Limit(m.options, p), m.options[k];
      OptionAt(Route(m, p, e).menu.store, o.number.n)
      == Some(if k < l then Boxed(o.body, LastBox(e.edited.value, l, o.number.n, p.flags)) else o.body)
  {
    RouteEffects(m, p, e);
    var s := FinalScan(m, p, e);
    NoBootNowSoFar(Scanned(m, e), p, |m.options|);
    ScanKeepsSync(Scanned(m, e), p, |m.options|);
    BodiesSoFar(Scanned(m, e), p, |m.options|, k);
    hide Route, ScanTo, OptionAt, HasBit, Decode, LastBox, Listed;
    assert OptionAt(s.store, s.options[k].number.n) == Some(s.options[k].body);
  }

  lemma NoneMeansAbsent(s: Store, n: bv16)
    ensures OptionAt(s, n) == None <==> !s.HasOption(n)
  {
  }

  // --------------------------------------------------------------- boot now

  /** Entry j asks to boot, and none of the displayed entries before it does. */
  ghost predicate IsRequest(m: Menu, p: Platform, j: nat)
    requires Scannable(m, p)
  {
    && j < Limit(m.options, p)
    && m.list[j] != 0 && HasBit(m.list[j], p.flags.boot)
    && NoBootNow(m, p, j)
  }

  /** A request stops the scan in the state of the entries before it. */
  lemma RequestStopsScan(m: Menu, p: Platform, j: nat)
    requires Scannable(m, p) && IsRequest(m, p, j)
    ensures ScanTo(m, p, j).bootNow == None
    ensures ScanTo(m, p, |m.options|) == ScanTo(m, p, j).(bootNow := Some(Decode(m.list[j])))
  {
    hide ScanTo, HasBit, Decode, Toggle, Listed;
    OrderSoFar(m, p, j);
    ScanStep(m, p, j);
    ScanStops(m, p, j + 1, |m.options|);
  }

  /** The boot-now request acted on is the first entry with the boot flag. */
  lemma {:induction false} FirstBootNow(m: Menu, p: Platform, i: nat) returns (j: nat)
    requires Scannable(m, p) && i <= |m.options| && ScanTo(m, p, i).bootNow.Some?
    ensures IsRequest(m, p, j) && ScanTo(m, p, i).bootNow == Some(Decode(m.list[j]))
  {
    hide ScanTo, HasBit, Decode, Toggle;
    assert i > 0 by { ScanStart(m, p); }
    if ScanTo(m, p, i - 1).bootNow.Some? {
      j := FirstBootNow(m, p, i - 1);
      ScanStops(m, p, i - 1, i);
    } else {
      NoBootNowSoFar(m, p, i - 1);
      ScanStep(m, p, i - 1);
      j := i - 1;
    }
  }

  /** The variable has the same value, or the same absence. */
  ghost predicate SameVariable(a: Store, b: Store, name: string) {
    (name in a.vars <==> name in b.vars) && (name in a.vars ==> a.vars[name] == b.vars[name])
  }

  /** Neither BootOrder nor a Boot#### variable. */
  ghost predicate IsOther(name: string) {
    name != BOOT_ORDER && forall n {:trigger BootName(n)} :: BootName(n) != name
  }

  lemma ToggleLeavesOthers(options: seq<LoadOption>, store: Store, limit: nat, n: bv16, active: bool, name: string)
    requires limit <= |options| && IsOther(name)
    ensures var s' := Toggle(options, store, limit, n, active).store;
            SameVariable(store, s', name) && s'.locked == store.locked
  {
    hide BootName, IsActive, ToggleActive;
    assert BootName(n) != name;
  }

  lemma {:induction false} ScanLeavesOthers(m: Menu, p: Platform, i: nat, name: string)
    requires Scannable(m, p) && i <= |m.options| && IsOther(name)
    ensures SameVariable(m.store, ScanTo(m, p, i).store, name) && ScanTo(m, p, i).store.locked == m.store.locked
  {
    hide ScanTo, HasBit, Decode, Toggle, IsOther;
    if i == 0 {
      ScanStart(m, p);
    } else {
      var s := ScanTo(m, p, i - 1);
      ScanLeavesOthers(m, p, i - 1, name);
      if s.bootNow.Some? {
        ScanStops(m, p, i - 1, i);
      } else {
        ScanStep(m, p, i - 1);
        if i - 1 < Limit(m.options, p) {
          var v := m.list[i - 1];
          ToggleLeavesOthers(s.options, s.store, Limit(m.options, p), Decode(v), HasBit(v, p.flags.checkbox), name);
        }
      }
    }
  }

  lemma {:induction false} SweepLeavesOthers(
    marked: seq<LoadOption>, store: Store, confirm: nat -> bool, i: nat, name: string)
    requires i <= |marked| && IsOther(name)
    ensures SameVariable(store, SweepTo(marked, store, confirm, i).store, name)
  {
    hide BootName;
    if i == 0 {
    } else {
      SweepLeavesOthers(marked, store, confirm, i - 1, name);
      if marked[i - 1].number.Number? { assert BootName(marked[i - 1].number.n) != name; }
    }
  }

  /** A call without a confirmed boot-now request changes no variable but BootOrder and Boot####. */
  lemma OrderingLeavesOthers(m: Menu, p: Platform, e: Edit, name: string)
    requires Scannable(m, p) && (e.edited.Some? ==> |e.edited.value| == p.maxDisplayed) && IsOther(name)
    requires Runs(m, p, e) && FinalScan(m, p, e).bootNow.Some? ==> !e.bootConfirmed
    ensures SameVariable(m.store, Route(m, p, e).menu.store, name)
  {
    if Runs(m, p, e) {
      var s := FinalScan(m, p, e);
      ScanLeavesOthers(Scanned(m, e), p, |m.options|, name);
      var limit := Limit(s.options, p);
      SweepLeavesOthers(Mark(s.options, limit, s.order), s.store, e.confirm, limit, name);
      hide ScanTo, SweepTo, Mark, Load, Entries;
    }
  }

  lemma BootNextIsOther()
    ensures IsOther(BOOT_NEXT) && IsOther(MS_BOOT_NEXT) && BOOT_NEXT != MS_BOOT_NEXT
  {
    assert |BOOT_NEXT| == 8 && |MS_BOOT_NEXT| == 10 && |BOOT_ORDER| == 9;
    forall n ensures BootName(n) != BOOT_NEXT && BootName(n) != MS_BOOT_NEXT { BootNameIsNoOther(n); }
  }

  /**
   A boot-now request never touches BootOrder or offers a deletion. Confirmed with
   BootNext not locked, it becomes BootNext, and MsBootNext is raised unless that is
   locked itself; with BootNext locked, or cancelled, both are left as they were.
   */
  lemma BootNowEffects(m: Menu, p: Platform, e: Edit, j: nat)
    requires Runs(m, p, e) && IsRequest(Scanned(m, e), p, j) && Backed(m.options, m.store)
    ensures var r := Route(m, p, e);
            && r.prompts == [] && r.written == None
            && SameOptionSet(m.store, r.menu.store)
            && (e.bootConfirmed && BOOT_NEXT !in m.store.locked ==>
                  && BOOT_NEXT in r.menu.store.vars
                  && r.menu.store.vars[BOOT_NEXT] == Next(Decode(e.edited.value[j])))
            && (e.bootConfirmed && BOOT_NEXT !in m.store.locked && MS_BOOT_NEXT !in m.store.locked ==>
                  MS_BOOT_NEXT in r.menu.store.vars && r.menu.store.vars[MS_BOOT_NEXT] == Flag(true))
            && (e.bootConfirmed && (BOOT_NEXT in m.store.locked || MS_BOOT_NEXT in m.store.locked) ==>
                  SameVariable(m.store, r.menu.store, MS_BOOT_NEXT))
            && (!e.bootConfirmed || BOOT_NEXT in m.store.locked ==> SameVariable(m.store, r.menu.store, BOOT_NEXT))
            && (!e.bootConfirmed ==> SameVariable(m.store, r.menu.store, MS_BOOT_NEXT))
            && (e.bootConfirmed ==> r.menu.list == e.edited.value && |r.menu.options| == |m.options|)
            && (!e.bootConfirmed ==> r.menu == Rebuild(ScanTo(Scanned(m, e), p, j).store, p))
  {
    RequestStopsScan(Scanned(m, e), p, j);
    var s := FinalScan(m, p, e);
    ScanKeepsSet(Scanned(m, e), p, |m.options|);
    BootNowKeepsSet(s.store, s.bootNow.value);
    BootNextIsOther();
    ScanLeavesOthers(Scanned(m, e), p, |m.options|, BOOT_NEXT);
    ScanLeavesOthers(Scanned(m, e), p, |m.options|, MS_BOOT_NEXT);
    hide ScanTo, HasBit, Decode, IsOther, Load, Entries;
  }

  /**
   The checkboxes of the entries in front of a boot-now request are saved, whether
   the boot is confirmed or cancelled; those of the request and behind it are not.
   */
  lemma BootNowSavesEarlierCheckboxes(m: Menu, p: Platform, e: Edit, j: nat, k: nat)
    requires Runs(m, p, e) && IsRequest(Scanned(m, e), p, j) && k < |m.options|
    requires Distinct(m.options) && InSync(m.options, m.store) && Unlocked(m.options, m.store)
    ensures
      var l, o := Limit(m.options, p), m.options[k];
      OptionAt(Route(m, p, e).menu.store, o.number.n)
      == Some(if k < l then Boxed(o.body, LastBox(e.edited.value, j, o.number.n, p.flags)) else o.body)
  {
    var m' := Scanned(m, e);
    RequestStopsScan(m', p, j);
    ScanKeepsSync(m', p, j);
    BodiesSoFar(m', p, j, k);
    var s := ScanTo(m', p, j);
    hide ScanTo, HasBit, Decode, LastBox, Listed;
    BootNowKeepsOptions(s.store, Decode(m'.list[j]), m.options[k].number.n);
    assert OptionAt(s.store, s.options[k].number.n) == Some(s.options[k].body);
  }

  lemma BootNowKeepsOptions(store: Store, n: bv16, x: bv16)
    ensures OptionAt(BootNow(store, n), x) == OptionAt(store, x)
  {
    BootNameIsNoOther(x);
  }

  // --------------------------------------------------------------- dangling

  /** A call that writes the order leaves no dangling entry exactly when every listed number has an option. */
  lemma WrittenOrderDangles(m: Menu, p: Platform, e: Edit)
    requires OrdersOptions(m, p, e) && Backed(m.options, m.store) && BOOT_ORDER !in m.store.locked
    requires Route(m, p, e).written.Some?
    ensures Route(m, p, e).menu.store.NoDangling()
      <==> forall x :: x in Listed(e.edited.value, Limit(m.options, p)) ==> m.store.HasOption(x)
  {
    RouteEffects(m, p, e);
    ScanKeepsSet(Scanned(m, e), p, |m.options|);
    var r, order, s := Route(m, p, e), Requested(m, p, e), FinalScan(m, p, e).store;
    hide Route, ScanTo, Listed, OptionAt, HasBit, Decode;
    forall x | x in order ensures r.menu.store.HasOption(x) <==> m.store.HasOption(x) {
      NoneMeansAbsent(r.menu.store, x);
      NoneMeansAbsent(s, x);
    }
    var l := Limit(m.options, p);
    forall x | x in Numbers(m.options)[l..] ensures m.store.HasOption(x) {
      var k :| l <= k < |m.options| && Numbers(m.options)[k] == x;
      assert m.options[k].number.n == x;
    }
  }

  /** The listed numbers all have an option. */
  ghost predicate ListsOptions(m: Menu, p: Platform, e: Edit)
    requires Assigned(m.options)
  {
    Runs(m, p, e) ==> forall x :: x in Listed(e.edited.value, Limit(m.options, p)) ==> m.store.HasOption(x)
  }

  /** Loaded options exist and BootOrder does not dangle. */
  ghost predicate Sound(m: Menu, p: Platform) {
    Scannable(m, p) && Backed(m.options, m.store) && m.store.NoDangling()
  }

  lemma RebuildIsSound(store: Store, p: Platform)
    requires store.NoDangling()
    ensures Sound(Rebuild(store, p), p)
  {
    RebuildFacts(store, p);
  }

  lemma RouteIsSound(m: Menu, p: Platform, e: Edit)
    requires Sound(m, p) && BOOT_ORDER !in m.store.locked
    requires e.edited.Some? ==> |e.edited.value| == p.maxDisplayed
    requires ListsOptions(m, p, e)
    ensures Sound(Route(m, p, e).menu, p) && Route(m, p, e).menu.store.locked == m.store.locked
  {
    if Runs(m, p, e) {
      var s := FinalScan(m, p, e);
      ScanKeepsSet(Scanned(m, e), p, |m.options|);
      if s.bootNow.Some? {
        BootNowKeepsSet(s.store, s.bootNow.value);
        RebuildFacts(s.store, p);
      } else {
        RouteEffects(m, p, e);
        RebuildFacts(Route(m, p, e).menu.store, p);
        if Route(m, p, e).written.Some? {
          WrittenOrderDangles(m, p, e);
        }
      }
    }
  }

  lemma BootNowKeepsSet(store: Store, n: bv16)
    ensures SameOptionSet(store, BootNow(store, n))
  {
    forall x ensures BootNow(store, n).HasOption(x) <==> store.HasOption(x) { BootNameIsNoOther(x); }
  }
}
