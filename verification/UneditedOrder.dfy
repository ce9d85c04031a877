/** Routing a list that nobody edited. */
module UneditedOrder {
  import opened Efi
  import opened VariableStore
  import opened LoadOptionEncoding
  import opened BootOrderModel
  import opened BootOrderProperties
  import opened BootOrderSafety

  predicate IsShown(options: seq<LoadOption>, l: nat, k: nat)
    requires k < |options|
  {
    k >= l || IsDisplayable(options[k].body.attributes)
  }

  /** The numbers of the first i options, without the displayed ones that are hidden or apps. */
  function ShownNumbers(options: seq<LoadOption>, l: nat, i: nat): seq<bv16>
    requires Assigned(options) && i <= |options|
  {
    if i == 0 then []
    else ShownNumbers(options, l, i - 1) + if IsShown(options, l, i - 1) then [options[i - 1].number.n] else []
  }

  /** The hidden and app options among the first i. */
  function HiddenNumbers(options: seq<LoadOption>, i: nat): seq<bv16>
    requires Assigned(options) && i <= |options|
  {
    if i == 0 then []
    else HiddenNumbers(options, i - 1)
         + if IsDisplayable(options[i - 1].body.attributes) then [] else [options[i - 1].number.n]
  }

  /** Setting an option to the state it has changes nothing. */
  lemma ToggleToItself(options: seq<LoadOption>, store: Store, limit: nat, k: nat)
    requires k < limit <= |options| && Assigned(options) && InSync(options, store)
    ensures Toggle(options, store, limit, options[k].number.n, IsActive(options[k].body.attributes))
      == Toggled(options, store)
  {
    hide IsActive, ToggleActive;
    var j := FindFrom(options, limit, options[k].number.n, 0);
    if j < limit {
      assert OptionAt(store, options[j].number.n) == Some(options[j].body);
      assert OptionAt(store, options[k].number.n) == Some(options[k].body);
    }
  }

  lemma {:induction false} UneditedScan(m: Menu, p: Platform, i: nat)
    requires p.Valid() && Scannable(m, p) && InSync(m.options, m.store) && i <= |m.options|
    requires m.list == Entries(m.options, p)
    ensures ScanTo(m, p, i) == Scan(ShownNumbers(m.options, Limit(m.options, p), i), m.options, m.store, None)
  {
    hide ScanTo, HasBit, Decode, Toggle, Encode, IsActive, IsDisplayable, IsDefault, OptionAt;
    if i == 0 {
      ScanStart(m, p);
    } else {
      UneditedScan(m, p, i - 1);
      ScanStep(m, p, i - 1);
      var l := Limit(m.options, p);
      if i <= l {
        ToggleToItself(m.options, m.store, l, i - 1);
        EntryReads(m, p, i - 1);
      }
    }
  }

  /** An unedited entry names its option and keeps its ACTIVE bit; an option that is not shown has none. */
  lemma EntryReads(m: Menu, p: Platform, k: nat)
    requires p.Valid() && Assigned(m.options) && k < |m.options|
    requires k < |m.list| && m.list == Entries(m.options, p)
    ensures var v, o := m.list[k], m.options[k];
            if IsShown(m.options, Limit(m.options, p), k)
            then v != 0 && Decode(v) == o.number.n && !HasBit(v, p.flags.boot)
                 && (HasBit(v, p.flags.checkbox) <==> IsActive(o.body.attributes))
            else v == 0
  {
    var o := m.options[k];
    assert m.list[k] == Entry(o, p);
    DecodeEncode(o.number.n, IsActive(o.body.attributes), !IsDefault(o.body, p.defaults), p.flags);
    hide HasBit, Decode, Encode, IsActive, IsDisplayable, IsDefault;
  }

  lemma {:induction false} ShownAndHidden(options: seq<LoadOption>, l: nat, i: nat)
    requires Assigned(options) && l <= |options| && i <= |options|
    ensures |ShownNumbers(options, l, i)| + |HiddenNumbers(options, if i < l then i else l)| == i
    ensures forall k :: 0 <= k < i && IsShown(options, l, k) ==> options[k].number.n in ShownNumbers(options, l, i)
    ensures forall x :: x in ShownNumbers(options, l, i) ==>
      exists k :: 0 <= k < i && IsShown(options, l, k) && options[k].number.n == x
  {
    hide IsDisplayable;
    if i == 0 {
    } else {
      ShownAndHidden(options, l, i - 1);
      var before, after := ShownNumbers(options, l, i - 1), ShownNumbers(options, l, i);
      assert after == before || (IsShown(options, l, i - 1) && after == before + [options[i - 1].number.n]);
    }
  }

  lemma {:induction false} MissingAreHidden(options: seq<LoadOption>, l: nat, i: nat)
    requires Assigned(options) && Distinct(options) && i <= l <= |options|
    ensures Missing(options, ShownNumbers(options, l, |options|), i) == HiddenNumbers(options, i)
  {
    if i == 0 {
    } else {
      hide IsDisplayable;
      MissingAreHidden(options, l, i - 1);
      ShownAndHidden(options, l, |options|);
      var n := options[i - 1].number.n;
      if n in ShownNumbers(options, l, |options|) {
        var k :| 0 <= k < |options| && IsShown(options, l, k) && options[k].number.n == n;
        assert options[k].number == options[i - 1].number;
        assert k == i - 1;
      }
    }
  }

  lemma {:induction false} AllShown(options: seq<LoadOption>, l: nat, i: nat)
    requires Assigned(options) && l <= |options| && i <= |options|
    requires forall k :: 0 <= k < l ==> IsDisplayable(options[k].body.attributes)
    ensures ShownNumbers(options, l, i) == Numbers(options)[..i]
  {
    hide IsDisplayable;
    if i == 0 {
    } else {
      AllShown(options, l, i - 1);
      assert Numbers(options)[..i] == Numbers(options)[..i - 1] + [options[i - 1].number.n];
    }
  }

  ghost predicate Unedited(m: Menu, e: Edit) {
    e.lockSetting != Some(true) && e.edited == Some(m.list) && e.copied
  }

  /** BootOrder is absent or a non-empty order; the store cannot hold empty data. */
  predicate OrderStored(s: Store) {
    BOOT_ORDER in s.vars ==> s.vars[BOOT_ORDER].Order? && s.vars[BOOT_ORDER].numbers != []
  }

  lemma SameOrderAgain(s: Store)
    requires OrderStored(s)
    ensures s.WriteOrder(s.BootOrder()) == s
  {
    var s' := s.WriteOrder(s.BootOrder());
    assert s'.vars == s.vars;
  }

  /**
   Routing a freshly rebuilt list that nobody edited, with no hidden or app option
   in the displayed range, writes BootOrder without its dangling entries and changes
   nothing else: no dialog, no option touched.
   */
  lemma UneditedDropsTheDangling(store: Store, p: Platform, e: Edit)
    requires p.Valid()
    requires var m := Rebuild(store, p);
             Unedited(m, e)
             && forall k :: 0 <= k < Limit(m.options, p) ==> IsDisplayable(m.options[k].body.attributes)
    ensures var order := Existing(store, store.BootOrder());
            Route(Rebuild(store, p), p, e) == Routed(Rebuild(store.WriteOrder(order), p), [], Some(order))
  {
    var m := Rebuild(store, p);
    RebuildFacts(store, p);
    UneditedScan(m, p, |m.options|);
    AllShown(m.options, Limit(m.options, p), |m.options|);
    hide ScanTo, Load, IsDisplayable, OptionAt;
    assert Scanned(m, e) == m;
    assert ScanTo(m, p, |m.options|).order == Numbers(m.options);
  }

  /**
   So without dangling entries it is the identity: same order, same options, same
   store, whatever the dialogs would answer.
   */
  lemma UneditedIsIdentity(store: Store, p: Platform, e: Edit)
    requires p.Valid() && store.NoDangling() && OrderStored(store)
    requires var m := Rebuild(store, p);
             Unedited(m, e)
             && forall k :: 0 <= k < Limit(m.options, p) ==> IsDisplayable(m.options[k].body.attributes)
    ensures Route(Rebuild(store, p), p, e) == Routed(Rebuild(store, p), [], Some(store.BootOrder()))
  {
    UneditedDropsTheDangling(store, p, e);
    AllExisting(store, store.BootOrder());
    SameOrderAgain(store);
  }

  /**
   With distinct numbers, routing an unedited list offers for deletion exactly the
   hidden and app options of the displayed range, although nobody removed them.
   */
  lemma UneditedOffersTheHidden(store: Store, p: Platform, e: Edit)
    requires p.Valid()
    requires var m := Rebuild(store, p); Unedited(m, e) && Distinct(m.options)
    ensures var m := Rebuild(store, p);
            Route(m, p, e).prompts == HiddenNumbers(m.options, Limit(m.options, p))
  {
    var m := Rebuild(store, p);
    var l := Limit(m.options, p);
    RebuildFacts(store, p);
    UneditedScan(m, p, |m.options|);
    assert Scanned(m, e) == m;
    RouteEffects(m, p, e);
    RequestedIsScanned(m, p, e);
    MissingAreHidden(m.options, l, l);
    ShownAndHidden(m.options, l, |m.options|);
    hide Route, ScanTo, Load, IsDisplayable, OptionAt;
  }

  lemma {:induction false} HiddenIsNotShown(options: seq<LoadOption>, l: nat, i: nat, k: nat)
    requires Assigned(options) && k < l <= |options| && k < i <= |options|
    requires !IsDisplayable(options[k].body.attributes)
    ensures |ShownNumbers(options, l, i)| < i
  {
    hide IsDisplayable;
    ShownAndHidden(options, l, i - 1);
    if k == i - 1 {
    } else {
      HiddenIsNotShown(options, l, i - 1, k);
    }
  }

  /** With a hidden or app option in range the call prompts or does not write the order. */
  lemma HiddenPreventsIdentity(store: Store, p: Platform, e: Edit, k: nat)
    requires p.Valid()
    requires var m := Rebuild(store, p);
             Unedited(m, e) && k < Limit(m.options, p) && !IsDisplayable(m.options[k].body.attributes)
    ensures var r := Route(Rebuild(store, p), p, e); r.prompts != [] || r.written == None
  {
    var m := Rebuild(store, p);
    var l := Limit(m.options, p);
    RebuildFacts(store, p);
    UneditedScan(m, p, |m.options|);
    HiddenIsNotShown(m.options, l, |m.options|, k);
    assert Scanned(m, e) == m;
    RouteEffects(m, p, e);
    RequestedIsScanned(m, p, e);
    MissingIsMissing(m.options, Requested(m, p, e), l);
    hide Route, ScanTo, Load, IsDisplayable, OptionAt, Missing, Requested;
  }

  /**
   Routing an unedited list is the identity exactly when no option in the displayed
   range is hidden or an app and BootOrder has no dangling entry.
   */
  lemma UneditedIsIdentityExactly(store: Store, p: Platform, e: Edit)
    requires p.Valid() && OrderStored(store) && Unedited(Rebuild(store, p), e)
    ensures var m := Rebuild(store, p);
            Route(m, p, e) == Routed(m, [], Some(store.BootOrder()))
            <==> store.NoDangling()
                 && forall k :: 0 <= k < Limit(m.options, p) ==> IsDisplayable(m.options[k].body.attributes)
  {
    var m := Rebuild(store, p);
    hide Route, Rebuild, IsDisplayable;
    if k :| 0 <= k < Limit(m.options, p) && !IsDisplayable(m.options[k].body.attributes) {
      HiddenPreventsIdentity(store, p, e, k);
    } else if store.NoDangling() {
      UneditedIsIdentity(store, p, e);
    } else {
      UneditedDropsTheDangling(store, p, e);
      ExistingExists(store, store.BootOrder());
    }
  }

  lemma {:induction false} ExistingExists(store: Store, order: seq<bv16>)
    ensures forall n :: n in Existing(store, order) ==> store.HasOption(n)
  {
    if order == [] {
    } else {
      ExistingExists(store, order[..|order| - 1]);
    }
  }
}
