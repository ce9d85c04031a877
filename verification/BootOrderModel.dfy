/**
 The boot-order editor on values: how load options become list entries, how an
 edited list becomes a new boot order, and which options are offered for deletion.
 The class in module BootMenu is proved against these functions.
 */
module BootOrderModel {
  import opened Efi
  import opened VariableStore
  import opened LoadOptionEncoding

  datatype OptionNumber = Number(n: bv16) | Unassigned

  datatype LoadOption = LoadOption(number: OptionNumber, body: OptionBody)

  /** The display limit, the flag bits and the default options of the platform. */
  datatype Platform = Platform(flags: Flags, maxDisplayed: nat, defaults: seq<OptionBody>) {
    predicate Valid() {
      flags.Valid() && maxDisplayed <= 255
    }
  }

  /** The loaded options, the order list shown, and the variable store. */
  datatype Menu = Menu(options: seq<LoadOption>, list: seq<bv32>, store: Store)

  function Limit(options: seq<LoadOption>, p: Platform): nat {
    if |options| < p.maxDisplayed then |options| else p.maxDisplayed
  }

  ghost predicate Assigned(options: seq<LoadOption>) {
    forall k :: 0 <= k < |options| ==> options[k].number.Number?
  }

  ghost predicate Distinct(options: seq<LoadOption>) {
    forall j, k :: 0 <= j < k < |options| ==> options[j].number != options[k].number
  }

  function Numbers(options: seq<LoadOption>): (r: seq<bv16>)
    requires Assigned(options)
    ensures |r| == |options|
  {
    seq(|options|, k requires 0 <= k < |options| => options[k].number.n)
  }

  // --------------------------------------------------------------- rebuild

  /** GetLoadOptions: the options BootOrder names, in order, skipping those without a variable. */
  function Load(store: Store, order: seq<bv16>): (r: seq<LoadOption>)
    ensures Assigned(r)
  {
    if order == [] then []
    else
      var before := Load(store, order[..|order| - 1]);
      var n := order[|order| - 1];
      if store.HasOption(n) then before + [LoadOption(Number(n), store.vars[BootName(n)].body)] else before
  }

  function Entry(o: LoadOption, p: Platform): bv32 {
    if o.number.Number? && IsDisplayable(o.body.attributes)
    then Encode(o.number.n, IsActive(o.body.attributes), !IsDefault(o.body, p.defaults), p.flags)
    else 0
  }

  /** One slot per displayed option; hidden and app options, and the slots past the last option, stay zero. */
  function Entries(options: seq<LoadOption>, p: Platform): (r: seq<bv32>)
    ensures |r| == p.maxDisplayed
  {
    seq(p.maxDisplayed, i requires 0 <= i => if i < Limit(options, p) then Entry(options[i], p) else 0)
  }

  function Rebuild(store: Store, p: Platform): Menu {
    var options := Load(store, store.BootOrder());
    Menu(options, Entries(options, p), store)
  }

  // -------------------------------------------------------- scan the list

  /** The first displayed option with number n, or the limit. */
  function FindFrom(options: seq<LoadOption>, limit: nat, n: bv16, from: nat): (r: nat)
    requires from <= limit <= |options|
    ensures from <= r <= limit
    ensures r < limit ==> options[r].number == Number(n)
    ensures forall k :: from <= k < r ==> options[k].number != Number(n)
    decreases limit - from
  {
    if from == limit || options[from].number == Number(n) then from
    else FindFrom(options, limit, n, from + 1)
  }

  datatype Toggled = Toggled(options: seq<LoadOption>, store: Store)

  /** Bring the ACTIVE bit of the displayed option n in line with its checkbox, writing the option if it changes. */
  function Toggle(options: seq<LoadOption>, store: Store, limit: nat, n: bv16, active: bool): (r: Toggled)
    requires limit <= |options|
    ensures |r.options| == |options|
  {
    var k := FindFrom(options, limit, n, 0);
    if k == limit || IsActive(options[k].body.attributes) == active then Toggled(options, store)
    else
      var body := options[k].body.(attributes := ToggleActive(options[k].body.attributes));
      Toggled(options[k := options[k].(body := body)], store.Write(BootName(n), BootOption(body)))
  }

  /** The loop over the list: the order so far, the options and the store, and the boot-now request met. */
  datatype Scan = Scan(order: seq<bv16>, options: seq<LoadOption>, store: Store, bootNow: Option<bv16>)

  ghost predicate Scannable(m: Menu, p: Platform) {
    |m.list| == p.maxDisplayed && Assigned(m.options)
  }

  function ScanTo(m: Menu, p: Platform, i: nat): (r: Scan)
    requires Scannable(m, p) && i <= |m.options|
    ensures |r.options| == |m.options| && |r.order| <= i
    ensures forall k :: 0 <= k < |m.options| ==> r.options[k].number == m.options[k].number
  {
    if i == 0 then Scan([], m.options, m.store, None)
    else
      var s := ScanTo(m, p, i - 1);
      if s.bootNow.Some? then s
      else if i - 1 < Limit(m.options, p) then
        var v := m.list[i - 1];
        if v == 0 then s
        else if HasBit(v, p.flags.boot) then s.(bootNow := Some(Decode(v)))
        else
          var t := Toggle(s.options, s.store, Limit(m.options, p), Decode(v), HasBit(v, p.flags.checkbox));
          Scan(s.order + [Decode(v)], t.options, t.store, None)
      else s.(order := s.order + [s.options[i - 1].number.n])
  }

  lemma ScanStart(m: Menu, p: Platform)
    requires Scannable(m, p)
    ensures ScanTo(m, p, 0) == Scan([], m.options, m.store, None)
  {
  }

  lemma ScanStep(m: Menu, p: Platform, i: nat)
    requires Scannable(m, p) && i < |m.options| && ScanTo(m, p, i).bootNow.None?
    ensures
      var s, s' := ScanTo(m, p, i), ScanTo(m, p, i + 1);
      if i < Limit(m.options, p) then
        var v := m.list[i];
        if v == 0 then s' == s
        else if HasBit(v, p.flags.boot) then s' == s.(bootNow := Some(Decode(v)))
        else
          var t := Toggle(s.options, s.store, Limit(m.options, p), Decode(v), HasBit(v, p.flags.checkbox));
          s' == Scan(s.order + [Decode(v)], t.options, t.store, None)
      else s' == s.(order := s.order + [s.options[i].number.n])
  {
    hide HasBit, Decode, Toggle;
  }

  lemma {:induction false} ScanStops(m: Menu, p: Platform, i: nat, j: nat)
    requires Scannable(m, p) && i <= j <= |m.options| && ScanTo(m, p, i).bootNow.Some?
    ensures ScanTo(m, p, j) == ScanTo(m, p, i)
  {
    hide HasBit, Decode, Toggle;
    if i == j {
    } else {
      ScanStops(m, p, i, j - 1);
    }
  }

  // ------------------------------------------------------ delete the rest

  /** Displayed options named in the new order lose their number. */
  function Mark(options: seq<LoadOption>, limit: nat, order: seq<bv16>): (r: seq<LoadOption>)
    requires limit <= |options|
    ensures |r| == |options|
  {
    seq(|options|, k requires 0 <= k < |options| =>
      if k < limit && options[k].number.Number? && options[k].number.n in order
      then options[k].(number := Unassigned) else options[k])
  }

  /** EfiBootManagerDeleteLoadOptionVariable drops the number from BootOrder; then Boot#### itself is deleted. */
  function DeleteOption(store: Store, n: bv16): Store {
    store.Unlist(n).Delete(BootName(n))
  }

  datatype Sweep = Sweep(store: Store, prompts: seq<bv16>, confirmed: bool)

  /** The loop that offers every option still numbered for deletion; confirm answers the dialogs. */
  function SweepTo(marked: seq<LoadOption>, store: Store, confirm: nat -> bool, i: nat): Sweep
    requires i <= |marked|
  {
    if i == 0 then Sweep(store, [], false)
    else
      var s := SweepTo(marked, store, confirm, i - 1);
      match marked[i - 1].number
      case Unassigned => s
      case Number(n) =>
        if confirm(i - 1) then Sweep(DeleteOption(s.store, n), s.prompts + [n], true)
        else s.(prompts := s.prompts + [n])
  }

  // ----------------------------------------------------------------- route

  /**
   What is edited and answered during one RouteConfig call: edited is what
   ConfigToBlock leaves in the list, copied whether it succeeds.
   */
  datatype Edit = Edit(
    lockSetting: Option<bool>,
    edited: Option<seq<bv32>>,
    copied: bool,
    bootConfirmed: bool,
    confirm: nat -> bool)

  datatype Routed = Routed(menu: Menu, prompts: seq<bv16>, written: Option<seq<bv16>>)

  function BootNow(store: Store, n: bv16): Store {
    var next := store.Write(BOOT_NEXT, Next(n));
    if BOOT_NEXT in store.locked then next else next.Write(MS_BOOT_NEXT, Flag(true))
  }

  function Commit(s: Scan, p: Platform, confirm: nat -> bool): Routed {
    if |s.options| == |s.order| then
      Routed(Rebuild(s.store.WriteOrder(s.order), p), [], Some(s.order))
    else
      var limit := Limit(s.options, p);
      var w := SweepTo(Mark(s.options, limit, s.order), s.store, confirm, limit);
      if w.confirmed
      then Routed(Rebuild(w.store.WriteOrder(s.order), p), w.prompts, Some(s.order))
      else Routed(Rebuild(w.store, p), w.prompts, None)
  }

  function Route(m: Menu, p: Platform, e: Edit): Routed
    requires Scannable(m, p) && (e.edited.Some? ==> |e.edited.value| == p.maxDisplayed)
  {
    if e.lockSetting == Some(true) || e.edited.None? then Routed(m, [], None)
    else
      var m' := m.(list := e.edited.value);
      if !e.copied then Routed(m', [], None)
      else
        var s := ScanTo(m', p, |m'.options|);
        match s.bootNow
        case None => Commit(s, p, e.confirm)
        case Some(n) =>
          if e.bootConfirmed then Routed(Menu(s.options, m'.list, BootNow(s.store, n)), [], None)
          else Routed(Rebuild(s.store, p), [], None)
  }
}
