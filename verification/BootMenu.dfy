/** The boot menu driver: its globals, RebuildOrderList and the BootOrderConfig branch of RouteConfig. */
module BootMenu {
  import opened Efi
  import opened VariableStore
  import opened LoadOptionEncoding
  import opened BootOrderModel

  class BootMenuDriver {
    const p: Platform
    const nv: Nvram
    const orderOptions: array<bv32>
    var options: seq<LoadOption>

    /** Holds throughout; between deletion and the rebuild some options have no number. */
    ghost predicate WellFormed() {
      p.Valid() && orderOptions.Length == p.maxDisplayed
    }

    ghost predicate Valid()
      reads this
    {
      WellFormed() && Assigned(options)
    }

    /** The abstract state. */
    ghost function Model(): Menu
      reads this, nv, orderOptions
    {
      Menu(options, orderOptions[..], nv.store)
    }

    constructor (p: Platform, nv: Nvram)
      requires p.Valid()
      ensures Valid() && this.p == p && this.nv == nv && fresh(orderOptions)
      ensures Model() == Rebuild(nv.store, p)
    {
      this.p := p;
      this.nv := nv;
      orderOptions := new bv32[p.maxDisplayed];
      options := [];
      new;
      RebuildOrderList();
    }

    method BootOptionLimit() returns (limit: nat)
      ensures limit == Limit(options, p)
    {
      limit := if |options| < p.maxDisplayed then |options| else p.maxDisplayed;
    }

    /** The options are loaded afresh, and the list shows exactly those that may be shown. */
    method RebuildOrderList()
      requires WellFormed()
      modifies this, orderOptions
      ensures Valid() && Model() == Rebuild(nv.store, p)
    {
      hide Load, Encode, IsActive, IsDefault, IsDisplayable;
      for k := 0 to orderOptions.Length
        invariant forall j :: 0 <= j < k ==> orderOptions[j] == 0
      {
        orderOptions[k] := 0;
      }
      options := Load(nv.store, nv.store.BootOrder());
      ghost var loaded := options;
      var limit := BootOptionLimit();
      for index := 0 to limit
        invariant Valid() && options == loaded
        invariant forall j :: 0 <= j < index ==> orderOptions[j] == Entry(options[j], p)
        invariant forall j :: index <= j < orderOptions.Length ==> orderOptions[j] == 0
      {
        var o := options[index];
        if !IsDisplayable(o.body.attributes) {
          continue;
        }
        orderOptions[index] :=
          Encode(o.number.n, IsActive(o.body.attributes), !IsDefault(o.body, p.defaults), p.flags);
      }
      assert orderOptions[..] == Entries(options, p);
    }

    /** The checkbox of one listed option, applied to the first displayed option with its number. */
    method ApplyCheckbox(thisOption: bv16, thisActive: bool)
      requires Valid()
      modifies this, nv
      ensures Valid()
      ensures var t := Toggle(old(options), old(nv.store), Limit(old(options), p), thisOption, thisActive);
              options == t.options && nv.store == t.store
    {
      var limit := BootOptionLimit();
      var index2 := 0;
      while index2 < limit
        invariant 0 <= index2 <= limit
        invariant FindFrom(options, limit, thisOption, 0) == FindFrom(options, limit, thisOption, index2)
        invariant options == old(options) && nv.store == old(nv.store)
      {
        if options[index2].number == Number(thisOption) {
          var prevActive := IsActive(options[index2].body.attributes);
          if thisActive != prevActive {
            var body := options[index2].body.(attributes := ToggleActive(options[index2].body.attributes));
            options := options[index2 := options[index2].(body := body)];
            nv.SetVariable(BootName(thisOption), BootOption(body));
          }
          break;
        }
        index2 := index2 + 1;
      }
    }

    /** The new order is filled slot by slot; it never outgrows its one slot per option. */
    method ScanList(newBootOrder: array<bv16>) returns (count: nat, bootNow: Option<bv16>)
      requires Valid() && newBootOrder.Length == |options|
      modifies this, nv, newBootOrder
      ensures Valid() && count <= newBootOrder.Length && orderOptions[..] == old(orderOptions[..])
      ensures ScanTo(old(Model()), p, |old(options)|) == Scan(newBootOrder[..count], options, nv.store, bootNow)
    {
      hide ScanTo, Toggle, HasBit, Decode;
      ghost var m := Model();
      var index := 0;
      count, bootNow := 0, None;
      ScanStart(m, p);
      var limit := BootOptionLimit();
      while index < |options|
        invariant 0 <= index <= |options| == |m.options| == newBootOrder.Length && count <= index
        invariant Valid() && orderOptions[..] == m.list
        invariant ScanTo(m, p, index) == Scan(newBootOrder[..count], options, nv.store, None)
        invariant bootNow == None
        decreases |options| - index
      {
        ScanStep(m, p, index);
        if index < limit {
          var value := orderOptions[index];
          assert value == m.list[index];
          if value != 0 {
            var thisOption := Decode(value);
            if HasBit(value, p.flags.boot) {
              ScanStops(m, p, index + 1, |options|);
              return count, Some(thisOption);
            }
            newBootOrder[count] := thisOption;
            count := count + 1;
            ApplyCheckbox(thisOption, HasBit(value, p.flags.checkbox));
          }
        } else {
          newBootOrder[count] := options[index].number.n;
          count := count + 1;
        }
        index := index + 1;
      }
    }

    /** Displayed options in the new order lose their number in place. */
    method MarkSurvivors(newBootOrder: array<bv16>, count: nat)
      requires Valid() && count <= newBootOrder.Length
      modifies this
      ensures options == Mark(old(options), Limit(old(options), p), newBootOrder[..count])
    {
      ghost var before := options;
      var limit := BootOptionLimit();
      var index := 0;
      while index < limit
        invariant 0 <= index <= limit && |options| == |before|
        invariant forall k :: 0 <= k < index ==>
          options[k] == Mark(before, Limit(before, p), newBootOrder[..count])[k]
        invariant forall k :: index <= k < |options| ==> options[k] == before[k]
      {
        var index2 := 0;
        while index2 < count
          invariant 0 <= index2 <= count && |options| == |before|
          invariant forall k :: 0 <= k < index ==>
            options[k] == Mark(before, Limit(before, p), newBootOrder[..count])[k]
          invariant forall k :: index <= k < |options| ==> options[k] == before[k]
          invariant forall j :: 0 <= j < index2 ==> before[index].number != Number(newBootOrder[j])
        {
          if options[index].number == Number(newBootOrder[index2]) {
            assert newBootOrder[index2] in newBootOrder[..count];
            options := options[index := options[index].(number := Unassigned)];
            break;
          }
          index2 := index2 + 1;
        }
        index := index + 1;
      }
    }

    /** Every displayed option still numbered is offered for deletion, and deleted when confirmed. */
    method DeleteRest(confirm: nat -> bool, limit: nat) returns (prompts: seq<bv16>, confirmed: bool)
      requires limit <= |options|
      modifies nv
      ensures SweepTo(options, old(nv.store), confirm, limit) == Sweep(nv.store, prompts, confirmed)
    {
      prompts, confirmed := [], false;
      for index := 0 to limit
        invariant SweepTo(options, old(nv.store), confirm, index) == Sweep(nv.store, prompts, confirmed)
      {
        match options[index].number
        case Unassigned =>
        case Number(n) =>
          prompts := prompts + [n];
          if confirm(index) {
            confirmed := true;
            nv.DropFromBootOrder(n);
            nv.DeleteVariable(BootName(n));
          }
      }
    }

    /** The whole branch, from the lock setting to the final rebuild. */
    method RouteConfig(e: Edit) returns (prompts: seq<bv16>, written: Option<seq<bv16>>)
      requires Valid() && (e.edited.Some? ==> |e.edited.value| == p.maxDisplayed)
      modifies this, nv, orderOptions
      ensures Valid()
      ensures Routed(Model(), prompts, written) == Route(old(Model()), p, e)
    {
      hide ScanTo, SweepTo, Mark, Load, Entries;
      prompts, written := [], None;
      if e.lockSetting == Some(true) || e.edited.None? {
        return;
      }
      CopyList(e.edited.value);
      assert Model() == old(Model()).(list := e.edited.value);
      if !e.copied {
        return;
      }
      var newBootOrder := new bv16[|options|](_ => 0);
      var count, bootNow := ScanList(newBootOrder);
      if bootNow.Some? {
        if e.bootConfirmed {
          SetBootNext(bootNow.value);
          return;
        }
      } else {
        var allowSetBootOrder := true;
        if |options| != count {
          var limit := BootOptionLimit();
          MarkSurvivors(newBootOrder, count);
          prompts, allowSetBootOrder := DeleteRest(e.confirm, limit);
        }
        if allowSetBootOrder {
          nv.SetBootOrder(newBootOrder[..count]);
          written := Some(newBootOrder[..count]);
        }
      }
      RebuildOrderList();
    }

    /** ConfigToBlock: the edited list replaces the list shown. */
    method CopyList(edited: seq<bv32>)
      requires |edited| == orderOptions.Length
      modifies orderOptions
      ensures orderOptions[..] == edited
    {
      for k := 0 to |edited|
        invariant orderOptions[..k] == edited[..k]
      {
        orderOptions[k] := edited[k];
      }
      assert edited[..|edited|] == edited;
    }

    method SetBootNext(n: bv16)
      modifies nv
      ensures nv.store == BootNow(old(nv.store), n)
    {
      var locked := BOOT_NEXT in nv.store.locked;
      nv.SetVariable(BOOT_NEXT, Next(n));
      if !locked {
        nv.SetVariable(MS_BOOT_NEXT, Flag(true));
      }
    }
  }
}
