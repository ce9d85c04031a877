/** What routing an edited boot order does to the order, the options and the store. */
module BootOrderProperties {
  import opened Efi
  import opened VariableStore
  import opened LoadOptionEncoding
  import opened BootOrderModel

  // -------------------------------------------------- single store updates

  function OptionAt(s: Store, n: bv16): Option<OptionBody> {
    if s.HasOption(n) then Some(s.vars[BootName(n)].body) else None
  }

  lemma WriteOptionFacts(s: Store, n: bv16, body: OptionBody)
    ensures var s' := s.Write(BootName(n), BootOption(body));
            && s'.BootOrder() == s.BootOrder() && s'.locked == s.locked
            && (forall x {:trigger OptionAt(s', x)} :: x != n ==> OptionAt(s', x) == OptionAt(s, x))
            && (BootName(n) !in s.locked ==> OptionAt(s', n) == Some(body))
            && (BootName(n) in s.locked ==> s' == s)
  {
    BootNameIsNoOther(n);
    var s' := s.Write(BootName(n), BootOption(body));
    forall x | x != n ensures OptionAt(s', x) == OptionAt(s, x) {
      if BootName(x) == BootName(n) { BootNameInjective(x, n); }
    }
  }

  lemma WriteOrderFacts(s: Store, order: seq<bv16>)
    ensures var s' := s.WriteOrder(order);
            && s'.locked == s.locked
            && (forall x {:trigger OptionAt(s', x)} :: OptionAt(s', x) == OptionAt(s, x))
            && (BOOT_ORDER !in s.locked ==> s'.BootOrder() == order)
            && (BOOT_ORDER in s.locked ==> s' == s)
  {
    var s' := s.WriteOrder(order);
    forall x ensures OptionAt(s', x) == OptionAt(s, x) { BootNameIsNoOther(x); }
  }

  lemma DeleteFacts(s: Store, n: bv16)
    ensures var s' := s.Delete(BootName(n));
            && s'.BootOrder() == s.BootOrder() && s'.locked == s.locked
            && (forall x {:trigger OptionAt(s', x)} :: x != n ==> OptionAt(s', x) == OptionAt(s, x))
            && (BootName(n) !in s.locked ==> BootName(n) !in s'.vars && OptionAt(s', n) == None)
            && (BootName(n) in s.locked ==> s' == s)
  {
    BootNameIsNoOther(n);
    var s' := s.Delete(BootName(n));
    forall x | x != n ensures OptionAt(s', x) == OptionAt(s, x) {
      if BootName(x) == BootName(n) { BootNameInjective(x, n); }
    }
  }

  lemma {:induction false} WithoutFirstIsSublist(order: seq<bv16>, n: bv16)
    ensures forall x :: x in WithoutFirst(order, n) ==> x in order
  {
    if order == [] {
    } else {
      WithoutFirstIsSublist(order[1..], n);
    }
  }

  lemma DeleteOptionFacts(s: Store, n: bv16)
    ensures var s' := DeleteOption(s, n);
            && s'.locked == s.locked
            && (forall x {:trigger OptionAt(s', x)} :: x != n ==> OptionAt(s', x) == OptionAt(s, x))
            && (BootName(n) !in s.locked ==> BootName(n) !in s'.vars && OptionAt(s', n) == None)
            && (BootName(n) in s.locked ==> OptionAt(s', n) == OptionAt(s, n))
            && (forall x :: x in s'.BootOrder() ==> x in s.BootOrder())
  {
    hide OptionAt;
    var u := s.Unlist(n);
    assert u.locked == s.locked && (forall x {:trigger OptionAt(u, x)} :: OptionAt(u, x) == OptionAt(s, x))
      && forall x :: x in u.BootOrder() ==> x in s.BootOrder() by {
      if n in s.BootOrder() {
        WriteOrderFacts(s, WithoutFirst(s.BootOrder(), n));
        WithoutFirstIsSublist(s.BootOrder(), n);
      }
    }
    DeleteFacts(u, n);
  }

  /** A deletion takes the first mention of the number out of a BootOrder that can be written. */
  lemma DeletionUnlists(s: Store, n: bv16, i: nat)
    requires i < |s.BootOrder()| && s.BootOrder()[i] == n && n !in s.BootOrder()[..i]
    ensures DeleteOption(s, n).BootOrder()
      == if BOOT_ORDER in s.locked then s.BootOrder() else s.BootOrder()[..i] + s.BootOrder()[i + 1..]
  {
    WithoutFirstDrops(s.BootOrder(), n, i);
    WriteOrderFacts(s, WithoutFirst(s.BootOrder(), n));
    DeleteFacts(s.Unlist(n), n);
  }

  lemma {:induction false} WithoutFirstDrops(order: seq<bv16>, n: bv16, i: nat)
    requires i < |order| && order[i] == n && n !in order[..i]
    ensures WithoutFirst(order, n) == order[..i] + order[i + 1..]
  {
    if i == 0 {
    } else {
      assert order[0] in order[..i] && order[1..][..i - 1] == order[..i][1..];
      WithoutFirstDrops(order[1..], n, i - 1);
    }
  }

  // --------------------------------------------------------- the list shown

  /**
   A slot is filled exactly for a displayed option that is neither hidden nor an app,
   and says what that option is: its number, a checkbox when it is active, and the
   delete bit unless some default is that option apart from its ACTIVE bit.
   */
  lemma EntryTells(options: seq<LoadOption>, p: Platform, i: nat)
    requires p.Valid() && Assigned(options) && i < p.maxDisplayed
    ensures var v := Entries(options, p)[i];
            && (v != 0 <==> i < |options| && IsDisplayable(options[i].body.attributes))
            && (v != 0 ==>
                  var o := options[i];
                  && Decode(v) == o.number.n
                  && (HasBit(v, p.flags.checkbox) <==> IsActive(o.body.attributes))
                  && (!HasBit(v, p.flags.allowDelete)
                      <==> exists k :: 0 <= k < |p.defaults|
                                       && p.defaults[k].description == o.body.description
                                       && ActiveCleared(p.defaults[k].attributes) == ActiveCleared(o.body.attributes))
                  && !HasBit(v, p.flags.boot))
  {
    hide HasBit, Decode, Encode, IsActive, IsDisplayable, IsDefault, ActiveCleared;
    if i < |options| {
      var o := options[i];
      var active, deletable := IsActive(o.body.attributes), !IsDefault(o.body, p.defaults);
      DefaultMeans(o.body, p.defaults);
      DecodeEncode(o.number.n, active, deletable, p.flags);
    }
  }

  // --------------------------------------------------------- the new order

  /** The numbers of the non-zero entries among the first i, in list order. */
  function Listed(list: seq<bv32>, i: nat): seq<bv16>
    requires i <= |list|
  {
    if i == 0 then []
    else if list[i - 1] == 0 then Listed(list, i - 1)
    else Listed(list, i - 1) + [Decode(list[i - 1])]
  }

  predicate IsFilled(v: bv32) {
    v != 0
  }

  /** The positions of the filled entries among the first i. */
  function FilledAt(list: seq<bv32>, i: nat): (r: seq<nat>)
    requires i <= |list|
    ensures forall j :: 0 <= j < |r| ==> r[j] < i
  {
    if i == 0 then [] else FilledAt(list, i - 1) + if IsFilled(list[i - 1]) then [i - 1] else []
  }

  lemma {:induction false} FilledRise(list: seq<bv32>, i: nat)
    requires i <= |list|
    ensures forall j, k :: 0 <= j < k < |FilledAt(list, i)| ==> FilledAt(list, i)[j] < FilledAt(list, i)[k]
  {
    hide IsFilled;
    if i == 0 {
    } else {
      FilledRise(list, i - 1);
    }
  }

  lemma {:induction false} FilledAreAll(list: seq<bv32>, i: nat, k: nat)
    requires k < i <= |list|
    ensures k in FilledAt(list, i) <==> list[k] != 0
  {
    if k == i - 1 {
    } else {
      FilledAreAll(list, i - 1, k);
    }
  }

  /** In list order, and nothing else: the numbers are decoded from the rising positions of the filled entries. */
  lemma {:induction false} ListedInOrder(list: seq<bv32>, i: nat)
    requires i <= |list|
    ensures |Listed(list, i)| == |FilledAt(list, i)|
    ensures forall j :: 0 <= j < |Listed(list, i)| ==> Listed(list, i)[j] == Decode(list[FilledAt(list, i)[j]])
  {
    hide Decode;
    if i == 0 {
    } else {
      ListedInOrder(list, i - 1);
    }
  }

  /** None of the first i entries displayed asks to boot. */
  ghost predicate NoBootNow(m: Menu, p: Platform, i: nat)
    requires Scannable(m, p)
  {
    forall k :: 0 <= k < i && k < Limit(m.options, p) && m.list[k] != 0 ==> !HasBit(m.list[k], p.flags.boot)
  }

  function Min(a: nat, b: nat): nat {
    if a < b then a else b
  }

  /** The listed numbers of the first i slots, and behind the display limit the options themselves. */
  function OrderAfter(m: Menu, p: Platform, i: nat): seq<bv16>
    requires Scannable(m, p) && i <= |m.options|
  {
    var l := Limit(m.options, p);
    if i <= l then Listed(m.list, i) else Listed(m.list, l) + Numbers(m.options)[l..i]
  }

  lemma OrderStart(m: Menu, p: Platform)
    requires Scannable(m, p)
    ensures OrderAfter(m, p, 0) == []
  {
  }

  lemma OrderStep(m: Menu, p: Platform, i: nat)
    requires Scannable(m, p) && i < |m.options|
    ensures OrderAfter(m, p, i + 1)
      == OrderAfter(m, p, i)
         + if i >= Limit(m.options, p) then [m.options[i].number.n]
           else if m.list[i] == 0 then [] else [Decode(m.list[i])]
  {
    hide Decode;
    var l, numbers := Limit(m.options, p), Numbers(m.options);
    if i >= l {
      assert numbers[l..i + 1] == numbers[l..i] + [numbers[i]];
    }
  }

  lemma {:induction false} OrderSoFar(m: Menu, p: Platform, i: nat)
    requires Scannable(m, p) && NoBootNow(m, p, i) && i <= |m.options|
    ensures ScanTo(m, p, i).bootNow == None
    ensures ScanTo(m, p, i).order == OrderAfter(m, p, i)
  {
    hide ScanTo, HasBit, Decode, Toggle, OrderAfter;
    if i == 0 {
      ScanStart(m, p);
      OrderStart(m, p);
    } else {
      OrderSoFar(m, p, i - 1);
      OrderStep(m, p, i - 1);
      ScanStep(m, p, i - 1);
    }
  }

  /** Without a boot-now request the new order is the listed numbers, then the undisplayed tail. */
  lemma NewOrder(m: Menu, p: Platform)
    requires Scannable(m, p) && NoBootNow(m, p, |m.options|)
    ensures var s, l := ScanTo(m, p, |m.options|), Limit(m.options, p);
            && s.bootNow == None
            && s.order == Listed(m.list, l) + Numbers(m.options)[l..]
            && |s.order| <= |m.options|
  {
    OrderSoFar(m, p, |m.options|);
  }

  // ------------------------------------------------------- the ACTIVE bits

  /** The checkbox of the last of the first i entries that lists n. */
  function LastBox(list: seq<bv32>, i: nat, n: bv16, f: Flags): Option<bool>
    requires i <= |list|
  {
    if i == 0 then None
    else if list[i - 1] != 0 && Decode(list[i - 1]) == n then Some(HasBit(list[i - 1], f.checkbox))
    else LastBox(list, i - 1, n, f)
  }

  /** Entry j lists n, and none of the entries behind it does. */
  ghost predicate ListsLast(list: seq<bv32>, i: nat, n: bv16, j: nat)
    requires j < i <= |list|
  {
    list[j] != 0 && Decode(list[j]) == n && forall k :: j < k < i && list[k] != 0 ==> Decode(list[k]) != n
  }

  /** It is the checkbox of an entry that lists n with no such entry behind it; there is none when no entry lists n. */
  lemma {:induction false} LastBoxIsLast(list: seq<bv32>, i: nat, n: bv16, f: Flags)
    requires i <= |list|
    ensures LastBox(list, i, n, f) == None
      <==> forall k :: 0 <= k < i && list[k] != 0 ==> Decode(list[k]) != n
    ensures forall j :: 0 <= j < i && ListsLast(list, i, n, j) ==>
              LastBox(list, i, n, f) == Some(HasBit(list[j], f.checkbox))
  {
    hide Decode, HasBit;
    if i == 0 {
    } else {
      LastBoxIsLast(list, i - 1, n, f);
    }
  }

  function Boxed(body: OptionBody, box: Option<bool>): OptionBody {
    if box.Some? then WithActive(body, box.value) else body
  }

  lemma ToggleBodies(options: seq<LoadOption>, store: Store, limit: nat, n: bv16, active: bool)
    requires limit <= |options| && Distinct(options)
    ensures var t := Toggle(options, store, limit, n, active);
            forall k :: 0 <= k < |options| ==>
              && t.options[k].number == options[k].number
              && t.options[k].body
                 == if k < limit && options[k].number == Number(n) then WithActive(options[k].body, active)
                    else options[k].body
  {
    hide IsActive, ToggleActive;
  }

  /** What the first i entries make of the body of option k. */
  function BodyAfter(m: Menu, p: Platform, i: nat, k: nat): OptionBody
    requires Scannable(m, p) && k < |m.options|
  {
    var l := Limit(m.options, p);
    if k < l then Boxed(m.options[k].body, LastBox(m.list, Min(i, l), m.options[k].number.n, p.flags))
    else m.options[k].body
  }

  /** One more entry, a number with its checkbox. */
  lemma BodyStep(m: Menu, p: Platform, i: nat, k: nat)
    requires Scannable(m, p) && Distinct(m.options) && i < Limit(m.options, p) && k < |m.options|
    requires m.list[i] != 0
    ensures BodyAfter(m, p, i + 1, k)
      == if k < Limit(m.options, p) && m.options[k].number == Number(Decode(m.list[i]))
         then WithActive(BodyAfter(m, p, i, k), HasBit(m.list[i], p.flags.checkbox))
         else BodyAfter(m, p, i, k)
  {
    hide HasBit, Decode, WithActive;
    var n := m.options[k].number.n;
    BoxedTwice(m.options[k].body, LastBox(m.list, i, n, p.flags), HasBit(m.list[i], p.flags.checkbox));
  }

  lemma BodySame(m: Menu, p: Platform, i: nat, k: nat)
    requires Scannable(m, p) && k < |m.options|
    ensures BodyAfter(m, p, 0, k) == m.options[k].body
    ensures i >= Limit(m.options, p) || m.list[i] == 0 ==> BodyAfter(m, p, i + 1, k) == BodyAfter(m, p, i, k)
  {
    hide HasBit, Decode, WithActive;
  }

  lemma {:induction false} BodiesSoFar(m: Menu, p: Platform, i: nat, k: nat)
    requires Scannable(m, p) && NoBootNow(m, p, i) && Distinct(m.options) && i <= |m.options| && k < |m.options|
    ensures ScanTo(m, p, i).options[k].body == BodyAfter(m, p, i, k)
  {
    hide ScanTo, HasBit, Decode, BodyAfter;
    if i == 0 {
      ScanStart(m, p);
      BodySame(m, p, 0, k);
    } else {
      BodiesSoFar(m, p, i - 1, k);
      BodiesStep(m, p, i - 1, k);
    }
  }

  lemma BodiesStep(m: Menu, p: Platform, i: nat, k: nat)
    requires Scannable(m, p) && NoBootNow(m, p, i + 1) && Distinct(m.options) && i < |m.options| && k < |m.options|
    requires ScanTo(m, p, i).options[k].body == BodyAfter(m, p, i, k)
    ensures ScanTo(m, p, i + 1).options[k].body == BodyAfter(m, p, i + 1, k)
  {
    hide ScanTo, HasBit, Decode, Toggle, WithActive, BodyAfter, Listed;
    OrderSoFar(m, p, i);
    ScanStep(m, p, i);
    BodySame(m, p, i, k);
    var l, s := Limit(m.options, p), ScanTo(m, p, i);
    if i < l && m.list[i] != 0 {
      ToggleBodies(s.options, s.store, l, Decode(m.list[i]), HasBit(m.list[i], p.flags.checkbox));
      BodyStep(m, p, i, k);
    }
  }

  lemma BoxedTwice(body: OptionBody, box: Option<bool>, active: bool)
    ensures WithActive(Boxed(body, box), active) == WithActive(body, active)
  {
    if box.Some? { WithActiveFacts(body, box.value, active); }
  }

  /**
   With distinct option numbers: an option listed among the displayed entries ends
   with its ACTIVE bit equal to its (last) checkbox and nothing else changed; every
   other option is as it was.
   */
  lemma ActiveFollowsCheckbox(m: Menu, p: Platform, k: nat)
    requires Scannable(m, p) && NoBootNow(m, p, |m.options|) && Distinct(m.options) && k < |m.options|
    ensures var l, o := Limit(m.options, p), ScanTo(m, p, |m.options|).options[k];
            var box := LastBox(m.list, l, m.options[k].number.n, p.flags);
            && (k < l && box.Some? ==>
                  && IsActive(o.body.attributes) == box.value
                  && o.body.description == m.options[k].body.description
                  && ActiveCleared(o.body.attributes) == ActiveCleared(m.options[k].body.attributes))
            && (k >= l || box.None? ==> o == m.options[k])
  {
    BodiesSoFar(m, p, |m.options|, k);
    var box := LastBox(m.list, Limit(m.options, p), m.options[k].number.n, p.flags);
    if box.Some? {
      WithActiveFacts(m.options[k].body, box.value, box.value);
      ToggleLeavesTheRest(m.options[k].body.attributes);
    }
    hide ScanTo, HasBit, Decode, IsActive, ToggleActive, ActiveCleared;
  }

  // -------------------------------------------- the store during the scan

  /** Every loaded option still has its variable. */
  ghost predicate Backed(options: seq<LoadOption>, store: Store)
    requires Assigned(options)
  {
    forall k :: 0 <= k < |options| ==> store.HasOption(options[k].number.n)
  }

  /** Every loaded option is what its variable says. */
  ghost predicate InSync(options: seq<LoadOption>, store: Store)
    requires Assigned(options)
  {
    forall k :: 0 <= k < |options| ==> OptionAt(store, options[k].number.n) == Some(options[k].body)
  }

  ghost predicate SameOptionSet(a: Store, b: Store) {
    && a.BootOrder() == b.BootOrder() && a.locked == b.locked
    && forall x :: a.HasOption(x) <==> b.HasOption(x)
  }

  lemma ToggleKeepsSet(options: seq<LoadOption>, store: Store, limit: nat, n: bv16, active: bool)
    requires limit <= |options| && Assigned(options) && Backed(options, store)
    ensures SameOptionSet(store, Toggle(options, store, limit, n, active).store)
  {
    hide IsActive, ToggleActive;
    var k := FindFrom(options, limit, n, 0);
    var t := Toggle(options, store, limit, n, active);
    if k < limit {
      assert store.HasOption(n);
      WriteOptionFacts(store, n, t.options[k].body);
      assert forall x {:trigger t.store.HasOption(x)} :: OptionAt(t.store, x).Some? <==> t.store.HasOption(x);
      assert forall x {:trigger store.HasOption(x)} :: OptionAt(store, x).Some? <==> store.HasOption(x);
    }
  }

  /** The scan rewrites options but neither adds nor removes one, and leaves BootOrder alone. */
  lemma {:induction false} ScanKeepsSet(m: Menu, p: Platform, i: nat)
    requires Scannable(m, p) && Backed(m.options, m.store) && i <= |m.options|
    ensures SameOptionSet(m.store, ScanTo(m, p, i).store)
  {
    hide ScanTo, HasBit, Decode, Toggle, IsActive, ToggleActive;
    if i == 0 {
      ScanStart(m, p);
    } else {
      var s := ScanTo(m, p, i - 1);
      ScanKeepsSet(m, p, i - 1);
      if s.bootNow.Some? {
        ScanStops(m, p, i - 1, i);
      } else {
        ScanStep(m, p, i - 1);
        if i - 1 < Limit(m.options, p) {
          var v := m.list[i - 1];
          ToggleKeepsSet(s.options, s.store, Limit(m.options, p), Decode(v), HasBit(v, p.flags.checkbox));
        }
      }
    }
  }

  ghost predicate Unlocked(options: seq<LoadOption>, store: Store)
    requires Assigned(options)
  {
    forall k :: 0 <= k < |options| ==> BootName(options[k].number.n) !in store.locked
  }

  lemma ToggleKeepsSync(options: seq<LoadOption>, store: Store, limit: nat, n: bv16, active: bool)
    requires limit <= |options| && Assigned(options) && Distinct(options)
    requires InSync(options, store) && Unlocked(options, store)
    ensures var t := Toggle(options, store, limit, n, active);
            && InSync(t.options, t.store) && Unlocked(t.options, t.store)
            && forall x {:trigger OptionAt(t.store, x)} :: x != n ==> OptionAt(t.store, x) == OptionAt(store, x)
  {
    hide IsActive, ToggleActive;
    var k := FindFrom(options, limit, n, 0);
    var t := Toggle(options, store, limit, n, active);
    if k < limit && t.store != store {
      WriteOptionFacts(store, n, t.options[k].body);
      hide OptionAt;
      forall j | 0 <= j < |options| ensures OptionAt(t.store, options[j].number.n) == Some(t.options[j].body) {
        if j != k { assert options[j].number != options[k].number; }
      }
    }
  }

  /** Whatever is stored, locked or repeated: the variable of a number that no entry lists is not written. */
  lemma {:induction false} UnlistedIsNotWritten(m: Menu, p: Platform, i: nat, n: bv16)
    requires Scannable(m, p) && i <= |m.options|
    requires forall k :: 0 <= k < i && k < Limit(m.options, p) && m.list[k] != 0 ==> Decode(m.list[k]) != n
    ensures OptionAt(ScanTo(m, p, i).store, n) == OptionAt(m.store, n)
  {
    hide ScanTo, HasBit, Decode, Toggle, OptionAt;
    if i == 0 {
      ScanStart(m, p);
    } else {
      var s := ScanTo(m, p, i - 1);
      UnlistedIsNotWritten(m, p, i - 1, n);
      if s.bootNow.Some? {
        ScanStops(m, p, i - 1, i);
      } else {
        ScanStep(m, p, i - 1);
        if i - 1 < Limit(m.options, p) && m.list[i - 1] != 0 {
          var v := m.list[i - 1];
          ToggleWrites(s.options, s.store, Limit(m.options, p), Decode(v), HasBit(v, p.flags.checkbox), n);
        }
      }
    }
  }

  /**
   An option is written only when its checkbox differs from its ACTIVE bit, and then
   with that bit flipped and everything else as the menu has it.
   */
  lemma ToggleWrites(options: seq<LoadOption>, store: Store, limit: nat, n: bv16, active: bool, x: bv16)
    requires limit <= |options|
    ensures var t, k := Toggle(options, store, limit, n, active), FindFrom(options, limit, n, 0);
            && (x != n ==> OptionAt(t.store, x) == OptionAt(store, x))
            && (k == limit || IsActive(options[k].body.attributes) == active ==> t.store == store)
            && (k < limit && IsActive(options[k].body.attributes) != active && BootName(n) !in store.locked ==>
                  OptionAt(t.store, n)
                  == Some(OptionBody(ToggleActive(options[k].body.attributes), options[k].body.description)))
  {
    hide IsActive, ToggleActive, OptionAt;
    var k := FindFrom(options, limit, n, 0);
    var t := Toggle(options, store, limit, n, active);
    if k < limit { WriteOptionFacts(store, n, t.options[k].body); }
  }

  /** With nothing locked and distinct numbers, the variables follow the options, so the new ACTIVE bits are stored. */
  lemma {:induction false} ScanKeepsSync(m: Menu, p: Platform, i: nat)
    requires Scannable(m, p) && i <= |m.options|
    requires Distinct(m.options) && InSync(m.options, m.store) && Unlocked(m.options, m.store)
    ensures var s := ScanTo(m, p, i); InSync(s.options, s.store) && Unlocked(s.options, s.store)
  {
    hide ScanTo, HasBit, Decode, Toggle, OptionAt;
    if i == 0 {
      ScanStart(m, p);
    } else {
      var s := ScanTo(m, p, i - 1);
      ScanKeepsSync(m, p, i - 1);
      if s.bootNow.Some? {
        ScanStops(m, p, i - 1, i);
      } else {
        ScanStep(m, p, i - 1);
        if i - 1 < Limit(m.options, p) {
          var v := m.list[i - 1];
          ToggleKeepsSync(s.options, s.store, Limit(m.options, p), Decode(v), HasBit(v, p.flags.checkbox));
        }
      }
    }
  }

  // ------------------------------------------------------------- deletion

  /** The numbers of the first i options that the order lacks. */
  function Missing(options: seq<LoadOption>, order: seq<bv16>, i: nat): seq<bv16>
    requires Assigned(options) && i <= |options|
  {
    if i == 0 then []
    else
      var n := options[i - 1].number.n;
      if n in order then Missing(options, order, i - 1) else Missing(options, order, i - 1) + [n]
  }

  lemma {:induction false} MissingIsMissing(options: seq<LoadOption>, order: seq<bv16>, i: nat)
    requires Assigned(options) && i <= |options|
    ensures forall x :: x in Missing(options, order, i) ==> x !in order
    ensures forall k :: 0 <= k < i && options[k].number.n !in order ==>
      options[k].number.n in Missing(options, order, i)
  {
    if i == 0 {
    } else {
      MissingIsMissing(options, order, i - 1);
    }
  }

  /** In list order, and nothing else: they are the options at the rising positions the order lacks. */
  lemma {:induction false} MissingInOrder(options: seq<LoadOption>, order: seq<bv16>, i: nat) returns (at: seq<nat>)
    requires Assigned(options) && i <= |options|
    ensures |at| == |Missing(options, order, i)|
    ensures forall j :: 0 <= j < |at| ==> at[j] < i && Missing(options, order, i)[j] == options[at[j]].number.n
    ensures forall j, k :: 0 <= j < k < |at| ==> at[j] < at[k]
    ensures forall k :: 0 <= k < i ==> (k in at <==> options[k].number.n !in order)
  {
    if i == 0 {
      at := [];
    } else {
      var before := MissingInOrder(options, order, i - 1);
      var n := options[i - 1].number.n;
      assert Missing(options, order, i) == Missing(options, order, i - 1) + if n in order then [] else [n];
      at := before + if n in order then [] else [i - 1];
      assert forall k :: k in at <==> k in before || (k == i - 1 && n !in order);
    }
    hide Missing;
  }

  /** Some option among the first i is missing from the order and its deletion was confirmed. */
  ghost predicate AnyConfirmed(options: seq<LoadOption>, order: seq<bv16>, confirm: nat -> bool, i: nat)
    requires Assigned(options) && i <= |options|
  {
    exists k :: 0 <= k < i && options[k].number.n !in order && confirm(k)
  }

  lemma {:induction false} SweepFacts(
    options: seq<LoadOption>, limit: nat, order: seq<bv16>, store: Store, confirm: nat -> bool, i: nat)
    requires Assigned(options) && i <= limit <= |options|
    ensures var w := SweepTo(Mark(options, limit, order), store, confirm, i);
            && w.prompts == Missing(options, order, i)
            && w.store.locked == store.locked
            && (w.confirmed <==> AnyConfirmed(options, order, confirm, i))
            && (!w.confirmed ==> w.store == store)
            && (forall x :: x in w.store.BootOrder() ==> x in store.BootOrder())
            && (forall x {:trigger OptionAt(w.store, x)} :: x in order ==> OptionAt(w.store, x) == OptionAt(store, x))
            && (forall x {:trigger OptionAt(w.store, x)} ::
                  OptionAt(w.store, x) == OptionAt(store, x) || OptionAt(w.store, x) == None)
  {
    if i == 0 {
    } else {
      SweepFacts(options, limit, order, store, confirm, i - 1);
      SweepStep(options, limit, order, store, confirm, i - 1);
      var w := SweepTo(Mark(options, limit, order), store, confirm, i - 1);
      DeleteOptionFacts(w.store, options[i - 1].number.n);
      AnyConfirmedStep(options, order, confirm, i - 1);
    }
    hide SweepTo, Mark, OptionAt, DeleteOption, AnyConfirmed;
  }

  lemma SweepStep(
    options: seq<LoadOption>, limit: nat, order: seq<bv16>, store: Store, confirm: nat -> bool, i: nat)
    requires Assigned(options) && i < limit <= |options|
    ensures var w, n := SweepTo(Mark(options, limit, order), store, confirm, i), options[i].number.n;
            SweepTo(Mark(options, limit, order), store, confirm, i + 1)
            == if n in order then w
               else if confirm(i) then Sweep(DeleteOption(w.store, n), w.prompts + [n], true)
               else w.(prompts := w.prompts + [n])
  {
    hide DeleteOption;
  }

  lemma AnyConfirmedStep(options: seq<LoadOption>, order: seq<bv16>, confirm: nat -> bool, i: nat)
    requires Assigned(options) && i < |options|
    ensures AnyConfirmed(options, order, confirm, i + 1)
      <==> AnyConfirmed(options, order, confirm, i) || (options[i].number.n !in order && confirm(i))
  {
  }

  /** A confirmed deletion of an unlocked option leaves no variable behind. */
  lemma {:induction false} ConfirmedAreDeleted(
    options: seq<LoadOption>, limit: nat, order: seq<bv16>, store: Store, confirm: nat -> bool, i: nat, k: nat)
    requires Assigned(options) && k < i <= limit <= |options|
    requires options[k].number.n !in order && confirm(k) && BootName(options[k].number.n) !in store.locked
    ensures OptionAt(SweepTo(Mark(options, limit, order), store, confirm, i).store, options[k].number.n) == None
  {
    hide OptionAt, DeleteOption, BootName, Missing, AnyConfirmed;
    var w := SweepTo(Mark(options, limit, order), store, confirm, i - 1);
    SweepFacts(options, limit, order, store, confirm, i - 1);
    DeleteOptionFacts(w.store, options[i - 1].number.n);
    if k == i - 1 {
    } else {
      ConfirmedAreDeleted(options, limit, order, store, confirm, i - 1, k);
    }
  }
}
