/** Which options a routed edit offers for deletion, and which it drops without asking. */
module DeletionOffers {
  import opened Efi
  import opened VariableStore
  import opened LoadOptionEncoding
  import opened BootOrderModel
  import opened BootOrderProperties
  import opened BootOrderSafety

  /** Some slot of the displayed range is empty in the edited list. */
  ghost predicate HasEmptySlot(m: Menu, p: Platform, e: Edit)
    requires Runs(m, p, e)
  {
    exists k :: 0 <= k < Limit(m.options, p) && e.edited.value[k] == 0
  }

  /** Every displayed option is in the requested order. */
  ghost predicate KeepsEveryDisplayed(m: Menu, p: Platform, e: Edit)
    requires Runs(m, p, e)
  {
    forall k :: 0 <= k < Limit(m.options, p) ==> m.options[k].number.n in Requested(m, p, e)
  }

  lemma {:induction false} ListedLength(list: seq<bv32>, i: nat)
    requires i <= |list|
    ensures |Listed(list, i)| <= i
    ensures |Listed(list, i)| == i <==> forall k :: 0 <= k < i ==> list[k] != 0
  {
    hide Decode;
    if i == 0 {
    } else {
      ListedLength(list, i - 1);
    }
  }

  /** The length test that guards the deletion path asks whether a displayed slot is empty. */
  lemma GuardIsAnEmptySlot(m: Menu, p: Platform, e: Edit)
    requires Runs(m, p, e)
    ensures |Requested(m, p, e)| != |m.options| <==> HasEmptySlot(m, p, e)
  {
    ListedLength(e.edited.value, Limit(m.options, p));
    hide Listed;
  }

  lemma {:induction false} NothingMissing(options: seq<LoadOption>, order: seq<bv16>, i: nat)
    requires Assigned(options) && i <= |options|
    ensures Missing(options, order, i) == [] <==> forall k :: 0 <= k < i ==> options[k].number.n in order
  {
    if i == 0 {
    } else {
      NothingMissing(options, order, i - 1);
    }
  }

  /**
   The options offered are the displayed ones missing from the requested order
   exactly when the edited list has an empty slot or misses none of them.
   */
  lemma OffersAreTheMissing(m: Menu, p: Platform, e: Edit)
    requires OrdersOptions(m, p, e)
    ensures Route(m, p, e).prompts == Missing(m.options, Requested(m, p, e), Limit(m.options, p))
      <==> HasEmptySlot(m, p, e) || KeepsEveryDisplayed(m, p, e)
  {
    RouteEffects(m, p, e);
    GuardIsAnEmptySlot(m, p, e);
    NothingMissing(m.options, Requested(m, p, e), Limit(m.options, p));
    hide Route, Requested, Missing, OptionAt;
  }

  /** Otherwise the new order is written at once, and what it misses leaves BootOrder without a dialog. */
  lemma FullListDropsSilently(m: Menu, p: Platform, e: Edit)
    requires OrdersOptions(m, p, e) && !HasEmptySlot(m, p, e)
    ensures Route(m, p, e).prompts == [] && Route(m, p, e).written == Some(Requested(m, p, e))
  {
    RouteEffects(m, p, e);
    GuardIsAnEmptySlot(m, p, e);
    hide Route, Requested, Missing, OptionAt;
  }

  // -------------------------------------- lists that permute what was shown

  ghost predicate NoRepeats(s: seq<bv16>) {
    forall j, k :: 0 <= j < k < |s| ==> s[j] != s[k]
  }

  /** The edited list names displayed options only, each at most once, as an ordered list with unique values does. */
  ghost predicate NamesDisplayedOnce(m: Menu, p: Platform, e: Edit)
    requires Runs(m, p, e)
  {
    var l := Limit(m.options, p);
    var listed := Listed(e.edited.value, l);
    NoRepeats(listed) && forall x :: x in listed ==> x in Numbers(m.options)[..l]
  }

  function Elements(s: seq<bv16>): set<bv16> {
    set x | x in s
  }

  lemma {:induction false} CountElements(s: seq<bv16>)
    requires NoRepeats(s)
    ensures |Elements(s)| == |s|
  {
    if s == [] {
    } else {
      var init, last := s[..|s| - 1], s[|s| - 1];
      CountElements(init);
      assert Elements(s) == Elements(init) + {last};
      assert last !in Elements(init);
    }
  }

  lemma SameSizeSubset(a: set<bv16>, b: set<bv16>)
    requires a <= b
    ensures |a| <= |b|
    ensures |a| == |b| ==> a == b
  {
    assert b == a + (b - a);
    assert |b| == |a| + |b - a|;
  }

  /** By counting, such a list has no empty slot exactly when it names every displayed option. */
  lemma FullMeansEveryOption(m: Menu, p: Platform, e: Edit)
    requires Runs(m, p, e) && Distinct(m.options) && NamesDisplayedOnce(m, p, e)
    ensures !HasEmptySlot(m, p, e) <==> KeepsEveryDisplayed(m, p, e)
  {
    var l := Limit(m.options, p);
    var listed, shown := Listed(e.edited.value, l), Numbers(m.options)[..l];
    ListedLength(e.edited.value, l);
    hide Listed;
    assert NoRepeats(shown) by {
      forall j, k | 0 <= j < k < |shown| ensures shown[j] != shown[k] {
        assert m.options[j].number != m.options[k].number;
      }
    }
    CountElements(listed);
    CountElements(shown);
    assert Elements(listed) <= Elements(shown);
    SameSizeSubset(Elements(listed), Elements(shown));
    forall k | 0 <= k < l
      ensures m.options[k].number.n in Requested(m, p, e) <==> shown[k] in Elements(listed)
    {
      forall t | l <= t < |m.options| ensures Numbers(m.options)[t] != shown[k] {
        assert m.options[k].number != m.options[t].number;
      }
    }
    if KeepsEveryDisplayed(m, p, e) {
      forall x | x in shown ensures x in listed {
        var k :| 0 <= k < l && shown[k] == x;
        assert m.options[k].number.n in Requested(m, p, e);
      }
      assert Elements(shown) == Elements(listed);
    }
  }

  /**
   With distinct option numbers and a list that names displayed options at most
   once, the options offered for deletion are exactly the displayed ones missing
   from the new order, and a dialog appears exactly when one is missing.
   */
  lemma UniqueListOffersTheMissing(m: Menu, p: Platform, e: Edit)
    requires OrdersOptions(m, p, e) && Distinct(m.options) && NamesDisplayedOnce(m, p, e)
    ensures var missing := Missing(m.options, Requested(m, p, e), Limit(m.options, p));
            && Route(m, p, e).prompts == missing
            && (|Requested(m, p, e)| != |m.options| <==> missing != [])
  {
    FullMeansEveryOption(m, p, e);
    OffersAreTheMissing(m, p, e);
    GuardIsAnEmptySlot(m, p, e);
    NothingMissing(m.options, Requested(m, p, e), Limit(m.options, p));
    hide Route, Requested, Missing, NamesDisplayedOnce;
  }

  // ------------------------------------------------- lists that do not

  // The form declares its list a set of unique values drawn from the displayed
  // options, so these lists reach RouteConfig only as configuration strings of
  // other callers.

  const ACTIVE_BODY := OptionBody(1, "")
  const FLAGS := Flags(0x100_0000, 0x200_0000, 0x400_0000)
  const TWO_SHOWN := Platform(FLAGS, 2, [])

  function Numbered(n: bv16): LoadOption {
    LoadOption(Number(n), ACTIVE_BODY)
  }

  function EntryFor(n: bv16): bv32 {
    Encode(n, true, true, FLAGS)
  }

  function EditTo(list: seq<bv32>): Edit {
    Edit(None, Some(list), true, false, _ => true)
  }

  lemma EntriesOfExample(n: bv16)
    ensures EntryFor(n) != 0 && Decode(EntryFor(n)) == n && !HasBit(EntryFor(n), FLAGS.boot)
  {
    DecodeEncode(n, true, true, FLAGS);
  }

  lemma ListedPair(a: bv16, b: bv16)
    ensures Listed([EntryFor(a), EntryFor(b)], 2) == [a, b]
  {
    EntriesOfExample(a);
    EntriesOfExample(b);
    hide EntryFor, Decode;
    var list := [EntryFor(a), EntryFor(b)];
    assert Listed(list, 0) == [];
    assert Listed(list, 1) == [a];
  }

  lemma PairOrdersOptions(m: Menu, a: bv16, b: bv16)
    requires Scannable(m, TWO_SHOWN) && |m.options| >= 2
    ensures var e := EditTo([EntryFor(a), EntryFor(b)]);
            OrdersOptions(m, TWO_SHOWN, e) && !HasEmptySlot(m, TWO_SHOWN, e)
  {
    EntriesOfExample(a);
    EntriesOfExample(b);
    var e := EditTo([EntryFor(a), EntryFor(b)]);
    hide EntryFor, ScanTo, HasBit, Decode;
    OrderSoFar(Scanned(m, e), TWO_SHOWN, |m.options|);
  }

  /** Naming one of two options twice drops the other from BootOrder without a dialog. */
  lemma RepeatedEntryDropsAnOption(store: Store)
    ensures var m := Menu([Numbered(1), Numbered(2)], [0, 0], store);
            var e := EditTo([EntryFor(1), EntryFor(1)]);
            && OrdersOptions(m, TWO_SHOWN, e)
            && Route(m, TWO_SHOWN, e).prompts == []
            && Route(m, TWO_SHOWN, e).written == Some([1, 1])
            && Missing(m.options, Requested(m, TWO_SHOWN, e), 2) == [2]
  {
    var m := Menu([Numbered(1), Numbered(2)], [0, 0], store);
    var e := EditTo([EntryFor(1), EntryFor(1)]);
    PairOrdersOptions(m, 1, 1);
    FullListDropsSilently(m, TWO_SHOWN, e);
    ListedPair(1, 1);
    hide Route, EntryFor, Listed;
    var order := Requested(m, TWO_SHOWN, e);
    assert order == [1, 1];
    assert Missing(m.options, order, 0) == [];
    assert Missing(m.options, order, 1) == [];
  }

  /** Naming an option of the undisplayed tail, which stays in the tail too, does the same. */
  lemma TailEntryDropsAnOption(store: Store)
    ensures var m := Menu([Numbered(1), Numbered(2), Numbered(3)], [0, 0], store);
            var e := EditTo([EntryFor(1), EntryFor(3)]);
            && OrdersOptions(m, TWO_SHOWN, e)
            && Route(m, TWO_SHOWN, e).prompts == []
            && Route(m, TWO_SHOWN, e).written == Some([1, 3, 3])
            && Missing(m.options, Requested(m, TWO_SHOWN, e), 2) == [2]
  {
    var m := Menu([Numbered(1), Numbered(2), Numbered(3)], [0, 0], store);
    var e := EditTo([EntryFor(1), EntryFor(3)]);
    PairOrdersOptions(m, 1, 3);
    FullListDropsSilently(m, TWO_SHOWN, e);
    ListedPair(1, 3);
    hide Route, EntryFor, Listed;
    var order := Requested(m, TWO_SHOWN, e);
    assert Numbers(m.options)[2..] == [3];
    assert order == [1, 3, 3];
    assert Missing(m.options, order, 0) == [];
    assert Missing(m.options, order, 1) == [];
  }
}
