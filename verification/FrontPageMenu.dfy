/**
 The top menu of the front page: a table whose full and limited menu indices are
 renumbered in place when an entry is removed, shown by one loop and searched by another.
 */
module FrontPageMenu {
  import opened Bytes
  import opened Efi

  const UNUSED_INDEX: U16 := 0xFFFF

  datatype Mode = Full | Limited

  datatype Row = Row(fullIndex: U16, limitedIndex: U16, menuString: U16, form: nat) {
    function Index(mode: Mode): U16 {
      if mode == Full then fullIndex else limitedIndex
    }

    predicate Used(mode: Mode) {
      Index(mode) != UNUSED_INDEX
    }
  }

  // --------------------------------------------------------- specification

  /** How many of the first i rows are in the menu. */
  function UsedBefore(rows: seq<Row>, mode: Mode, i: nat): (n: nat)
    requires i <= |rows|
    ensures n <= i
  {
    if i == 0 then 0 else UsedBefore(rows, mode, i - 1) + if rows[i - 1].Used(mode) then 1 else 0
  }

  /** The used indices are 0, 1, 2, … in table order. */
  ghost predicate Dense(rows: seq<Row>, mode: Mode) {
    forall i :: 0 <= i < |rows| && rows[i].Used(mode) ==> rows[i].Index(mode) == UsedBefore(rows, mode, i)
  }

  /** The rows of the menu, in table order. */
  function Menu(rows: seq<Row>, mode: Mode, i: nat): (r: seq<(U16, nat)>)
    requires i <= |rows|
    ensures |r| == UsedBefore(rows, mode, i)
  {
    if i == 0 then []
    else Menu(rows, mode, i - 1)
         + if rows[i - 1].Used(mode) then [(rows[i - 1].menuString, rows[i - 1].form)] else []
  }

  /** How many of the first i rows are in the menu under this string id. */
  function MatchesBefore(rows: seq<Row>, mode: Mode, id: U16, i: nat): (n: nat)
    requires i <= |rows|
    ensures n <= UsedBefore(rows, mode, i)
  {
    if i == 0 then 0
    else MatchesBefore(rows, mode, id, i - 1)
         + if rows[i - 1].Used(mode) && rows[i - 1].menuString == id then 1 else 0
  }

  /** A row's index after the removal of id; the decrement is 16-bit arithmetic. */
  function IndexAfter(rows: seq<Row>, mode: Mode, id: U16, i: nat): U16
    requires i < |rows|
  {
    var index := rows[i].Index(mode);
    if index == UNUSED_INDEX || rows[i].menuString == id then UNUSED_INDEX
    else if MatchesBefore(rows, mode, id, i) > 0 then (index - 1) % 0x1_0000
    else index
  }

  function RowAfter(rows: seq<Row>, id: U16, i: nat): Row
    requires i < |rows|
  {
    rows[i].(fullIndex := IndexAfter(rows, Full, id, i), limitedIndex := IndexAfter(rows, Limited, id, i))
  }

  function Removed(rows: seq<Row>, id: U16): (r: seq<Row>)
    ensures |r| == |rows|
  {
    seq(|rows|, i requires 0 <= i < |rows| => RowAfter(rows, id, i))
  }

  ghost predicate DistinctStrings(rows: seq<Row>) {
    forall i, j :: 0 <= i < j < |rows| ==> rows[i].menuString != rows[j].menuString
  }

  // --------------------------------------------------------------- removal

  /** The flag after row i, and the row's new index in terms of it. */
  lemma FlagStep(rows: seq<Row>, mode: Mode, id: U16, i: nat)
    requires i < |rows|
    ensures var r, found := rows[i], MatchesBefore(rows, mode, id, i + 1) > 0;
            && (found <==> MatchesBefore(rows, mode, id, i) > 0 || (r.Used(mode) && r.menuString == id))
            && IndexAfter(rows, mode, id, i)
               == if !r.Used(mode) || r.menuString == id then UNUSED_INDEX
                  else if found then (r.Index(mode) - 1) % 0x1_0000
                  else r.Index(mode)
  {
    hide UsedBefore;
  }

  /** The loop over the table; one flag per menu says whether to decrement. */
  method RemoveMenuFromList(rows: array<Row>, id: U16)
    requires rows.Length < 0x1_0000
    modifies rows
    ensures rows[..] == Removed(old(rows[..]), id)
  {
    hide UsedBefore, IndexAfter;
    ghost var before := rows[..];
    assert MatchesBefore(before, Full, id, 0) == MatchesBefore(before, Limited, id, 0) == 0;
    hide MatchesBefore;
    var fullRemoved, limitedRemoved := false, false;
    for count := 0 to rows.Length
      invariant forall j :: 0 <= j < count ==> rows[j] == RowAfter(before, id, j)
      invariant forall j :: count <= j < rows.Length ==> rows[j] == before[j]
      invariant fullRemoved == (MatchesBefore(before, Full, id, count) > 0)
      invariant limitedRemoved == (MatchesBefore(before, Limited, id, count) > 0)
    {
      assert rows[count] == before[count];
      FlagStep(before, Full, id, count);
      FlagStep(before, Limited, id, count);
      if rows[count].menuString == id {
        if rows[count].fullIndex != UNUSED_INDEX {
          fullRemoved := true;
          rows[count] := rows[count].(fullIndex := UNUSED_INDEX);
        }
        if rows[count].limitedIndex != UNUSED_INDEX {
          limitedRemoved := true;
          rows[count] := rows[count].(limitedIndex := UNUSED_INDEX);
        }
      }
      if fullRemoved && rows[count].fullIndex != UNUSED_INDEX {
        rows[count] := rows[count].(fullIndex := (rows[count].fullIndex - 1) % 0x1_0000);
      }
      if limitedRemoved && rows[count].limitedIndex != UNUSED_INDEX {
        rows[count] := rows[count].(limitedIndex := (rows[count].limitedIndex - 1) % 0x1_0000);
      }
    }
  }

  /** Row i stays in the table's menu but its index 0 is decremented to the unused one. */
  ghost predicate Lost(rows: seq<Row>, mode: Mode, id: U16, i: nat)
    requires i < |rows|
  {
    && rows[i].Used(mode) && rows[i].menuString != id
    && rows[i].Index(mode) == 0 && MatchesBefore(rows, mode, id, i) > 0
  }

  /** A removal takes out the matching rows, and those it loses by wrap-around. */
  lemma UsedAfter(rows: seq<Row>, mode: Mode, id: U16, i: nat)
    requires i < |rows|
    ensures Removed(rows, id)[i].Index(mode) == IndexAfter(rows, mode, id, i)
    ensures Removed(rows, id)[i].menuString == rows[i].menuString
    ensures Removed(rows, id)[i].form == rows[i].form
    ensures Removed(rows, id)[i].Used(mode)
      <==> rows[i].Used(mode) && rows[i].menuString != id && !Lost(rows, mode, id, i)
  {
    hide UsedBefore, MatchesBefore;
  }

  /** From a dense table, exactly the matching rows leave each menu; an index never wraps. */
  lemma UsedAfterDense(rows: seq<Row>, mode: Mode, id: U16, i: nat)
    requires Dense(rows, mode) && i < |rows| < 0xFFFF
    ensures !Lost(rows, mode, id, i)
    ensures Removed(rows, id)[i].Used(mode) ==>
      Removed(rows, id)[i].Index(mode)
      == UsedBefore(rows, mode, i) - if MatchesBefore(rows, mode, id, i) > 0 then 1 else 0
  {
    hide UsedBefore, MatchesBefore;
  }

  lemma {:induction false} CountsAfter(rows: seq<Row>, mode: Mode, id: U16, i: nat)
    requires Dense(rows, mode) && i <= |rows| < 0xFFFF
    ensures UsedBefore(Removed(rows, id), mode, i) == UsedBefore(rows, mode, i) - MatchesBefore(rows, mode, id, i)
  {
    if i == 0 {
    } else {
      CountsAfter(rows, mode, id, i - 1);
      UsedAfter(rows, mode, id, i - 1);
      UsedAfterDense(rows, mode, id, i - 1);
      hide Removed, Lost, Dense;
    }
  }

  /**
   Removal keeps a dense menu dense exactly when no remaining entry comes after two
   entries with the removed id: the flag makes the loop decrement once, however
   many entries it removed.
   */
  lemma RemovalKeepsDense(rows: seq<Row>, mode: Mode, id: U16)
    requires Dense(rows, mode) && |rows| < 0xFFFF
    ensures Dense(Removed(rows, id), mode)
      <==> forall i :: 0 <= i < |rows| && rows[i].Used(mode) && rows[i].menuString != id ==>
             MatchesBefore(rows, mode, id, i) <= 1
  {
    hide Removed, IndexAfter;
    forall i | 0 <= i < |rows|
      ensures Removed(rows, id)[i].Used(mode) <==> rows[i].Used(mode) && rows[i].menuString != id
      ensures Removed(rows, id)[i].Used(mode) ==>
        (Removed(rows, id)[i].Index(mode) == UsedBefore(Removed(rows, id), mode, i)
         <==> MatchesBefore(rows, mode, id, i) <= 1)
    {
      UsedAfter(rows, mode, id, i);
      UsedAfterDense(rows, mode, id, i);
      CountsAfter(rows, mode, id, i);
    }
  }

  lemma {:induction false} DistinctMatchOnce(rows: seq<Row>, mode: Mode, id: U16, i: nat)
    requires DistinctStrings(rows) && i <= |rows|
    ensures MatchesBefore(rows, mode, id, i) <= 1
    ensures MatchesBefore(rows, mode, id, i) == 1 ==> exists j :: 0 <= j < i && rows[j].menuString == id
  {
    if i == 0 {
    } else {
      DistinctMatchOnce(rows, mode, id, i - 1);
    }
  }

  function Without(menu: seq<(U16, nat)>, id: U16): seq<(U16, nat)> {
    if menu == [] then []
    else Without(menu[..|menu| - 1], id) + if menu[|menu| - 1].0 == id then [] else [menu[|menu| - 1]]
  }

  lemma WithoutLast(menu: seq<(U16, nat)>, last: (U16, nat), id: U16)
    ensures Without(menu + [last], id) == Without(menu, id) + if last.0 == id then [] else [last]
  {
    assert (menu + [last])[..|menu|] == menu;
  }

  lemma {:induction false} UnlostIsFiltered(rows: seq<Row>, mode: Mode, id: U16, i: nat)
    requires i <= |rows| && forall k :: 0 <= k < i ==> !Lost(rows, mode, id, k)
    ensures Menu(Removed(rows, id), mode, i) == Without(Menu(rows, mode, i), id)
  {
    hide Menu, Removed, Without, Lost, UsedBefore, MatchesBefore;
    if i == 0 {
      EmptyPrefix(rows, mode, id);
    } else {
      UnlostIsFiltered(rows, mode, id, i - 1);
      FilterStep(rows, mode, id, i - 1);
    }
  }

  lemma EmptyPrefix(rows: seq<Row>, mode: Mode, id: U16)
    ensures Menu(Removed(rows, id), mode, 0) == Without(Menu(rows, mode, 0), id) == []
  {
    hide Removed, UsedBefore;
  }

  lemma LengthStep(rows: seq<Row>, mode: Mode, id: U16, i: nat)
    requires i < |rows|
    ensures |Menu(Removed(rows, id), mode, i + 1)| - |Menu(Removed(rows, id), mode, i)|
      <= |Without(Menu(rows, mode, i + 1), id)| - |Without(Menu(rows, mode, i), id)|
         - if Lost(rows, mode, id, i) then 1 else 0
  {
    FilterStep(rows, mode, id, i);
    hide Menu, Removed, Without, Lost, UsedBefore, MatchesBefore;
  }

  lemma {:induction false} NeverLonger(rows: seq<Row>, mode: Mode, id: U16, i: nat)
    requires i <= |rows|
    ensures |Menu(Removed(rows, id), mode, i)| <= |Without(Menu(rows, mode, i), id)|
  {
    hide Menu, Removed, Without, Lost, UsedBefore, MatchesBefore;
    if i == 0 {
      EmptyPrefix(rows, mode, id);
    } else {
      NeverLonger(rows, mode, id, i - 1);
      LengthStep(rows, mode, id, i - 1);
    }
  }

  lemma {:induction false} LostShortens(rows: seq<Row>, mode: Mode, id: U16, k: nat, i: nat)
    requires k < i <= |rows| && Lost(rows, mode, id, k)
    ensures |Menu(Removed(rows, id), mode, i)| < |Without(Menu(rows, mode, i), id)|
  {
    hide Menu, Removed, Without, Lost, UsedBefore, MatchesBefore;
    LengthStep(rows, mode, id, i - 1);
    if i == k + 1 {
      NeverLonger(rows, mode, id, k);
    } else {
      LostShortens(rows, mode, id, k, i - 1);
    }
  }

  /** Both menus grow by the same entry, except at a lost row. */
  lemma FilterStep(rows: seq<Row>, mode: Mode, id: U16, i: nat)
    requires i < |rows|
    ensures var entry := if rows[i].Used(mode) && rows[i].menuString != id
                         then [(rows[i].menuString, rows[i].form)] else [];
            && Without(Menu(rows, mode, i + 1), id) == Without(Menu(rows, mode, i), id) + entry
            && Menu(Removed(rows, id), mode, i + 1)
               == Menu(Removed(rows, id), mode, i) + if Lost(rows, mode, id, i) then [] else entry
    ensures Lost(rows, mode, id, i) ==> rows[i].Used(mode) && rows[i].menuString != id
  {
    MenuStep(rows, mode, i);
    MenuStep(Removed(rows, id), mode, i);
    UsedAfter(rows, mode, id, i);
    WithoutLast(Menu(rows, mode, i), (rows[i].menuString, rows[i].form), id);
    hide Menu, Removed, Without, Lost, UsedBefore, MatchesBefore;
  }

  /** A removal filters the menu exactly when it loses no row by wrap-around. */
  lemma RemovalFilters(rows: seq<Row>, mode: Mode, id: U16, i: nat)
    requires i <= |rows|
    ensures Menu(Removed(rows, id), mode, i) == Without(Menu(rows, mode, i), id)
      <==> forall k :: 0 <= k < i ==> !Lost(rows, mode, id, k)
  {
    hide Menu, Removed, Without, Lost;
    if k :| 0 <= k < i && Lost(rows, mode, id, k) {
      LostShortens(rows, mode, id, k, i);
    } else {
      UnlostIsFiltered(rows, mode, id, i);
    }
  }

  lemma MenuStep(rows: seq<Row>, mode: Mode, i: nat)
    requires i < |rows|
    ensures rows[i].Used(mode) ==>
      Menu(rows, mode, i + 1) == Menu(rows, mode, i) + [(rows[i].menuString, rows[i].form)]
    ensures !rows[i].Used(mode) ==> Menu(rows, mode, i + 1) == Menu(rows, mode, i)
  {
    assert Menu(rows, mode, i) + [] == Menu(rows, mode, i);
  }

  lemma {:induction false} NoMatchLeft(rows: seq<Row>, mode: Mode, id: U16, i: nat)
    requires i <= |rows| && forall j :: 0 <= j < |rows| && rows[j].menuString == id ==> !rows[j].Used(mode)
    ensures MatchesBefore(rows, mode, id, i) == 0
  {
    if i == 0 {
    } else {
      NoMatchLeft(rows, mode, id, i - 1);
    }
  }

  /** Removing the same entry twice is removing it once. */
  lemma RemovalIsIdempotent(rows: seq<Row>, id: U16)
    ensures Removed(Removed(rows, id), id) == Removed(rows, id)
  {
    var once := Removed(rows, id);
    forall i | 0 <= i < |rows| ensures Removed(once, id)[i] == once[i] {
      NoMatchLeft(once, Full, id, i);
      NoMatchLeft(once, Limited, id, i);
    }
  }

  /** Entry j named b is still in the menu when a has been removed. */
  ghost predicate Survives(rows: seq<Row>, mode: Mode, a: U16, b: U16, j: nat)
    requires j < |rows|
  {
    && rows[j].Used(mode) && rows[j].menuString == b
    && (rows[j].Index(mode) != 0 || MatchesBefore(rows, mode, a, j) == 0)
  }

  /** If an entry named b comes before row i, one of them survives the removal of a. */
  ghost predicate StillFound(rows: seq<Row>, mode: Mode, a: U16, b: U16, i: nat)
    requires i <= |rows|
  {
    MatchesBefore(rows, mode, b, i) > 0 ==> exists j :: 0 <= j < i && Survives(rows, mode, a, b, j)
  }

  lemma {:induction false} MatchesAfter(rows: seq<Row>, mode: Mode, a: U16, b: U16, i: nat)
    requires i <= |rows| && a != b
    ensures MatchesBefore(Removed(rows, a), mode, b, i) <= MatchesBefore(rows, mode, b, i)
    ensures MatchesBefore(rows, mode, a, i) == 0 ==>
      MatchesBefore(Removed(rows, a), mode, b, i) == MatchesBefore(rows, mode, b, i)
  {
    hide Removed, Survives, UsedBefore;
    if i == 0 {
    } else {
      MatchesAfter(rows, mode, a, b, i - 1);
      SurvivorsAreKept(rows, mode, a, b, i - 1);
    }
  }

  lemma {:induction false} SurvivorsAreFound(rows: seq<Row>, mode: Mode, a: U16, b: U16, i: nat)
    requires i <= |rows| && a != b
    ensures MatchesBefore(Removed(rows, a), mode, b, i) > 0
      <==> exists j :: 0 <= j < i && Survives(rows, mode, a, b, j)
  {
    hide Removed, Survives, UsedBefore;
    if i == 0 {
    } else {
      SurvivorsAreFound(rows, mode, a, b, i - 1);
      SurvivorsAreKept(rows, mode, a, b, i - 1);
    }
  }

  lemma SurvivorsAreKept(rows: seq<Row>, mode: Mode, a: U16, b: U16, j: nat)
    requires j < |rows| && a != b
    ensures Removed(rows, a)[j].Used(mode) && Removed(rows, a)[j].menuString == b <==> Survives(rows, mode, a, b, j)
    ensures Survives(rows, mode, a, b, j) ==> rows[j].Used(mode) && rows[j].menuString == b
    ensures MatchesBefore(rows, mode, a, j) == 0 ==>
      (rows[j].Used(mode) && rows[j].menuString == b <==> Survives(rows, mode, a, b, j))
  {
    UsedAfter(rows, mode, a, j);
    hide Removed, MatchesBefore;
  }

  /** The first entry of either name survives the removal of the other. */
  lemma {:induction false} OneIsFound(rows: seq<Row>, mode: Mode, a: U16, b: U16, i: nat)
    requires i <= |rows| && a != b && MatchesBefore(rows, mode, a, i) + MatchesBefore(rows, mode, b, i) > 0
    ensures MatchesBefore(Removed(rows, a), mode, b, i) + MatchesBefore(Removed(rows, b), mode, a, i) > 0
  {
    hide Removed, UsedBefore;
    if MatchesBefore(rows, mode, a, i - 1) + MatchesBefore(rows, mode, b, i - 1) > 0 {
      OneIsFound(rows, mode, a, b, i - 1);
    } else {
      UsedAfter(rows, mode, a, i - 1);
      UsedAfter(rows, mode, b, i - 1);
    }
  }

  lemma FoundAfter(rows: seq<Row>, mode: Mode, a: U16, b: U16, i: nat)
    requires i <= |rows| && a != b
    ensures MatchesBefore(rows, mode, b, i) == 0 ==> MatchesBefore(Removed(rows, a), mode, b, i) == 0
    ensures MatchesBefore(rows, mode, a, i) == 0 ==>
      MatchesBefore(Removed(rows, a), mode, b, i) == MatchesBefore(rows, mode, b, i)
    ensures StillFound(rows, mode, a, b, i)
      <==> (MatchesBefore(rows, mode, b, i) > 0 ==> MatchesBefore(Removed(rows, a), mode, b, i) > 0)
  {
    MatchesAfter(rows, mode, a, b, i);
    SurvivorsAreFound(rows, mode, a, b, i);
    hide MatchesBefore, Removed, Survives;
  }

  /** Row i ends with the same index in both orders exactly when both removals still find their entry before it. */
  lemma SameIndexInBothOrders(rows: seq<Row>, mode: Mode, a: U16, b: U16, i: nat)
    requires i < |rows| && a != b
    ensures IndexAfter(Removed(rows, a), mode, b, i) == IndexAfter(Removed(rows, b), mode, a, i)
      <==> (rows[i].Used(mode) && rows[i].Index(mode) > 0 && rows[i].menuString != a && rows[i].menuString != b ==>
              StillFound(rows, mode, a, b, i) && StillFound(rows, mode, b, a, i))
  {
    hide UsedBefore, MatchesBefore, Removed, StillFound, Lost;
    UsedAfter(rows, mode, a, i);
    UsedAfter(rows, mode, b, i);
    FoundAfter(rows, mode, a, b, i);
    FoundAfter(rows, mode, b, a, i);
    if MatchesBefore(rows, mode, a, i) + MatchesBefore(rows, mode, b, i) > 0 { OneIsFound(rows, mode, a, b, i); }
  }

  /**
   On any table two removals commute exactly when, in front of every other row with
   a positive index, each of them still finds an entry that it would find alone.
   */
  lemma RemovalsCommute(rows: seq<Row>, a: U16, b: U16)
    requires a != b
    ensures Removed(Removed(rows, a), b) == Removed(Removed(rows, b), a)
      <==> forall mode: Mode, i :: 0 <= i < |rows| && rows[i].Used(mode) && rows[i].Index(mode) > 0
                                   && rows[i].menuString != a && rows[i].menuString != b ==>
             StillFound(rows, mode, a, b, i) && StillFound(rows, mode, b, a, i)
  {
    var ab, ba := Removed(Removed(rows, a), b), Removed(Removed(rows, b), a);
    forall i | 0 <= i < |rows|
      ensures ab[i] == ba[i] <==> forall mode: Mode :: ab[i].Index(mode) == ba[i].Index(mode)
      ensures forall mode: Mode :: ab[i].Index(mode) == IndexAfter(Removed(rows, a), mode, b, i)
      ensures forall mode: Mode :: ba[i].Index(mode) == IndexAfter(Removed(rows, b), mode, a, i)
    {
      hide IndexAfter;
      SameRow(ab[i], ba[i]);
    }
    forall mode: Mode, i | 0 <= i < |rows|
      ensures ab[i].Index(mode) == ba[i].Index(mode)
        <==> (rows[i].Used(mode) && rows[i].Index(mode) > 0 && rows[i].menuString != a && rows[i].menuString != b ==>
                StillFound(rows, mode, a, b, i) && StillFound(rows, mode, b, a, i))
    {
      SameIndexInBothOrders(rows, mode, a, b, i);
      hide IndexAfter, StillFound;
    }
    hide IndexAfter, StillFound, Removed;
  }

  lemma SameRow(r: Row, s: Row)
    requires r.menuString == s.menuString && r.form == s.form
    ensures r == s <==> forall mode: Mode :: r.Index(mode) == s.Index(mode)
  {
    assert r.fullIndex == r.Index(Full) && s.fullIndex == s.Index(Full);
    assert r.limitedIndex == r.Index(Limited) && s.limitedIndex == s.Index(Limited);
  }

  lemma {:induction false} DenseStillFound(rows: seq<Row>, mode: Mode, a: U16, b: U16, i: nat)
    requires Dense(rows, mode) && i <= |rows|
    ensures StillFound(rows, mode, a, b, i)
  {
    if i == 0 {
    } else {
      DenseStillFound(rows, mode, a, b, i - 1);
      if rows[i - 1].Used(mode) && rows[i - 1].menuString == b { assert Survives(rows, mode, a, b, i - 1); }
    }
  }

  /** From tables that are dense in both menus they always do. */
  lemma DenseRemovalsCommute(rows: seq<Row>, a: U16, b: U16)
    requires Dense(rows, Full) && Dense(rows, Limited)
    ensures Removed(Removed(rows, a), b) == Removed(Removed(rows, b), a)
  {
    if a != b {
      forall mode: Mode, i | 0 <= i < |rows|
        ensures StillFound(rows, mode, a, b, i) && StillFound(rows, mode, b, a, i)
      {
        DenseStillFound(rows, mode, a, b, i);
        DenseStillFound(rows, mode, b, a, i);
      }
      hide StillFound, Dense;
      RemovalsCommute(rows, a, b);
    }
  }

  /** Indices 0, 0, 1: removing the first then the second row decrements once, the other way round twice. */
  lemma RepeatedIndexBreaksCommutation()
    ensures var rows := [Row(0, UNUSED_INDEX, 1, 1), Row(0, UNUSED_INDEX, 2, 2), Row(1, UNUSED_INDEX, 3, 3)];
            Removed(Removed(rows, 1), 2)[2].fullIndex == 0
            && Removed(Removed(rows, 2), 1)[2].fullIndex == UNUSED_INDEX
  {
    var rows := [Row(0, UNUSED_INDEX, 1, 1), Row(0, UNUSED_INDEX, 2, 2), Row(1, UNUSED_INDEX, 3, 3)];
    var one, two := Removed(rows, 1), Removed(rows, 2);
    hide UsedBefore;
    assert MatchesBefore(rows, Full, 1, 1) == 1;
    assert MatchesBefore(rows, Full, 2, 1) == 0;
    assert MatchesBefore(one, Full, 2, 1) == MatchesBefore(one, Full, 2, 2) == 0;
    assert MatchesBefore(two, Full, 1, 1) == MatchesBefore(two, Full, 1, 2) == 1;
  }

  // -------------------------------------------------- sequences of removals

  function RemovedAll(rows: seq<Row>, ids: seq<U16>): (r: seq<Row>)
    ensures |r| == |rows|
    decreases |ids|
  {
    if ids == [] then rows else RemovedAll(Removed(rows, ids[0]), ids[1..])
  }

  function WithoutAll(menu: seq<(U16, nat)>, ids: seq<U16>): seq<(U16, nat)>
    decreases |ids|
  {
    if ids == [] then menu else WithoutAll(Without(menu, ids[0]), ids[1..])
  }

  /** From a dense table with distinct strings, every sequence of removals keeps the menu dense and filters it. */
  lemma {:induction false} EveryRemovalSequence(rows: seq<Row>, mode: Mode, ids: seq<U16>)
    requires Dense(rows, mode) && DistinctStrings(rows) && |rows| < 0xFFFF
    ensures var r := RemovedAll(rows, ids);
            && |r| == |rows| && Dense(r, mode)
            && Menu(r, mode, |r|) == WithoutAll(Menu(rows, mode, |rows|), ids)
    decreases |ids|
  {
    if ids == [] {
    } else {
      var once := Removed(rows, ids[0]);
      forall i | 0 <= i < |rows| ensures MatchesBefore(rows, mode, ids[0], i) <= 1 {
        DistinctMatchOnce(rows, mode, ids[0], i);
      }
      RemovalKeepsDense(rows, mode, ids[0]);
      forall i | 0 <= i < |rows| ensures !Lost(rows, mode, ids[0], i) {
        UsedAfterDense(rows, mode, ids[0], i);
      }
      RemovalFilters(rows, mode, ids[0], |rows|);
      assert DistinctStrings(once);
      hide Removed, Dense, Without, Menu, Lost;
      EveryRemovalSequence(once, mode, ids[1..]);
    }
  }

  /** The entries of a menu whose string ids are kept, in order. */
  function Kept(menu: seq<(U16, nat)>, keep: U16 -> bool): seq<(U16, nat)> {
    if menu == [] then []
    else if keep(menu[0].0) then [menu[0]] + Kept(menu[1..], keep)
    else Kept(menu[1..], keep)
  }

  lemma {:induction false} KeptSnoc(menu: seq<(U16, nat)>, last: (U16, nat), keep: U16 -> bool)
    ensures Kept(menu + [last], keep) == Kept(menu, keep) + if keep(last.0) then [last] else []
  {
    if menu == [] {
    } else {
      KeptSnoc(menu[1..], last, keep);
      assert (menu + [last])[1..] == menu[1..] + [last];
    }
  }

  lemma {:induction false} KeptTwice(menu: seq<(U16, nat)>, f: U16 -> bool, g: U16 -> bool, h: U16 -> bool)
    requires forall id :: h(id) <==> f(id) && g(id)
    ensures Kept(Kept(menu, f), g) == Kept(menu, h)
  {
    if menu == [] {
    } else {
      KeptTwice(menu[1..], f, g, h);
      var rest := Kept(menu[1..], f);
      if f(menu[0].0) { assert ([menu[0]] + rest)[1..] == rest; }
    }
  }

  lemma {:induction false} WithoutKeeps(menu: seq<(U16, nat)>, id: U16)
    ensures Without(menu, id) == Kept(menu, x => x != id)
  {
    if menu == [] {
    } else {
      var init, last := menu[..|menu| - 1], menu[|menu| - 1];
      WithoutKeeps(init, id);
      KeptSnoc(init, last, x => x != id);
      assert menu == init + [last];
    }
  }

  /** Removing ids one after the other keeps exactly the entries with none of them. */
  lemma {:induction false} WithoutAllKeeps(menu: seq<(U16, nat)>, ids: seq<U16>, keep: U16 -> bool)
    requires forall id :: keep(id) <==> id !in ids
    ensures WithoutAll(menu, ids) == Kept(menu, keep)
    decreases |ids|
  {
    if ids == [] {
      KeepAll(menu, keep);
    } else {
      WithoutKeeps(menu, ids[0]);
      WithoutAllKeeps(Without(menu, ids[0]), ids[1..], x => x !in ids[1..]);
      KeptTwice(menu, x => x != ids[0], x => x !in ids[1..], keep);
    }
  }

  lemma {:induction false} KeepAll(menu: seq<(U16, nat)>, keep: U16 -> bool)
    requires forall id :: keep(id)
    ensures Kept(menu, keep) == menu
  {
    if menu == [] {
    } else {
      KeepAll(menu[1..], keep);
    }
  }

  // --------------------------------------------------- display and look-up

  lemma {:induction false} UsedBeforeGrows(rows: seq<Row>, mode: Mode, i: nat, j: nat)
    requires i <= j <= |rows|
    ensures UsedBefore(rows, mode, i) <= UsedBefore(rows, mode, j)
    ensures i < j && rows[i].Used(mode) ==> UsedBefore(rows, mode, i) < UsedBefore(rows, mode, j)
  {
    if i == j {
    } else {
      UsedBeforeGrows(rows, mode, i, j - 1);
    }
  }

  /** The first of the first i rows that has this index, which the search opens. */
  function FirstRow(rows: seq<Row>, mode: Mode, index: U32, i: nat): (r: Option<nat>)
    requires i <= |rows|
    ensures r.Some? ==> r.value < i && rows[r.value].Index(mode) == index
    ensures r.Some? ==> forall j :: 0 <= j < r.value ==> rows[j].Index(mode) != index
    ensures r == None <==> forall j :: 0 <= j < i ==> rows[j].Index(mode) != index
  {
    if i == 0 then None
    else if FirstRow(rows, mode, index, i - 1).Some? then FirstRow(rows, mode, index, i - 1)
    else if rows[i - 1].Index(mode) == index then Some(i - 1)
    else None
  }

  /** The last of the first i rows that has this index, whose string the fill loop leaves in the cell. */
  function LastRow(rows: seq<Row>, mode: Mode, index: U32, i: nat): (r: Option<nat>)
    requires i <= |rows|
    ensures r.Some? ==> r.value < i && rows[r.value].Index(mode) == index
    ensures r.Some? ==> forall j :: r.value < j < i ==> rows[j].Index(mode) != index
    ensures r == None <==> forall j :: 0 <= j < i ==> rows[j].Index(mode) != index
  {
    if i == 0 then None
    else if rows[i - 1].Index(mode) == index then Some(i - 1)
    else LastRow(rows, mode, index, i - 1)
  }

  function Cell(rows: seq<Row>, row: Option<nat>): Option<U16>
    requires row.Some? ==> row.value < |rows|
  {
    if row.Some? then Some(rows[row.value].menuString) else None
  }

  /** The fill loop: each cell holds the string of the last row with its index; the terminator stays zero. */
  method FillMenu(rows: array<Row>, mode: Mode) returns (cells: array<Option<U16>>)
    requires rows.Length < 0x1_0000
    ensures fresh(cells) && cells.Length == rows.Length + 1
    ensures forall c :: 0 <= c < rows.Length ==>
              cells[c] == Cell(rows[..], LastRow(rows[..], mode, c, rows.Length))
    ensures cells[rows.Length] == None
  {
    cells := new Option<U16>[rows.Length + 1](_ => None);
    ghost var table := rows[..];
    for count := 0 to rows.Length
      invariant rows[..] == table
      invariant forall c :: 0 <= c < rows.Length ==> cells[c] == Cell(table, LastRow(table, mode, c, count))
      invariant cells[rows.Length] == None
    {
      var index := rows[count].Index(mode);
      assert table[count] == rows[count];
      if index != UNUSED_INDEX && index < rows.Length {
        cells[index] := Some(rows[count].menuString);
      }
    }
  }

  /** The entries to take out of the page, in the order in which it removes them. */
  function Hidden(dfci: U16, hwh: U16, showDfci: bool, showHwh: bool): seq<U16> {
    (if showDfci then [] else [dfci]) + (if showHwh then [] else [hwh])
  }

  /** Building the top menu: the entries that are not to be displayed are removed, then the cells are filled. */
  method CreateTopMenu(rows: array<Row>, mode: Mode, dfci: U16, hwh: U16, showDfci: bool, showHwh: bool)
    returns (cells: array<Option<U16>>)
    requires rows.Length < 0x1_0000
    modifies rows
    ensures fresh(cells) && cells.Length == rows.Length + 1
    ensures rows[..] == RemovedAll(old(rows[..]), Hidden(dfci, hwh, showDfci, showHwh))
    ensures rows.Length < 0xFFFF && DistinctStrings(old(rows[..])) ==>
      forall mode: Mode :: Dense(old(rows[..]), mode) ==>
        Menu(rows[..], mode, rows.Length)
        == Kept(Menu(old(rows[..]), mode, rows.Length), id => (id != dfci || showDfci) && (id != hwh || showHwh))
    ensures forall c :: 0 <= c < rows.Length ==>
              cells[c] == Cell(rows[..], LastRow(rows[..], mode, c, rows.Length))
    ensures cells[rows.Length] == None
  {
    hide Removed, LastRow, Dense, Menu, Kept, DistinctStrings;
    ghost var before := rows[..];
    forall mode: Mode | rows.Length < 0xFFFF && DistinctStrings(before) && Dense(before, mode)
      ensures Menu(RemovedAll(before, Hidden(dfci, hwh, showDfci, showHwh)), mode, rows.Length)
        == Kept(Menu(before, mode, rows.Length), id => (id != dfci || showDfci) && (id != hwh || showHwh))
    {
      EveryRemovalSequence(before, mode, Hidden(dfci, hwh, showDfci, showHwh));
      WithoutAllKeeps(Menu(before, mode, rows.Length), Hidden(dfci, hwh, showDfci, showHwh),
                      id => (id != dfci || showDfci) && (id != hwh || showHwh));
    }
    if !showDfci { RemoveMenuFromList(rows, dfci); }
    ghost var between := rows[..];
    assert between == RemovedAll(before, if showDfci then [] else [dfci]);
    if !showHwh { RemoveMenuFromList(rows, hwh); }
    assert rows[..] == RemovedAll(between, if showHwh then [] else [hwh]);
    cells := FillMenu(rows, mode);
  }

  lemma {:induction false} FirstRowStays(rows: seq<Row>, mode: Mode, index: U32, i: nat, j: nat)
    requires i <= j <= |rows| && FirstRow(rows, mode, index, i).Some?
    ensures FirstRow(rows, mode, index, j) == FirstRow(rows, mode, index, i)
  {
    if i == j {
    } else {
      FirstRowStays(rows, mode, index, i, j - 1);
    }
  }

  /** The search for the form of a selected cell: the first row with that index, or none. */
  method FindForm(rows: array<Row>, mode: Mode, formIndex: U32) returns (row: Option<nat>)
    requires 0 < rows.Length < 0x1_0000
    ensures row == FirstRow(rows[..], mode, formIndex, rows.Length)
  {
    var count: nat, index: U16 := 0, 0;
    ghost var table := rows[..];
    while count < rows.Length
      invariant 0 <= count <= rows.Length
      invariant FirstRow(table, mode, formIndex, count) == None
      invariant count > 0 ==> index == rows[count - 1].Index(mode)
    {
      index := rows[count].Index(mode);
      assert table[count] == rows[count];
      if index == formIndex {
        FirstRowStays(table, mode, formIndex, count + 1, rows.Length);
        break;
      }
      count := count + 1;
    }
    if index != formIndex { return None; }
    row := Some(count);
  }

  lemma {:induction false} FirstAndLast(rows: seq<Row>, mode: Mode, index: U32, i: nat, j: nat)
    requires j < i <= |rows| && rows[j].Index(mode) == index
    ensures FirstRow(rows, mode, index, i).value <= j <= LastRow(rows, mode, index, i).value
  {
    if i == j + 1 {
    } else {
      FirstAndLast(rows, mode, index, i - 1, j);
    }
  }

  /** No two rows have this index. */
  ghost predicate AtMostOnce(rows: seq<Row>, mode: Mode, index: U16) {
    forall i, j :: 0 <= i < j < |rows| && rows[i].Index(mode) == index ==> rows[j].Index(mode) != index
  }

  lemma OneRowOpens(rows: seq<Row>, mode: Mode, c: U16)
    ensures LastRow(rows, mode, c, |rows|) == FirstRow(rows, mode, c, |rows|) <==> AtMostOnce(rows, mode, c)
  {
    var first, last := FirstRow(rows, mode, c, |rows|), LastRow(rows, mode, c, |rows|);
    forall i | 0 <= i < |rows| && rows[i].Index(mode) == c ensures first.value <= i <= last.value {
      FirstAndLast(rows, mode, c, |rows|, i);
    }
    hide FirstRow, LastRow;
    if first != last { assert first.value < last.value; }
  }

  /** On any table, every cell shows the row that the search opens exactly when no index in range is used twice. */
  lemma DisplayAgreesWithLookup(rows: seq<Row>, mode: Mode)
    ensures (forall c: U16 :: c < |rows| ==> LastRow(rows, mode, c, |rows|) == FirstRow(rows, mode, c, |rows|))
      <==> forall c: U16 :: c < |rows| ==> AtMostOnce(rows, mode, c)
  {
    hide FirstRow, LastRow, AtMostOnce;
    if forall c: U16 :: c < |rows| ==> AtMostOnce(rows, mode, c) {
      forall c: U16 | c < |rows| ensures LastRow(rows, mode, c, |rows|) == FirstRow(rows, mode, c, |rows|) {
        OneRowOpens(rows, mode, c);
      }
    } else {
      var c: U16 :| c < |rows| && !AtMostOnce(rows, mode, c);
      OneRowOpens(rows, mode, c);
    }
  }

  lemma {:induction false} RowOfCell(rows: seq<Row>, mode: Mode, i: nat, cell: nat) returns (row: nat)
    requires i <= |rows| && cell < UsedBefore(rows, mode, i)
    ensures row < i && rows[row].Used(mode) && UsedBefore(rows, mode, row) == cell
    ensures Menu(rows, mode, i)[cell] == (rows[row].menuString, rows[row].form)
  {
    if UsedBefore(rows, mode, i - 1) > cell {
      row := RowOfCell(rows, mode, i - 1, cell);
    } else {
      row := i - 1;
    }
  }

  lemma DenseIndexIsUnique(rows: seq<Row>, mode: Mode, c: U16)
    requires Dense(rows, mode) && c < |rows| < 0xFFFF
    ensures AtMostOnce(rows, mode, c)
    ensures forall i :: 0 <= i < |rows| && rows[i].Index(mode) == c ==> c < UsedBefore(rows, mode, |rows|)
  {
    hide UsedBefore;
    forall i | 0 <= i < |rows| && rows[i].Index(mode) == c
      ensures c < UsedBefore(rows, mode, |rows|)
      ensures forall j :: i < j < |rows| ==> rows[j].Index(mode) != c
    {
      UsedBeforeGrows(rows, mode, i, |rows|);
      forall j | i < j < |rows| ensures rows[j].Index(mode) != c {
        UsedBeforeGrows(rows, mode, i, j);
      }
    }
  }

  /** A dense menu is shown without a gap, and a selected cell opens the row shown there. */
  lemma DenseMenuIsShown(rows: seq<Row>, mode: Mode, c: U16)
    requires Dense(rows, mode) && c < |rows| < 0xFFFF
    ensures var menu, row := Menu(rows, mode, |rows|), FirstRow(rows, mode, c, |rows|);
            && LastRow(rows, mode, c, |rows|) == row
            && (row.Some? <==> c < |menu|)
            && (row.Some? ==> menu[c] == (rows[row.value].menuString, rows[row.value].form))
  {
    hide Menu, FirstRow, LastRow, AtMostOnce, UsedBefore;
    DenseIndexIsUnique(rows, mode, c);
    if c < UsedBefore(rows, mode, |rows|) {
      var shown := RowOfCell(rows, mode, |rows|, c);
      assert rows[shown].Index(mode) == c;
      FirstAndLast(rows, mode, c, |rows|, shown);
      OneRowOpens(rows, mode, c);
    }
  }

  /**
   The whole front page: after every sequence of removals from a dense table with
   distinct strings, cell c shows entry c of the menu without the removed ids, the
   search opens exactly the row shown, and cells behind the menu are empty and open nothing.
   */
  lemma RemovalsKeepDisplayAndLookup(rows: seq<Row>, mode: Mode, ids: seq<U16>, c: U16)
    requires Dense(rows, mode) && DistinctStrings(rows) && c < |rows| < 0xFFFF
    ensures var after := RemovedAll(rows, ids);
            var menu := WithoutAll(Menu(rows, mode, |rows|), ids);
            var row := FirstRow(after, mode, c, |after|);
            && Cell(after, LastRow(after, mode, c, |after|)) == (if c < |menu| then Some(menu[c].0) else None)
            && (row.Some? <==> c < |menu|)
            && (row.Some? ==> (after[row.value].menuString, after[row.value].form) == menu[c])
  {
    EveryRemovalSequence(rows, mode, ids);
    hide Dense, WithoutAll, Menu, RemovedAll, FirstRow, LastRow;
    DenseMenuIsShown(RemovedAll(rows, ids), mode, c);
  }

  // ---------------------------------------------------- the table as built

  /** The six rows of the shipped table; the string ids and forms stand for the distinct tokens. */
  const FORM_MAP: seq<Row> := [
    Row(0, 0, 0, 0),
    Row(1, UNUSED_INDEX, 1, 1),
    Row(2, UNUSED_INDEX, 2, 2),
    Row(3, 1, 3, 3),
    Row(4, UNUSED_INDEX, 4, 4),
    Row(5, 2, 5, 5)]

  lemma FormMapIsDense()
    ensures Dense(FORM_MAP, Full) && Dense(FORM_MAP, Limited) && DistinctStrings(FORM_MAP)
  {
    forall mode ensures Dense(FORM_MAP, mode) {
      assert UsedBefore(FORM_MAP, mode, 1) == 1;
      assert UsedBefore(FORM_MAP, mode, 2) == if mode == Full then 2 else 1;
      assert UsedBefore(FORM_MAP, mode, 3) == if mode == Full then 3 else 1;
      assert UsedBefore(FORM_MAP, mode, 4) == if mode == Full then 4 else 2;
      assert UsedBefore(FORM_MAP, mode, 5) == if mode == Full then 5 else 2;
    }
  }

  /** The shipped page, whichever of its entries are removed, shows and opens the same rows in both modes. */
  lemma ShippedPage(mode: Mode, ids: seq<U16>, c: U16)
    requires c < |FORM_MAP|
    ensures var after := RemovedAll(FORM_MAP, ids);
            var menu := WithoutAll(Menu(FORM_MAP, mode, |FORM_MAP|), ids);
            var row := FirstRow(after, mode, c, |after|);
            && Cell(after, LastRow(after, mode, c, |after|)) == (if c < |menu| then Some(menu[c].0) else None)
            && (row.Some? <==> c < |menu|)
            && (row.Some? ==> (after[row.value].menuString, after[row.value].form) == menu[c])
  {
    FormMapIsDense();
    RemovalsKeepDisplayAndLookup(FORM_MAP, mode, ids, c);
  }

  /** The menus of the shipped table as string ids: all six entries, or information, DFCI and exit. */
  lemma ShippedMenus()
    ensures Menu(FORM_MAP, Full, 6) == [(0, 0), (1, 1), (2, 2), (3, 3), (4, 4), (5, 5)]
    ensures Menu(FORM_MAP, Limited, 6) == [(0, 0), (3, 3), (5, 5)]
    ensures FORM_MAP[1].limitedIndex == FORM_MAP[2].limitedIndex == FORM_MAP[4].limitedIndex == 0xFFFF
  {
    hide UsedBefore;
    assert Menu(FORM_MAP, Full, 2) == [(0, 0), (1, 1)];
    assert Menu(FORM_MAP, Full, 4) == [(0, 0), (1, 1), (2, 2), (3, 3)];
    assert Menu(FORM_MAP, Limited, 2) == [(0, 0)];
    assert Menu(FORM_MAP, Limited, 4) == [(0, 0), (3, 3)];
  }
}
