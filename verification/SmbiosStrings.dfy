/** Picking a string out of an SMBIOS string set, section 6.1.3 of DSP0134. */
module SmbiosStrings {
  import opened Bytes
  import opened Efi

  /** "Not Found" and its terminator, in ASCII. */
  const ID_NOT_FOUND: seq<Byte> := [78, 111, 116, 32, 70, 111, 117, 110, 100, 0]

  /** The strings of a set hold no zero byte, and only the first can be empty: a later empty one would end the set. */
  ghost predicate IsStringSet(strings: seq<seq<Byte>>) {
    && (forall k :: 0 <= k < |strings| ==> 0 !in strings[k])
    && (forall k :: 1 <= k < |strings| ==> strings[k] != [])
  }

  /** Each string with its terminator, end to end. */
  function Terminated(strings: seq<seq<Byte>>): seq<Byte> {
    if strings == [] then [] else strings[0] + [0] + Terminated(strings[1..])
  }

  /** The area behind a structure: the strings and one more zero; two zeros when there are none. */
  function Area(strings: seq<seq<Byte>>): seq<Byte> {
    if strings == [] then [0, 0] else Terminated(strings) + [0]
  }

  lemma {:induction false} TerminatedAt(strings: seq<seq<Byte>>, k: nat)
    requires k < |strings|
    ensures Terminated(strings) == Terminated(strings[..k]) + (strings[k] + [0]) + Terminated(strings[k + 1..])
  {
    if k == 0 {
    } else {
      TerminatedAt(strings[1..], k - 1);
      assert strings[..k][1..] == strings[1..][..k - 1];
      assert strings[1..][k..] == strings[k + 1..];
    }
  }

  lemma {:induction false} TerminatedSnoc(strings: seq<seq<Byte>>, k: nat)
    requires k < |strings|
    ensures Terminated(strings[..k + 1]) == Terminated(strings[..k]) + strings[k] + [0]
  {
    TerminatedAt(strings[..k + 1], k);
    assert strings[..k + 1][..k] == strings[..k];
    assert strings[..k + 1][k + 1..] == [];
  }

  /** Where string k stands in the area, and what follows it. */
  lemma StringInArea(strings: seq<seq<Byte>>, k: nat)
    requires IsStringSet(strings) && k < |strings|
    ensures var at, size := |Terminated(strings[..k])|, |strings[k]| + 1;
            && at + size < |Area(strings)|
            && Area(strings)[at..at + size] == strings[k] + [0]
            && (Area(strings)[at + size] == 0 <==> k + 1 == |strings|)
            && at + size == |Terminated(strings[..k + 1])|
  {
    TerminatedAt(strings, k);
    TerminatedSnoc(strings, k);
    var before, rest := Terminated(strings[..k]), Terminated(strings[k + 1..]);
    var at, size := |before|, |strings[k]| + 1;
    assert Area(strings) == before + (strings[k] + [0]) + (rest + [0]);
    assert Area(strings)[at + size] == (rest + [0])[0];
    if k + 1 < |strings| {
      assert rest[0] == strings[k + 1][0] != 0;
    }
  }

  /** Whatever bytes hold two zeros in a row start with the area of a string set. */
  lemma {:induction false} EveryAreaIsASet(area: seq<Byte>, i: nat) returns (strings: seq<seq<Byte>>)
    requires i + 1 < |area| && area[i] == area[i + 1] == 0
    ensures IsStringSet(strings) && Area(strings) <= area
    ensures strings != [] && (strings[0] == [] <==> area[0] == 0)
    decreases |area|
  {
    var z: nat := FirstZero(area, i);
    var text := area[..z];
    if area[z + 1] == 0 {
      strings := [text];
      assert Terminated(strings) == text + [0] + Terminated([]);
      assert Area(strings) == area[..z + 2];
    } else {
      var rest := EveryAreaIsASet(area[z + 1..], i - (z + 1));
      strings := [text] + rest;
      assert strings[1..] == rest;
      assert Area(strings) == text + [0] + Area(rest);
      assert area == text + [0] + area[z + 1..];
    }
  }

  lemma {:induction false} FirstZero(area: seq<Byte>, i: nat) returns (z: nat)
    requires i < |area| && area[i] == 0
    ensures z <= i && area[z] == 0 && 0 !in area[..z]
  {
    if w :| 0 <= w < i && area[w] == 0 {
      z := FirstZero(area, w);
    } else {
      z := i;
    }
  }

  /** AsciiStrSize: the bytes up to and including the first zero. */
  method AsciiStrSize(area: seq<Byte>, start: nat, ghost text: seq<Byte>) returns (size: nat)
    requires 0 !in text && start + |text| < |area| && area[start..start + |text| + 1] == text + [0]
    ensures size == |text| + 1
  {
    size := 0;
    while area[start + size] != 0
      invariant size <= |text|
      decreases |text| - size
    {
      assert area[start + size] == area[start..start + |text| + 1][size] == (text + [0])[size];
      size := size + 1;
    }
    assert area[start + size] == area[start..start + |text| + 1][size] == (text + [0])[size];
    size := size + 1;
  }

  /**
   Index 0 is an empty string; 1 to n pick a string of the set; anything else, an
   empty string, and any index into an empty set, is "Not Found". No byte behind the
   double terminator that ends the set makes a difference.
   */
  method GetOptionalStringByIndex(area: seq<Byte>, index: Byte, ghost strings: seq<seq<Byte>>)
    returns (text: seq<Byte>, size: Option<nat>)
    requires IsStringSet(strings) && Area(strings) <= area
    ensures index == 0 ==> text == [0, 0] && size == None
    ensures 1 <= index <= |strings| && strings[index - 1] != [] ==>
      text == strings[index - 1] + [0] && size == Some(|text|)
    ensures index > |strings| || (index > 0 && strings[index - 1] == []) ==>
      text == ID_NOT_FOUND == [78, 111, 116, 32, 70, 111, 117, 110, 100, 0] && size == Some(|text|)
  {
    if index == 0 {
      return [0, 0], None;
    }
    hide Terminated, Area, IsStringSet;
    var remaining: nat, start: nat, strSize: nat := index, 0, 0;
    EmptyArea();
    assert |Terminated(strings[..0])| == 0 by { StartsAtZero(strings); }
    ghost var k := 0;
    while true
      invariant 0 < remaining <= index && k + remaining == index
      invariant k <= |strings| && (k == |strings| ==> k == 0)
      invariant start + strSize == |Terminated(strings[..k])|
      decreases remaining
    {
      remaining := remaining - 1;
      start := start + strSize;
      ghost var here: seq<Byte> := [];
      if k < |strings| {
        StringAt(strings, area, k);
        here := strings[k];
        k := k + 1;
      }
      strSize := AsciiStrSize(area, start, here);
      if area[start + strSize] == 0 || remaining == 0 { break; }
    }
    if remaining != 0 || strSize == 1 {
      text := ID_NOT_FOUND;
    } else {
      text := area[start..start + strSize];
    }
    size := Some(|text|);
  }

  lemma StringAt(strings: seq<seq<Byte>>, area: seq<Byte>, k: nat)
    requires IsStringSet(strings) && k < |strings| && Area(strings) <= area
    ensures var at, size := |Terminated(strings[..k])|, |strings[k]| + 1;
            && 0 !in strings[k]
            && at + size < |area|
            && area[at..at + size] == strings[k] + [0]
            && (area[at + size] == 0 <==> k + 1 == |strings|)
            && at + size == |Terminated(strings[..k + 1])|
  {
    StringInArea(strings, k);
    hide Terminated, Area;
    var at, size := |Terminated(strings[..k])|, |strings[k]| + 1;
    assert area[at..at + size] == Area(strings)[at..at + size];
  }

  lemma EmptyArea()
    ensures Area([]) == [0, 0]
  {
  }

  lemma StartsAtZero(strings: seq<seq<Byte>>)
    ensures Terminated(strings[..0]) == []
  {
    assert strings[..0] == [];
  }
}
