/**
 The part of the UEFI variable store that holds the boot configuration, with
 variables that a LOCK_NOW variable policy makes read-only.
 */
module VariableStore {
  const BOOT_ORDER := "BootOrder"
  const BOOT_NEXT := "BootNext"
  const MS_BOOT_NEXT := "MsBootNext"

  /** The stored part of a load option; description stands for everything but the attributes. */
  datatype OptionBody = OptionBody(attributes: bv32, description: string)

  datatype Value = Order(numbers: seq<bv16>) | BootOption(body: OptionBody) | Next(number: bv16) | Flag(on: bool)

  datatype Store = Store(vars: map<string, Value>, locked: set<string>) {

    /** SetVariable; a locked variable stays as it is. */
    function Write(name: string, value: Value): Store {
      if name in locked then this else this.(vars := vars[name := value])
    }

    /** SetVariable with no data. */
    function Delete(name: string): Store {
      if name in locked then this else this.(vars := vars - {name})
    }

    /** RegisterBasicVariablePolicy with LOCK_NOW: the name is locked whether or not it exists. */
    function Lock(name: string): Store {
      this.(locked := locked + {name})
    }

    /** Writing an empty BootOrder is a write of no data, and so deletes it. */
    function WriteOrder(numbers: seq<bv16>): Store {
      if numbers == [] then Delete(BOOT_ORDER) else Write(BOOT_ORDER, Order(numbers))
    }

    function BootOrder(): seq<bv16> {
      if BOOT_ORDER in vars && vars[BOOT_ORDER].Order? then vars[BOOT_ORDER].numbers else []
    }

    function Unlist(n: bv16): Store {
      if n in BootOrder() then WriteOrder(WithoutFirst(BootOrder(), n)) else this
    }

    predicate HasOption(n: bv16) {
      BootName(n) in vars && vars[BootName(n)].BootOption?
    }

    /** Every number in BootOrder has its Boot#### variable. */
    ghost predicate NoDangling() {
      forall n :: n in BootOrder() ==> HasOption(n)
    }
  }

  function WithoutFirst(order: seq<bv16>, n: bv16): seq<bv16> {
    if order == [] then [] else if order[0] == n then order[1..] else [order[0]] + WithoutFirst(order[1..], n)
  }

  /** Every variable locked in a is still locked in b and has kept its value or its absence. */
  ghost predicate LockedKept(a: Store, b: Store) {
    && a.locked <= b.locked
    && forall name :: name in a.locked ==>
         && (name in a.vars <==> name in b.vars)
         && (name in a.vars ==> a.vars[name] == b.vars[name])
  }

  // ------------------------------------------------------------ Boot%04x

  /** One upper-case hexadecimal digit. */
  function HexDigit(d: bv16): char {
    if d == 0 then '0' else if d == 1 then '1' else if d == 2 then '2' else if d == 3 then '3'
    else if d == 4 then '4' else if d == 5 then '5' else if d == 6 then '6' else if d == 7 then '7'
    else if d == 8 then '8' else if d == 9 then '9' else if d == 10 then 'A' else if d == 11 then 'B'
    else if d == 12 then 'C' else if d == 13 then 'D' else if d == 14 then 'E' else 'F'
  }

  /** The k-th nibble, least significant first. */
  function Nibble(n: bv16, k: nat): (d: bv16)
    ensures d < 16
  {
    if k == 3 then n >> 12
    else if k == 2 then (n >> 8) & 0xF
    else if k == 1 then (n >> 4) & 0xF
    else n & 0xF
  }

  function BootName(n: bv16): (s: string)
    ensures |s| == 8
  {
    "Boot" + [HexDigit(Nibble(n, 3)), HexDigit(Nibble(n, 2)), HexDigit(Nibble(n, 1)), HexDigit(Nibble(n, 0))]
  }

  lemma HexDigitInjective(a: bv16, b: bv16)
    requires a < 16 && b < 16 && HexDigit(a) == HexDigit(b)
    ensures a == b
  {
  }

  lemma NibblesDetermine(a: bv16, b: bv16)
    requires Nibble(a, 3) == Nibble(b, 3) && Nibble(a, 2) == Nibble(b, 2)
    requires Nibble(a, 1) == Nibble(b, 1) && Nibble(a, 0) == Nibble(b, 0)
    ensures a == b
  {
  }

  /** Distinct option numbers have distinct variables. */
  lemma BootNameInjective(a: bv16, b: bv16)
    requires BootName(a) == BootName(b)
    ensures a == b
  {
    hide HexDigit, Nibble;
    var s, t := BootName(a), BootName(b);
    assert s[4] == t[4] && s[5] == t[5] && s[6] == t[6] && s[7] == t[7];
    HexDigitInjective(Nibble(a, 3), Nibble(b, 3));
    HexDigitInjective(Nibble(a, 2), Nibble(b, 2));
    HexDigitInjective(Nibble(a, 1), Nibble(b, 1));
    HexDigitInjective(Nibble(a, 0), Nibble(b, 0));
    NibblesDetermine(a, b);
  }

  const DIGITS := "0123456789ABCDEF"

  /** The digit stands for its position among the sixteen, which is the nibble's value. */
  lemma DigitSpells(d: bv16)
    requires d < 16
    ensures DIGITS[d as int] == HexDigit(d)
  {
  }

  lemma NibblesCompose(n: bv16)
    ensures (Nibble(n, 3) << 12) | (Nibble(n, 2) << 8) | (Nibble(n, 1) << 4) | Nibble(n, 0) == n
  {
  }

  /** The name is Boot and four upper-case digits, the most significant first, that spell the number. */
  lemma BootNameSpells(n: bv16) returns (a: bv16, b: bv16, c: bv16, d: bv16)
    ensures a < 16 && b < 16 && c < 16 && d < 16
    ensures BootName(n) == "Boot" + [DIGITS[a as int], DIGITS[b as int], DIGITS[c as int], DIGITS[d as int]]
    ensures (a << 12) | (b << 8) | (c << 4) | d == n
  {
    a, b, c, d := Nibble(n, 3), Nibble(n, 2), Nibble(n, 1), Nibble(n, 0);
    NibblesCompose(n);
    DigitSpells(a);
    DigitSpells(b);
    DigitSpells(c);
    DigitSpells(d);
    hide HexDigit, Nibble;
  }

  lemma BootNameIsNoOther(n: bv16)
    ensures BootName(n) != BOOT_ORDER && BootName(n) != BOOT_NEXT && BootName(n) != MS_BOOT_NEXT
  {
    var s := BootName(n);
    assert |BOOT_ORDER| == 9 && |MS_BOOT_NEXT| == 10;
    assert BOOT_NEXT[4] == 'N' && s[4] == HexDigit(Nibble(n, 3)) != 'N';
  }

  /** The variable services over the store. */
  class Nvram {
    var store: Store

    method SetVariable(name: string, value: Value)
      modifies this
      ensures store == old(store).Write(name, value)
    {
      if name !in store.locked {
        store := store.(vars := store.vars[name := value]);
      }
    }

    method DeleteVariable(name: string)
      modifies this
      ensures store == old(store).Delete(name)
    {
      if name !in store.locked {
        store := store.(vars := store.vars - {name});
      }
    }

    method SetBootOrder(numbers: seq<bv16>)
      modifies this
      ensures store == old(store).WriteOrder(numbers)
    {
      if |numbers| == 0 {
        DeleteVariable(BOOT_ORDER);
      } else {
        SetVariable(BOOT_ORDER, Order(numbers));
      }
    }

    /** EfiBootManagerDeleteLoadOptionVariable: BootOrder loses the first mention of n. */
    method DropFromBootOrder(n: bv16)
      modifies this
      ensures store == old(store).Unlist(n)
    {
      if n in store.BootOrder() {
        SetBootOrder(WithoutFirst(store.BootOrder(), n));
      }
    }

    method LockNow(name: string)
      modifies this
      ensures store == old(store).Lock(name)
    {
      store := store.(locked := store.locked + {name});
    }
  }
}
