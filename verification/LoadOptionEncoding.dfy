/** Load option attributes, and the flag bits of an ordered-list entry. */
module LoadOptionEncoding {
  import opened VariableStore

  // ------------------------------------------------------------ attributes

  /** LOAD_OPTION_ACTIVE is bit 0. */
  predicate IsActive(attributes: bv32) {
    attributes & 0x1 == 0x1
  }

  /** LOAD_OPTION_HIDDEN is bit 3, LOAD_OPTION_CATEGORY_APP bit 8; such options get no entry in the list. */
  predicate IsDisplayable(attributes: bv32) {
    attributes & 0x8 == 0 && attributes & 0x100 == 0
  }

  function ToggleActive(attributes: bv32): bv32 {
    attributes ^ 0x1
  }

  function ActiveSet(attributes: bv32): bv32 {
    attributes | 0x1
  }

  function ActiveCleared(attributes: bv32): bv32 {
    attributes & 0xFFFF_FFFE
  }

  /** Bit 0 is ACTIVE, bits 3 and 8 keep an option from being shown, and clearing ACTIVE leaves the other bits. */
  lemma AttributeBits(a: bv32)
    ensures IsActive(a) <==> a & 0x1 != 0
    ensures IsDisplayable(a) <==> a & 0x108 == 0
    ensures !IsActive(ActiveCleared(a))
    ensures a == ActiveCleared(a) || a == ActiveCleared(a) | 0x1
  {
  }

  lemma ToggleFacts(a: bv32)
    ensures IsActive(ToggleActive(a)) == !IsActive(a)
    ensures IsDisplayable(ToggleActive(a)) == IsDisplayable(a)
    ensures ToggleActive(ToggleActive(a)) == a
  {
  }

  function WithActive(body: OptionBody, active: bool): OptionBody {
    if IsActive(body.attributes) == active then body
    else body.(attributes := ToggleActive(body.attributes))
  }

  lemma WithActiveFacts(body: OptionBody, a: bool, b: bool)
    ensures IsActive(WithActive(body, a).attributes) == a
    ensures WithActive(WithActive(body, a), b) == WithActive(body, b)
    ensures IsDisplayable(WithActive(body, a).attributes) == IsDisplayable(body.attributes)
  {
    ToggleFacts(body.attributes);
    ToggleFacts(ToggleActive(body.attributes));
  }

  /** An option is a default when the default list has it with ACTIVE set or with ACTIVE clear. */
  predicate IsDefault(body: OptionBody, defaults: seq<OptionBody>) {
    || body.(attributes := ActiveSet(body.attributes)) in defaults
    || body.(attributes := ActiveCleared(body.attributes)) in defaults
  }

  /** Ticking or clearing an option never changes whether it may be deleted. */
  lemma DefaultIgnoresActive(body: OptionBody, active: bool, defaults: seq<OptionBody>)
    ensures IsDefault(WithActive(body, active), defaults) == IsDefault(body, defaults)
  {
    ToggleLeavesTheRest(body.attributes);
    hide ToggleActive, IsActive, ActiveSet, ActiveCleared;
  }

  /**
   In terms of the default list: some default agrees with the option in its
   description and in every attribute but LOAD_OPTION_ACTIVE.
   */
  lemma DefaultMeans(body: OptionBody, defaults: seq<OptionBody>)
    ensures IsDefault(body, defaults) <==> exists k ::
      && 0 <= k < |defaults| && defaults[k].description == body.description
      && ActiveCleared(defaults[k].attributes) == ActiveCleared(body.attributes)
  {
    hide ActiveSet, ActiveCleared;
    forall k | 0 <= k < |defaults|
      ensures defaults[k].description == body.description
              && ActiveCleared(defaults[k].attributes) == ActiveCleared(body.attributes)
        <==> defaults[k] == body.(attributes := ActiveSet(body.attributes))
             || defaults[k] == body.(attributes := ActiveCleared(body.attributes))
    {
      SetOrCleared(defaults[k], body);
    }
  }

  lemma SetOrCleared(d: OptionBody, body: OptionBody)
    ensures d.description == body.description && ActiveCleared(d.attributes) == ActiveCleared(body.attributes)
      <==> d == body.(attributes := ActiveSet(body.attributes))
           || d == body.(attributes := ActiveCleared(body.attributes))
  {
    ActiveIsOneBit(d.attributes);
    ClearSet(body.attributes);
    ClearTwice(body.attributes);
    SetCleared(body.attributes);
    hide ActiveSet, ActiveCleared;
  }

  lemma ActiveIsOneBit(a: bv32)
    ensures a == ActiveSet(ActiveCleared(a)) || a == ActiveCleared(a)
  {
  }

  lemma ClearSet(a: bv32)
    ensures ActiveCleared(ActiveSet(a)) == ActiveCleared(a)
  {
  }

  lemma ClearTwice(a: bv32)
    ensures ActiveCleared(ActiveCleared(a)) == ActiveCleared(a)
  {
  }

  lemma SetCleared(a: bv32)
    ensures ActiveSet(ActiveCleared(a)) == ActiveSet(a)
  {
  }

  lemma ToggleLeavesTheRest(a: bv32)
    ensures ActiveSet(ToggleActive(a)) == ActiveSet(a)
    ensures ActiveCleared(ToggleActive(a)) == ActiveCleared(a)
  {
  }

  // ---------------------------------------------------------- list entries

  function AndBit(value: bv32, bit: bv32): bv32 {
    value & bit
  }

  predicate HasBit(value: bv32, bit: bv32) {
    AndBit(value, bit) != 0
  }

  function OrBit(value: bv32, bit: bv32): bv32 {
    value | bit
  }

  /** The bits below the flags; they hold an option number plus one. */
  function LowBits(value: bv32): bv32 {
    value & 0x1FFFF
  }

  /** The three flag bits of a list entry. */
  datatype Flags = Flags(checkbox: bv32, allowDelete: bv32, boot: bv32) {
    /** Distinct bits that leave room for an option number plus one. */
    predicate Valid() {
      && checkbox != 0 && allowDelete != 0 && boot != 0
      && LowBits(checkbox) == 0 && LowBits(allowDelete) == 0 && LowBits(boot) == 0
      && !HasBit(allowDelete, checkbox) && !HasBit(checkbox, boot) && !HasBit(allowDelete, boot)
    }
  }

  function Encode(n: bv16, active: bool, deletable: bool, f: Flags): bv32 {
    var value := (n as bv32) + 1;
    var checked := if active then OrBit(value, f.checkbox) else value;
    if deletable then OrBit(checked, f.allowDelete) else checked
  }

  function Decode(value: bv32): bv16 {
    ((value - 1) & 0xFFFF) as bv16
  }

  lemma LowBitsOr(x: bv32, c: bv32)
    ensures LowBits(c) == 0 ==> LowBits(OrBit(x, c)) == LowBits(x)
  {
  }

  lemma HasBitOr(x: bv32, c: bv32, b: bv32)
    ensures HasBit(OrBit(x, c), b) <==> HasBit(x, b) || HasBit(c, b)
  {
    hide AndBit, OrBit;
    AndOverOr(x, c, b);
    OrIsZero(AndBit(x, b), AndBit(c, b));
  }

  lemma AndOverOr(x: bv32, c: bv32, b: bv32)
    ensures AndBit(OrBit(x, c), b) == OrBit(AndBit(x, b), AndBit(c, b))
  {
  }

  lemma OrIsZero(p: bv32, q: bv32)
    ensures OrBit(p, q) == 0 <==> p == 0 && q == 0
  {
  }

  lemma LowHasNoFlag(x: bv32, b: bv32)
    ensures LowBits(x) == x && LowBits(b) == 0 ==> !HasBit(x, b)
  {
  }

  /** Decoding undoes the increment in 16 bits, whatever stands in the bits above. */
  lemma DecodeIsOneLess(v: bv32)
    ensures ((Decode(v) as bv32) + 1) & 0xFFFF == v & 0xFFFF
  {
  }

  lemma EncodeLow(n: bv16, active: bool, deletable: bool, f: Flags)
    requires f.Valid()
    ensures Encode(n, active, deletable, f) & 0x1_FFFF == (n as bv32) + 1
  {
    var x := (n as bv32) + 1;
    NumberIsLow(n);
    LowBitsOr(x, f.checkbox);
    LowBitsOr(if active then OrBit(x, f.checkbox) else x, f.allowDelete);
    assert LowBits(Encode(n, active, deletable, f)) == x by { hide LowBits, OrBit; }
    hide Encode, OrBit;
  }

  lemma DecodeLow(v: bv32, n: bv16)
    requires LowBits(v) == (n as bv32) + 1
    ensures v != 0 && Decode(v) == n
  {
  }

  lemma NumberIsLow(n: bv16)
    ensures LowBits((n as bv32) + 1) == (n as bv32) + 1
  {
  }

  lemma BitHasItself(c: bv32)
    ensures HasBit(c, c) <==> c != 0
  {
  }

  lemma HasBitSymmetric(a: bv32, b: bv32)
    ensures HasBit(a, b) <==> HasBit(b, a)
  {
    assert a & b == b & a;
  }

  /** What the list entry of an option says is what the option is; an entry never asks to boot. */
  lemma DecodeEncode(n: bv16, active: bool, deletable: bool, f: Flags)
    requires f.Valid()
    ensures var v := Encode(n, active, deletable, f);
            && v != 0
            && Decode(v) == n
            && (HasBit(v, f.checkbox) <==> active)
            && (HasBit(v, f.allowDelete) <==> deletable)
            && !HasBit(v, f.boot)
  {
    var x := (n as bv32) + 1;
    var checked := if active then OrBit(x, f.checkbox) else x;
    NumberIsLow(n);
    BitHasItself(f.checkbox);
    BitHasItself(f.allowDelete);
    HasBitSymmetric(f.checkbox, f.allowDelete);
    hide LowBits, HasBit, OrBit, Decode;
    LowBitsOr(x, f.checkbox);
    LowBitsOr(checked, f.allowDelete);
    LowHasNoFlag(x, f.checkbox);
    LowHasNoFlag(x, f.boot);
    HasBitOr(x, f.checkbox, f.checkbox);
    HasBitOr(x, f.checkbox, f.boot);
    HasBitOr(checked, f.allowDelete, f.checkbox);
    HasBitOr(checked, f.allowDelete, f.boot);
    LowHasNoFlag(x, f.allowDelete);
    HasBitOr(x, f.checkbox, f.allowDelete);
    HasBitOr(checked, f.allowDelete, f.allowDelete);
    DecodeLow(Encode(n, active, deletable, f), n);
  }
}
