/**
 The config policy creator: profile overrides with rollback, a checked sizing
 pass, and a pass that resolves every knob and serialises it.
 */
module ConfigPolicy {
  import opened Bytes
  import opened Efi

  /** A row of the generated knob table. */
  datatype Knob = Knob(
    id: nat, nameSize: U32, valueSize: nat, defaultValue: seq<Byte>, validator: Option<seq<Byte> -> bool>)

  datatype Override = Override(knob: nat, value: seq<Byte>)

  /** The defaults have their declared sizes, and an override of a knob supplies at least that knob's bytes. */
  ghost predicate WellSized(knobs: seq<Knob>, overrides: seq<Override>) {
    && (forall k :: 0 <= k < |knobs| ==> |knobs[k].defaultValue| == knobs[k].valueSize)
    && (forall i :: 0 <= i < |overrides| && overrides[i].knob < |knobs| ==>
          |overrides[i].value| >= knobs[overrides[i].knob].valueSize)
  }

  // ------------------------------------------------------ profile overrides

  /** The table row an override names is the row of that knob. */
  predicate IsInOrder(knobs: seq<Knob>, o: Override) {
    o.knob < |knobs| && o.knob == knobs[o.knob].id
  }

  ghost predicate AllInOrder(knobs: seq<Knob>, overrides: seq<Override>) {
    forall i :: 0 <= i < |overrides| ==> IsInOrder(knobs, overrides[i])
  }

  /** The bytes that the last of the first n overrides of knob k supplies. */
  function LastOverride(knobs: seq<Knob>, overrides: seq<Override>, n: nat, k: nat): (r: Option<seq<Byte>>)
    requires n <= |overrides| && k < |knobs| && WellSized(knobs, overrides)
    ensures r.Some? ==> |r.value| == knobs[k].valueSize
  {
    if n == 0 then None
    else if overrides[n - 1].knob == k then Some(overrides[n - 1].value[..knobs[k].valueSize])
    else LastOverride(knobs, overrides, n - 1, k)
  }

  predicate Names(overrides: seq<Override>, from: nat, to: nat, k: nat)
    requires from <= to <= |overrides|
  {
    exists i :: from <= i < to && overrides[i].knob == k
  }

  /** Every cached value is the knob's default. */
  ghost predicate AllDefault(knobs: seq<Knob>, cache: seq<seq<Byte>>) {
    |cache| == |knobs| && forall k :: 0 <= k < |knobs| ==> cache[k] == knobs[k].defaultValue
  }

  /** The value a profile gives knob k: its last override, or the default. */
  function ProfileValue(knobs: seq<Knob>, overrides: seq<Override>, k: nat): (r: seq<Byte>)
    requires k < |knobs| && WellSized(knobs, overrides)
    ensures |r| == knobs[k].valueSize
  {
    var o := LastOverride(knobs, overrides, |overrides|, k);
    if o.Some? then o.value else knobs[k].defaultValue
  }

  /**
   Copies each override to its knob's cache. The first override out of order stops
   the loop; the knobs copied so far go back to their defaults, last one first. So
   from the defaults a profile applies whole or leaves no trace.
   */
  method ApplyProfileOverrides(knobs: seq<Knob>, overrides: seq<Override>, cache: array<seq<Byte>>)
    returns (status: Status)
    requires cache.Length == |knobs| && WellSized(knobs, overrides)
    modifies cache
    ensures status == if AllInOrder(knobs, overrides) then Success else InvalidParameter
    ensures status == Success
      <==> forall i :: 0 <= i < |overrides| ==>
             overrides[i].knob < |knobs| && knobs[overrides[i].knob].id == overrides[i].knob
    ensures status == Success ==>
      forall k :: 0 <= k < |knobs| ==>
        cache[k] == var o := LastOverride(knobs, overrides, |overrides|, k);
                    if o.Some? then o.value else old(cache[k])
    ensures status != Success ==>
      exists bad ::
        && 0 <= bad < |overrides| && !IsInOrder(knobs, overrides[bad]) && AllInOrder(knobs, overrides[..bad])
        && forall k :: 0 <= k < |knobs| ==>
             cache[k] == if Names(overrides, 0, bad, k) then knobs[k].defaultValue else old(cache[k])
    ensures AllDefault(knobs, old(cache[..])) ==>
      forall k :: 0 <= k < |knobs| ==> cache[k] == ProfileValue(knobs, if status == Success then overrides else [], k)
  {
    var i := 0;
    while i < |overrides|
      invariant 0 <= i <= |overrides|
      invariant AllInOrder(knobs, overrides[..i])
      invariant forall k :: 0 <= k < |knobs| ==>
        cache[k] == var o := LastOverride(knobs, overrides, i, k); if o.Some? then o.value else old(cache[k])
    {
      if !IsInOrder(knobs, overrides[i]) {
        LastIsNamed(knobs, overrides, i);
        RollBack(knobs, overrides, i, cache);
        return InvalidParameter;
      }
      var knob := overrides[i].knob;
      cache[knob] := overrides[i].value[..knobs[knob].valueSize];
      i := i + 1;
    }
    assert overrides[..|overrides|] == overrides;
    status := Success;
  }

  lemma {:induction false} LastIsNamed(knobs: seq<Knob>, overrides: seq<Override>, n: nat)
    requires n <= |overrides| && WellSized(knobs, overrides)
    ensures forall k :: 0 <= k < |knobs| ==> (LastOverride(knobs, overrides, n, k).Some? <==> Names(overrides, 0, n, k))
  {
    if n == 0 {
    } else {
      LastIsNamed(knobs, overrides, n - 1);
    }
  }

  /** The undo loop for a failure at index bad; the counter is unsigned, so index 0 is handled after the loop. */
  method RollBack(knobs: seq<Knob>, overrides: seq<Override>, bad: nat, cache: array<seq<Byte>>)
    requires bad < |overrides| && cache.Length == |knobs| && AllInOrder(knobs, overrides[..bad])
    modifies cache
    ensures forall k :: 0 <= k < |knobs| ==>
      cache[k] == if Names(overrides, 0, bad, k) then knobs[k].defaultValue else old(cache[k])
  {
    if bad == 0 {
      return;
    }
    var i := bad - 1;
    while i > 0
      invariant 0 <= i < bad
      invariant forall k :: 0 <= k < |knobs| ==>
        cache[k] == if Names(overrides, i + 1, bad, k) then knobs[k].defaultValue else old(cache[k])
    {
      InOrderAt(knobs, overrides, bad, i);
      cache[overrides[i].knob] := knobs[overrides[i].knob].defaultValue;
      NamesOneMore(overrides, i, bad);
      i := i - 1;
    }
    InOrderAt(knobs, overrides, bad, i);
    cache[overrides[i].knob] := knobs[overrides[i].knob].defaultValue;
    NamesOneMore(overrides, i, bad);
  }

  lemma InOrderAt(knobs: seq<Knob>, overrides: seq<Override>, bad: nat, i: nat)
    requires i < bad <= |overrides| && AllInOrder(knobs, overrides[..bad])
    ensures IsInOrder(knobs, overrides[i])
  {
    assert overrides[..bad][i] == overrides[i];
  }

  lemma NamesOneMore(overrides: seq<Override>, i: nat, to: nat)
    requires i < to <= |overrides|
    ensures forall k :: Names(overrides, i, to, k) <==> overrides[i].knob == k || Names(overrides, i + 1, to, k)
  {
  }

  // ------------------------------------------------------------ sizing pass

  const MAX_UINT32 := 0xFFFF_FFFF
  const MAX_UINT16 := 0xFFFF

  /** GetVarListSize: from the sizes of the Unicode name and of the value, or an overflow. */
  type SizeFunction = (nat, nat) -> Option<U32>

  function EntrySize(knob: Knob, sizeOf: SizeFunction): Option<U32> {
    if 2 * knob.nameSize > MAX_UINT32 then None else sizeOf(2 * knob.nameSize, knob.valueSize)
  }

  /** The exact size of the first n entries, without any bound; None when an entry has no size. */
  function TotalSize(knobs: seq<Knob>, sizeOf: SizeFunction, n: nat): Option<nat>
    requires n <= |knobs|
  {
    if n == 0 then Some(0)
    else
      match (TotalSize(knobs, sizeOf, n - 1), EntrySize(knobs[n - 1], sizeOf))
      case (Some(before), Some(size)) => Some(before + size)
      case _ => None
  }

  /** One more entry has a size when its doubled name size is a 32-bit number and the two sizes do not overflow. */
  lemma EntryAdds(knobs: seq<Knob>, sizeOf: SizeFunction, n: nat)
    requires n < |knobs|
    ensures var before, after, size := TotalSize(knobs, sizeOf, n), TotalSize(knobs, sizeOf, n + 1),
                                       sizeOf(2 * knobs[n].nameSize, knobs[n].valueSize);
            && (after.Some? <==> before.Some? && 2 * knobs[n].nameSize <= 0xFFFF_FFFF && size.Some?)
            && (after.Some? ==> after.value == before.value + size.value)
  {
  }

  lemma {:induction false} TotalGrows(knobs: seq<Knob>, sizeOf: SizeFunction, i: nat, n: nat)
    requires i <= n <= |knobs| && TotalSize(knobs, sizeOf, n).Some?
    ensures TotalSize(knobs, sizeOf, i).Some?
    ensures TotalSize(knobs, sizeOf, i).value <= TotalSize(knobs, sizeOf, n).value
  {
    if i == n {
    } else {
      TotalGrows(knobs, sizeOf, i, n - 1);
    }
  }

  /**
   The checked 32-bit pass succeeds exactly when the exact total exists and fits in 16
   bits, and then is that total.
   */
  method ComputeNeededSize(knobs: seq<Knob>, sizeOf: SizeFunction) returns (r: Option<U16>)
    ensures var total := TotalSize(knobs, sizeOf, |knobs|);
            r == if total.Some? && total.value <= MAX_UINT16 then Some(total.value) else None
  {
    var neededSize: U32 := 0;
    for i := 0 to |knobs|
      invariant TotalSize(knobs, sizeOf, i) == Some(neededSize)
    {
      if TotalSize(knobs, sizeOf, |knobs|).Some? {
        TotalGrows(knobs, sizeOf, i + 1, |knobs|);
      }
      if 2 * knobs[i].nameSize > MAX_UINT32 { return None; }
      var entry := sizeOf(2 * knobs[i].nameSize, knobs[i].valueSize);
      if entry.None? { return None; }
      if neededSize + entry.value > MAX_UINT32 { return None; }
      neededSize := neededSize + entry.value;
    }
    if neededSize > MAX_UINT16 { return None; }
    r := Some(neededSize);
  }

  // ------------------------------------------------------- serialising pass

  /** GetConfigKnobOverride: only a found value is written to the cache. */
  datatype StorageReply = Found(value: seq<Byte>) | NotStored | SizeMismatch | StorageError(status: Status)

  datatype Services = Services(
    sizeOf: SizeFunction,
    poolAvailable: bool,
    profileIndex: Option<U32>,
    storage: seq<StorageReply>,
    serialise: (nat, seq<Byte>) -> seq<Byte>,
    convertError: nat -> Option<Status>,
    setPolicyError: Option<Status>)

  datatype Config = Config(
    knobs: seq<Knob>,
    profiles: seq<seq<Override>>,
    genericIndex: U32,
    flavorNames: seq<string>,
    genericFlavor: string,
    flavorLength: nat)
  {
    /** The generated tables are well sized, every profile has a name, and the generic index is no profile. */
    ghost predicate Valid() {
      && genericIndex >= |profiles| == |flavorNames|
      && WellSized(knobs, [])
      && forall j :: 0 <= j < |profiles| ==> WellSized(knobs, profiles[j])
    }
  }

  /** One reply per knob; found values have the knob's size; conversion returns what the sizing pass computed. */
  ghost predicate Honest(c: Config, s: Services) {
    && |s.storage| == |c.knobs|
    && (forall k :: 0 <= k < |c.knobs| && s.storage[k].Found? ==> |s.storage[k].value| == c.knobs[k].valueSize)
    && (forall k :: 0 <= k < |c.knobs| && s.storage[k].StorageError? ==> s.storage[k].status != Success)
    && (forall k :: 0 <= k < |c.knobs| && s.convertError(k).Some? ==> s.convertError(k).value != Success)
    && (s.setPolicyError.Some? ==> s.setPolicyError.value != Success)
    && forall k, v {:trigger s.serialise(k, v)} ::
         0 <= k < |c.knobs| && |v| == c.knobs[k].valueSize && EntrySize(c.knobs[k], s.sizeOf).Some? ==>
         |s.serialise(k, v)| == EntrySize(c.knobs[k], s.sizeOf).value
  }

  /** The profile in force: the selected one if it exists and is in order, otherwise none. */
  ghost function ActiveProfile(c: Config, s: Services): (r: Option<nat>)
    ensures r.Some? ==> s.profileIndex == Some(r.value) && r.value < |c.profiles|
    ensures r.Some? <==> s.profileIndex.Some? && s.profileIndex.value < |c.profiles|
                         && forall i :: 0 <= i < |c.profiles[s.profileIndex.value]| ==>
                              var knob := c.profiles[s.profileIndex.value][i].knob;
                              knob < |c.knobs| && c.knobs[knob].id == knob
  {
    if && s.profileIndex.Some? && s.profileIndex.value < |c.profiles|
       && AllInOrder(c.knobs, c.profiles[s.profileIndex.value])
    then Some(s.profileIndex.value) else None
  }

  /** The name published with it. */
  ghost function ActiveFlavor(c: Config, s: Services): string
    requires c.Valid()
  {
    if ActiveProfile(c, s).Some? then c.flavorNames[ActiveProfile(c, s).value] else c.genericFlavor
  }

  ghost function ActiveOverrides(c: Config, s: Services): (r: seq<Override>)
    requires c.Valid()
    ensures WellSized(c.knobs, r)
  {
    if ActiveProfile(c, s).Some? then c.profiles[ActiveProfile(c, s).value] else []
  }

  /** Precedence: a stored value that passes its validator, else the default if one was found, else the profile. */
  ghost function Published(c: Config, s: Services, k: nat): (r: seq<Byte>)
    requires c.Valid() && Honest(c, s) && k < |c.knobs|
    ensures |r| == c.knobs[k].valueSize
  {
    match s.storage[k]
    case Found(v) =>
      if c.knobs[k].validator.Some? && !c.knobs[k].validator.value(v) then c.knobs[k].defaultValue else v
    case _ => ProfileValue(c.knobs, ActiveOverrides(c, s), k)
  }

  /** Override j is the last of the profile that names knob k. */
  ghost predicate NamesLast(overrides: seq<Override>, k: nat, j: nat) {
    j < |overrides| && overrides[j].knob == k && forall i :: j < i < |overrides| ==> overrides[i].knob != k
  }

  /** The value of knob k when the profile decides: its last override in the profile in force, or the default. */
  ghost predicate IsProfileValue(c: Config, s: Services, k: nat, value: seq<Byte>)
    requires c.Valid() && k < |c.knobs|
  {
    if ActiveProfile(c, s).Some? then
      var overrides := c.profiles[s.profileIndex.value];
      && (forall j: nat :: NamesLast(overrides, k, j) ==> value == overrides[j].value[..c.knobs[k].valueSize])
      && ((forall i :: 0 <= i < |overrides| ==> overrides[i].knob != k) ==> value == c.knobs[k].defaultValue)
    else value == c.knobs[k].defaultValue
  }

  /** Precedence, case by case on what the storage answers for the knob. */
  ghost predicate HasPrecedence(c: Config, s: Services, k: nat, value: seq<Byte>)
    requires c.Valid() && Honest(c, s) && k < |c.knobs|
  {
    var knob := c.knobs[k];
    match s.storage[k]
    case Found(v) =>
      && (knob.validator.None? || knob.validator.value(v) ==> value == v)
      && (knob.validator.Some? && !knob.validator.value(v) ==> value == knob.defaultValue)
    case _ => IsProfileValue(c, s, k, value)
  }

  lemma {:induction false} LastOverrideIsLast(knobs: seq<Knob>, overrides: seq<Override>, n: nat, k: nat)
    requires n <= |overrides| && k < |knobs| && WellSized(knobs, overrides)
    ensures var o := LastOverride(knobs, overrides, n, k);
            && (o == None <==> forall i :: 0 <= i < n ==> overrides[i].knob != k)
            && forall j: nat :: j < n && NamesLast(overrides[..n], k, j) ==>
                 o == Some(overrides[j].value[..knobs[k].valueSize])
  {
    if n == 0 {
    } else {
      LastOverrideIsLast(knobs, overrides, n - 1, k);
      forall j | 0 <= j < n - 1 && NamesLast(overrides[..n], k, j) ensures NamesLast(overrides[..n - 1], k, j) {
        assert forall i :: j < i < n - 1 ==> overrides[..n - 1][i] == overrides[..n][i];
      }
      assert overrides[..n][n - 1] == overrides[n - 1];
    }
  }

  /** The published value is the one that has precedence. */
  lemma PublishedHasPrecedence(c: Config, s: Services, k: nat)
    requires c.Valid() && Honest(c, s) && k < |c.knobs|
    ensures HasPrecedence(c, s, k, Published(c, s, k))
  {
    var o := ActiveOverrides(c, s);
    LastOverrideIsLast(c.knobs, o, |o|, k);
    assert o[..|o|] == o;
    hide LastOverride, NamesLast, WellSized, Honest;
  }

  /** The first n serialised entries, end to end. */
  ghost function Entries(c: Config, s: Services, n: nat): (r: seq<Byte>)
    requires c.Valid() && Honest(c, s) && n <= |c.knobs| && TotalSize(c.knobs, s.sizeOf, n).Some?
    ensures |r| == TotalSize(c.knobs, s.sizeOf, n).value
  {
    if n == 0 then [] else Entries(c, s, n - 1) + s.serialise(n - 1, Published(c, s, n - 1))
  }

  /**
   The entries tile the policy: entry k fills exactly the bytes between the sizes of
   its predecessors and of itself.
   */
  lemma {:induction false} EntryIsAt(c: Config, s: Services, k: nat, n: nat)
    requires c.Valid() && Honest(c, s) && k < n <= |c.knobs| && TotalSize(c.knobs, s.sizeOf, n).Some?
    ensures TotalSize(c.knobs, s.sizeOf, k).Some? && TotalSize(c.knobs, s.sizeOf, k + 1).Some?
    ensures var from, to := TotalSize(c.knobs, s.sizeOf, k).value, TotalSize(c.knobs, s.sizeOf, k + 1).value;
            from <= to <= |Entries(c, s, n)| && Entries(c, s, n)[from..to] == s.serialise(k, Published(c, s, k))
  {
    hide Published, EntrySize, WellSized;
    TotalGrows(c.knobs, s.sizeOf, k + 1, n);
    TotalGrows(c.knobs, s.sizeOf, k, k + 1);
    if k + 1 == n {
    } else {
      TotalGrows(c.knobs, s.sizeOf, n - 1, n);
      EntryIsAt(c, s, k, n - 1);
      InFront(Entries(c, s, n - 1), s.serialise(n - 1, Published(c, s, n - 1)),
              TotalSize(c.knobs, s.sizeOf, k).value, TotalSize(c.knobs, s.sizeOf, k + 1).value);
    }
  }

  lemma InFront(front: seq<Byte>, back: seq<Byte>, from: nat, to: nat)
    requires from <= to <= |front|
    ensures (front + back)[from..to] == front[from..to]
  {
  }

  /** The metadata holds the name and its terminator in a field of fixed length. */
  datatype Policy = Policy(bytes: seq<Byte>, activeProfileIndex: U32, activeFlavor: string)

  /** ConvertVariableEntryToVariableList: the entry is written at offset if it fits in the room given. */
  method Convert(s: Services, k: nat, value: seq<Byte>, buf: array<Byte>, offset: nat, room: nat)
    returns (status: Status, size: nat)
    requires offset + room <= buf.Length
    requires s.convertError(k).Some? ==> s.convertError(k).value != Success
    modifies buf
    ensures s.convertError(k).Some? ==> status == s.convertError(k).value
    ensures s.convertError(k).None? ==> (status == Success <==> |s.serialise(k, value)| <= room)
    ensures status == Success ==>
      size == |s.serialise(k, value)| && buf[..] == Splice(old(buf[..]), offset, s.serialise(k, value))
  {
    size := 0;
    if s.convertError(k).Some? {
      return s.convertError(k).value, 0;
    }
    var entry := s.serialise(k, value);
    if |entry| > room {
      return BufferTooSmall, |entry|;
    }
    CopyInto(buf, offset, entry);
    return Success, |entry|;
  }

  /** One knob: the stored value or its rejection ends up in the cache. */
  method ResolveKnob(c: Config, s: Services, k: nat, cache: array<seq<Byte>>) returns (status: Status)
    requires c.Valid() && Honest(c, s) && k < |c.knobs| == cache.Length
    requires cache[k] == ProfileValue(c.knobs, ActiveOverrides(c, s), k)
    modifies cache
    ensures status == if s.storage[k].StorageError? then s.storage[k].status else Success
    ensures status == Success ==> cache[k] == Published(c, s, k)
    ensures s.storage[k].Found? ==>
      var v, validator := s.storage[k].value, c.knobs[k].validator;
      && (validator.None? || validator.value(v) ==> cache[k] == v)
      && (validator.Some? && !validator.value(v) ==> cache[k] == c.knobs[k].defaultValue)
    ensures s.storage[k].NotStored? || s.storage[k].SizeMismatch? ==> cache[k] == old(cache[k])
    ensures forall j :: 0 <= j < cache.Length && j != k ==> cache[j] == old(cache[j])
  {
    status := Success;
    match s.storage[k]
    case StorageError(error) => return error;
    case NotStored =>
    case SizeMismatch =>
    case Found(value) =>
      cache[k] := value;
      if c.knobs[k].validator.Some? {
        if !c.knobs[k].validator.value(cache[k]) {
          cache[k] := c.knobs[k].defaultValue;
        }
      }
  }

  /** One knob is resolved, and its entry goes behind those written so far. */
  method PublishKnob(c: Config, s: Services, k: nat, cache: array<seq<Byte>>, buf: array<Byte>, offset: nat)
    returns (status: Status, size: nat)
    requires c.Valid() && Honest(c, s) && k < |c.knobs| == cache.Length
    requires cache[k] == ProfileValue(c.knobs, ActiveOverrides(c, s), k)
    requires offset + |s.serialise(k, Published(c, s, k))| <= buf.Length
    modifies cache, buf
    ensures status == if Resolves(s, k) then Success else FailureOf(s, k)
    ensures forall j :: 0 <= j < cache.Length && j != k ==> cache[j] == old(cache[j])
    ensures status == Success ==>
      && cache[k] == Published(c, s, k)
      && size == |s.serialise(k, Published(c, s, k))|
      && buf[..offset + size] == old(buf[..offset]) + s.serialise(k, Published(c, s, k))
  {
    hide Published, ProfileValue, ActiveOverrides;
    size := 0;
    status := ResolveKnob(c, s, k, cache);
    if status != Success { return; }
    status, size := Convert(s, k, cache[k], buf, offset, buf.Length - offset);
  }

  lemma NextEntry(c: Config, s: Services, i: nat, offset: nat, needed: nat)
    requires c.Valid() && Honest(c, s) && i < |c.knobs|
    requires TotalSize(c.knobs, s.sizeOf, |c.knobs|) == Some(needed)
    requires TotalSize(c.knobs, s.sizeOf, i) == Some(offset)
    ensures TotalSize(c.knobs, s.sizeOf, i + 1).Some?
    ensures offset + |s.serialise(i, Published(c, s, i))| == TotalSize(c.knobs, s.sizeOf, i + 1).value <= needed
    ensures Entries(c, s, i + 1) == Entries(c, s, i) + s.serialise(i, Published(c, s, i))
  {
    TotalGrows(c.knobs, s.sizeOf, i + 1, |c.knobs|);
  }

  /** The populate loop: the entries tile the buffer, and no entry lacks room. */
  method Populate(c: Config, s: Services, cache: array<seq<Byte>>, buf: array<Byte>) returns (status: Status)
    requires c.Valid() && Honest(c, s) && cache.Length == |c.knobs|
    requires TotalSize(c.knobs, s.sizeOf, |c.knobs|) == Some(buf.Length)
    requires forall k :: 0 <= k < |c.knobs| ==> cache[k] == ProfileValue(c.knobs, ActiveOverrides(c, s), k)
    modifies cache, buf
    ensures status == Success <==> AllResolve(c, s)
    ensures status != Success ==> exists k :: FailsFirst(s, k) && status == FailureOf(s, k)
    ensures status == Success ==>
      && (forall k :: 0 <= k < |c.knobs| ==> cache[k] == Published(c, s, k))
      && buf[..] == Entries(c, s, |c.knobs|)
  {
    hide EntrySize, ProfileValue, AllInOrder, Published, ActiveOverrides, WellSized;
    assert TotalSize(c.knobs, s.sizeOf, 0) == Some(0) && Entries(c, s, 0) == [];
    assert |s.storage| == |c.knobs|;
    hide TotalSize, Entries, Honest, Resolves;
    var offset := 0;
    var i := 0;
    while i < |c.knobs|
      invariant 0 <= i <= |c.knobs|
      invariant TotalSize(c.knobs, s.sizeOf, i) == Some(offset) && offset <= buf.Length
      invariant forall k :: 0 <= k < i ==> cache[k] == Published(c, s, k)
      invariant forall k :: i <= k < |c.knobs| ==> cache[k] == ProfileValue(c.knobs, ActiveOverrides(c, s), k)
      invariant forall k :: 0 <= k < i ==> Resolves(s, k)
      invariant buf[..offset] == Entries(c, s, i)
    {
      NextEntry(c, s, i, offset, buf.Length);
      var size;
      status, size := PublishKnob(c, s, i, cache, buf, offset);
      if status != Success {
        assert FailsFirst(s, i);
        return;
      }
      offset := offset + size;
      i := i + 1;
    }
    // The size mismatch exit would be taken here.
    assert offset == buf.Length;
    status := Success;
    assert buf[..offset] == buf[..];
  }

  /** No service fails for knob k. */
  predicate Resolves(s: Services, k: nat)
    requires k < |s.storage|
  {
    !s.storage[k].StorageError? && s.convertError(k).None?
  }

  /** What the failing knob k reports: the storage error, or else the conversion error. */
  function FailureOf(s: Services, k: nat): (r: Status)
    requires k < |s.storage| && !Resolves(s, k)
    ensures s.storage[k] == StorageError(r) || (!s.storage[k].StorageError? && s.convertError(k) == Some(r))
  {
    if s.storage[k].StorageError? then s.storage[k].status else s.convertError(k).value
  }

  /** Knob k is the first to fail. */
  ghost predicate FailsFirst(s: Services, k: nat) {
    k < |s.storage| && !Resolves(s, k) && forall j :: 0 <= j < k ==> Resolves(s, j)
  }

  /** No service failure stops the populate loop. */
  predicate AllResolve(c: Config, s: Services)
    requires |s.storage| == |c.knobs|
  {
    forall k :: 0 <= k < |c.knobs| ==> Resolves(s, k)
  }

  /**
   The whole creation. Success publishes every knob by precedence, in a policy of
   exactly the computed size, with metadata naming the profile whose overrides were
   used (or the generic profile); any failure publishes nothing.
   */
  method CreateConfPolicy(c: Config, s: Services, cache: array<seq<Byte>>)
    returns (status: Status, policy: Option<Policy>)
    requires c.Valid() && Honest(c, s) && AllDefault(c.knobs, cache[..])
    modifies cache
    ensures status == Success <==> policy.Some?
    ensures var total := TotalSize(c.knobs, s.sizeOf, |c.knobs|);
            if total.None? || total.value > MAX_UINT16 then status == Unsupported
            else if !s.poolAvailable then status == OutOfResources
            else if !AllResolve(c, s) then exists k :: FailsFirst(s, k) && status == FailureOf(s, k)
            else if |ActiveFlavor(c, s)| >= c.flavorLength then status == BufferTooSmall
            else status == if s.setPolicyError.Some? then s.setPolicyError.value else Success
    ensures policy.Some? ==>
      && TotalSize(c.knobs, s.sizeOf, |c.knobs|).Some?
      && policy.value.bytes == Entries(c, s, |c.knobs|)
      && (forall k :: 0 <= k < |c.knobs| ==> cache[k] == Published(c, s, k) && HasPrecedence(c, s, k, cache[k]))
      && policy.value.activeProfileIndex
         == (if ActiveProfile(c, s).Some? then ActiveProfile(c, s).value else c.genericIndex)
      && policy.value.activeFlavor == ActiveFlavor(c, s)
      && policy.value.activeFlavor
         == (if policy.value.activeProfileIndex < |c.profiles| then c.flavorNames[policy.value.activeProfileIndex]
             else c.genericFlavor)
  {
    policy := None;
    var needed := ComputeNeededSize(c.knobs, s.sizeOf);
    if needed.None? { return Unsupported, None; }
    if !s.poolAvailable { return OutOfResources, None; }
    var buf := new Byte[needed.value];
    var activeProfileIndex := SelectProfile(c, s, cache);
    hide TotalSize, AllInOrder, LastOverride, ActiveProfile, ActiveOverrides;
    status := Populate(c, s, cache, buf);
    if status != Success { return; }
    var profileName :=
      if activeProfileIndex == c.genericIndex then c.genericFlavor else c.flavorNames[activeProfileIndex];
    if |profileName| >= c.flavorLength { return BufferTooSmall, None; }
    if s.setPolicyError.Some? { return s.setPolicyError.value, None; }
    policy := Some(Policy(buf[..], activeProfileIndex, profileName));
    forall k | 0 <= k < |c.knobs| ensures HasPrecedence(c, s, k, cache[k]) {
      PublishedHasPrecedence(c, s, k);
    }
  }

  /** The active profile's overrides reach the cache, or none do and the generic profile is reported. */
  method SelectProfile(c: Config, s: Services, cache: array<seq<Byte>>) returns (activeProfileIndex: U32)
    requires c.Valid() && AllDefault(c.knobs, cache[..])
    modifies cache
    ensures forall k :: 0 <= k < |c.knobs| ==> cache[k] == ProfileValue(c.knobs, ActiveOverrides(c, s), k)
    ensures activeProfileIndex == if ActiveProfile(c, s).Some? then ActiveProfile(c, s).value else c.genericIndex
    ensures activeProfileIndex == c.genericIndex <==> ActiveProfile(c, s).None?
    ensures ActiveProfile(c, s).Some? ==> activeProfileIndex < |c.profiles|
  {
    activeProfileIndex := if s.profileIndex.Some? then s.profileIndex.value else c.genericIndex;
    if activeProfileIndex < |c.profiles| {
      var applied := ApplyProfileOverrides(c.knobs, c.profiles[activeProfileIndex], cache);
      if applied != Success {
        activeProfileIndex := c.genericIndex;
      }
    } else if activeProfileIndex != c.genericIndex {
      activeProfileIndex := c.genericIndex;
    }
  }
}
