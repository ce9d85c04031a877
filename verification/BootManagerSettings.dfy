/** The versioned boot manager settings record: repair, migration, and the get and set interface. */
module BootManagerSettings {
  import opened Bytes
  import opened Efi

  datatype Id = IPv6 | AltBoot | BootOrderLock | EnableUsbBoot | StartNetwork | UnknownId

  /** MS_BOOT_MANAGER_SETTINGS; the value bytes are BOOLEANs. */
  datatype Record = Record(
    signature: U32, version: U32,
    ipv6: Byte, altBoot: Byte, bootOrderLock: Byte, enableUsbBoot: Byte, startNetwork: Byte)
  {
    function Field(id: Id): Byte
      requires id != UnknownId
    {
      match id
      case IPv6 => ipv6
      case AltBoot => altBoot
      case BootOrderLock => bootOrderLock
      case EnableUsbBoot => enableUsbBoot
      case StartNetwork => startNetwork
    }

    function WithField(id: Id, value: Byte): Record
      requires id != UnknownId
    {
      match id
      case IPv6 => this.(ipv6 := value)
      case AltBoot => this.(altBoot := value)
      case BootOrderLock => this.(bootOrderLock := value)
      case EnableUsbBoot => this.(enableUsbBoot := value)
      case StartNetwork => this.(startNetwork := value)
    }
  }

  /** The variable: absent, not readable into the record, shorter than the record, or a record. */
  datatype Stored = Absent | Unreadable(error: Status) | Short(attributes: U32) | Full(attributes: U32, rec: Record)

  /** Attributes, signatures and versions of the build, and its fixed-at-build defaults. */
  datatype Build = Build(
    attributes: U32, runtimeAttributes: U32, signature: U32, oldSignature: U32,
    v1: U32, v2: U32, v3: U32, defaults: Record)
  {
    predicate Valid() {
      attributes != runtimeAttributes && signature != oldSignature && v1 < v2 < v3
    }

    /** The record of the creation path: the version is never assigned and stays zero. */
    function Fresh(): Record {
      defaults.(signature := signature, version := 0)
    }
  }

  predicate Possible(s: Stored) {
    s.Unreadable? ==> s.error != Success && s.error != NotFound
  }

  // ------------------------------------------------------------ specification

  predicate NeedsConversion(s: Stored, b: Build) {
    s.Full? && s.rec.signature == b.oldSignature && s.attributes == b.runtimeAttributes
  }

  predicate WellFormed(s: Stored, b: Build) {
    s.Full? && s.attributes == b.attributes && s.rec.signature == b.signature
  }

  predicate NeedsMigration(s: Stored, b: Build) {
    WellFormed(s, b) && b.v1 <= s.rec.version < b.v3
  }

  predicate NeedsRepair(s: Stored, b: Build) {
    !NeedsConversion(s, b) && !WellFormed(s, b)
  }

  function Converted(r: Record, b: Build): Record {
    r.(signature := b.signature, bootOrderLock := 0, version := b.v3,
       enableUsbBoot := b.defaults.enableUsbBoot, startNetwork := b.defaults.startNetwork)
  }

  function Migrated(r: Record, b: Build): Record {
    r.(version := b.v3,
       enableUsbBoot := if r.version == b.v1 then b.defaults.enableUsbBoot else r.enableUsbBoot,
       startNetwork := if r.version <= b.v2 then b.defaults.startNetwork else r.startNetwork)
  }

  /** The store after the delete and the write of one start, each of which may fail. */
  function Initialised(s: Stored, b: Build, deleteOk: bool, writeOk: bool): Stored {
    var deleted := if deleteOk then Absent else s;
    if NeedsConversion(s, b) then if writeOk then Full(b.attributes, Converted(s.rec, b)) else deleted
    else if NeedsRepair(s, b) then if writeOk then Full(b.attributes, b.Fresh()) else deleted
    else if NeedsMigration(s, b) && writeOk then Full(b.attributes, Migrated(s.rec, b))
    else s
  }

  /** The state is one of four kinds, told apart by size, attributes, signature and version. */
  lemma KindsOfState(s: Stored, b: Build)
    requires b.Valid()
    ensures NeedsConversion(s, b)
      <==> s.Full? && s.attributes == b.runtimeAttributes && s.rec.signature == b.oldSignature
    ensures NeedsRepair(s, b)
      <==> !NeedsConversion(s, b) && (!s.Full? || s.attributes != b.attributes || s.rec.signature != b.signature)
    ensures NeedsMigration(s, b)
      <==> !NeedsConversion(s, b) && !NeedsRepair(s, b) && (s.rec.version == b.v1 || b.v1 < s.rec.version < b.v3)
  {
  }

  /**
   A conversion whose write succeeds keeps IPv6 and AltBoot, turns the lock off, and
   takes the rest from the build.
   */
  lemma ConversionResult(s: Stored, b: Build, deleteOk: bool)
    requires b.Valid() && NeedsConversion(s, b)
    ensures Initialised(s, b, deleteOk, true)
      == Full(b.attributes, Record(b.signature, b.v3, s.rec.ipv6, s.rec.altBoot, 0,
                                   b.defaults.enableUsbBoot, b.defaults.startNetwork))
    ensures Initialised(s, b, deleteOk, false) == if deleteOk then Absent else s
  {
  }

  /** A repair writes the build's defaults under version 0, or leaves nothing behind a successful delete. */
  lemma RepairResult(s: Stored, b: Build, deleteOk: bool)
    requires NeedsRepair(s, b)
    ensures Initialised(s, b, deleteOk, true)
      == Full(b.attributes, Record(b.signature, 0, b.defaults.ipv6, b.defaults.altBoot, b.defaults.bootOrderLock,
                                   b.defaults.enableUsbBoot, b.defaults.startNetwork))
    ensures Initialised(s, b, deleteOk, false) == if deleteOk then Absent else s
  {
  }

  /**
   A migration resets USB boot from version 1 and network start from versions up to
   2, and raises the version; a failed write changes nothing, and neither does a start
   in any other state.
   */
  lemma MigrationResult(s: Stored, b: Build, deleteOk: bool)
    requires b.Valid() && WellFormed(s, b)
    ensures var s' := Initialised(s, b, deleteOk, true);
            && s'.Full? && s'.attributes == b.attributes && s'.rec.signature == b.signature
            && s'.rec.ipv6 == s.rec.ipv6 && s'.rec.altBoot == s.rec.altBoot
            && s'.rec.bootOrderLock == s.rec.bootOrderLock
            && s'.rec.version == (if b.v1 <= s.rec.version < b.v3 then b.v3 else s.rec.version)
            && s'.rec.enableUsbBoot
               == (if s.rec.version == b.v1 then b.defaults.enableUsbBoot else s.rec.enableUsbBoot)
            && s'.rec.startNetwork
               == (if b.v1 <= s.rec.version <= b.v2 then b.defaults.startNetwork else s.rec.startNetwork)
    ensures Initialised(s, b, deleteOk, false) == s
  {
  }

  function SetTo(s: Stored, b: Build, id: Id, value: Byte): Stored {
    if id == UnknownId || !s.Full? || s.rec.Field(id) == value then s
    else Full(b.attributes, s.rec.WithField(id, value))
  }

  // -------------------------------------------------------------- the library

  class SettingsLibrary {
    const b: Build
    var stored: Stored

    constructor (b: Build, stored: Stored)
      ensures this.b == b && this.stored == stored
    {
      this.b := b;
      this.stored := stored;
    }

    method Write(rec: Record, ok: bool)
      modifies this
      ensures stored == if ok then Full(b.attributes, rec) else old(stored)
    {
      if ok { stored := Full(b.attributes, rec); }
    }

    method Delete(ok: bool)
      modifies this
      ensures stored == if ok then Absent else old(stored)
    {
      if ok { stored := Absent; }
    }

    /** Upgrade failures are reported as success; only a failed creation is an error. */
    method InitializeNvVariable(deleteOk: bool, writeOk: bool) returns (status: Status)
      requires Possible(stored)
      modifies this
      ensures stored == Initialised(old(stored), b, deleteOk && old(stored) != Absent, writeOk)
      ensures status == Success <==> writeOk || !NeedsRepair(old(stored), b)
    {
      status := Success;
      match stored {
      case Absent => status := NotFound;
      case Unreadable(error) => status := error;
      case Short(_) => status := CompromisedData;
      case Full(attributes, rec) =>
        if rec.signature == b.oldSignature && attributes == b.runtimeAttributes {
          var settings := rec.(signature := b.signature, bootOrderLock := 0);
          settings := settings.(enableUsbBoot := b.defaults.enableUsbBoot, startNetwork := b.defaults.startNetwork);
          settings := settings.(version := b.v3);
          Delete(deleteOk);
          Write(settings, writeOk);
        } else if attributes != b.attributes {
          status := CompromisedData;
        } else if rec.signature != b.signature {
          status := CompromisedData;
        } else if rec.version >= b.v1 && rec.version < b.v3 {
          var settings := rec;
          if settings.version == b.v1 {
            settings := settings.(enableUsbBoot := b.defaults.enableUsbBoot);
          }
          if settings.version <= b.v2 {
            settings := settings.(startNetwork := b.defaults.startNetwork);
          }
          settings := settings.(version := b.v3);
          Write(settings, writeOk);
        }
      }
      if status != Success {
        if status != NotFound {
          Delete(deleteOk);
        }
        Write(b.Fresh(), writeOk);
        status := if writeOk then Success else Other(0);
      }
    }

    /**
     The stored value, or the default when the variable cannot be read; junk is what a
     short variable leaves unread.
     */
    method GetBootManagerSetting(id: Id, junk: Record) returns (status: Status, value: Byte)
      ensures status == if id == UnknownId then Unsupported else Success
      ensures id != UnknownId ==>
        value == (if stored.Full? then stored.rec else if stored.Short? then junk else b.defaults).Field(id)
    {
      if id == UnknownId {
        return Unsupported, 0;
      }
      match stored {
      case Full(_, rec) => value := rec.Field(id);
      case Short(_) => value := junk.Field(id);
      case _ => value := b.defaults.Field(id);
      }
      status := Success;
    }

    /**
     A known setting is changed in a readable record; junk is what a short variable
     leaves unread. Without a flags pointer nothing happens; the already-set flag is
     raised exactly when the value is there already, and otherwise the flags stay untouched.
     */
    method SetBootManagerSetting(id: Id, value: Byte, flagsGiven: bool, junk: Record, writeOk: bool)
      returns (status: Status, alreadySet: bool)
      requires Possible(stored)
      modifies this
      ensures !flagsGiven ==> status == InvalidParameter
      ensures flagsGiven && id == UnknownId ==> status == Unsupported
      ensures !flagsGiven || id == UnknownId || old(stored).Absent? || old(stored).Unreadable? ==>
        status != Success && stored == old(stored) && !alreadySet
      ensures flagsGiven && id != UnknownId && (old(stored).Full? || old(stored).Short?) ==>
        var read := if old(stored).Full? then old(stored).rec else junk;
        && (alreadySet <==> read.Field(id) == value)
        && (status == Success <==> writeOk || alreadySet)
        && stored == (if writeOk && !alreadySet then Full(b.attributes, read.WithField(id, value)) else old(stored))
      ensures flagsGiven && writeOk && !old(stored).Short? ==> stored == SetTo(old(stored), b, id, value)
    {
      alreadySet := false;
      if !flagsGiven { return InvalidParameter, false; }
      if id == UnknownId { return Unsupported, false; }
      var settings;
      match stored {
        case Absent => return NotFound, false;
        case Unreadable(error) => return error, false;
        case Short(_) => settings := junk;
        case Full(_, rec) => settings := rec;
      }
      var changed := settings.Field(id) != value;
      settings := settings.WithField(id, value);
      status := Success;
      if changed {
        Write(settings, writeOk);
        if !writeOk { status := Other(0); }
      } else {
        alreadySet := true;
      }
    }
  }

  // ---------------------------------------------------------------- migration

  function Start(s: Stored, b: Build): Stored {
    Initialised(s, b, true, true)
  }

  /** With successful writes every start state becomes a record with the right attributes and signature. */
  lemma EveryStartIsWellFormed(s: Stored, b: Build)
    ensures WellFormed(Start(s, b), b)
  {
  }

  /**
   An upgrade or a plain start keeps the record with its IPv6 and AltBoot, whatever
   becomes of its writes, except in one case: a conversion whose delete succeeds and
   whose write fails loses the record.
   */
  lemma UpgradesKeepIPv6AndAltBoot(s: Stored, b: Build, deleteOk: bool, writeOk: bool)
    requires !NeedsRepair(s, b)
    ensures var s' := Initialised(s, b, deleteOk, writeOk);
            s'.Full? && s'.rec.ipv6 == s.rec.ipv6 && s'.rec.altBoot == s.rec.altBoot
            <==> !(NeedsConversion(s, b) && deleteOk && !writeOk)
  {
  }

  /**
   Two starts reach the fixed point from any state; one does, exactly unless it created
   a record the next one migrates.
   */
  lemma StartsReachFixedPoint(s: Stored, b: Build)
    requires b.Valid()
    ensures Start(Start(Start(s, b), b), b) == Start(Start(s, b), b)
    ensures Start(Start(s, b), b) == Start(s, b) <==> !(NeedsRepair(s, b) && b.v1 == 0)
  {
    var once := Start(s, b);
    if NeedsMigration(once, b) {
      assert Start(once, b).rec.version == b.v3;
    }
  }

  /** The next start keeps the settings of a well-formed record exactly when migration has nothing to overwrite. */
  lemma StartKeepsSettings(s: Stored, b: Build)
    requires b.Valid() && WellFormed(s, b)
    ensures (forall id :: id != UnknownId ==> Start(s, b).rec.Field(id) == s.rec.Field(id))
      <==> && (s.rec.version == b.v1 ==> s.rec.enableUsbBoot == b.defaults.enableUsbBoot)
           && (b.v1 <= s.rec.version <= b.v2 ==> s.rec.startNetwork == b.defaults.startNetwork)
  {
    var r, r' := s.rec, Start(s, b).rec;
    assert r'.enableUsbBoot == r'.Field(EnableUsbBoot) && r.enableUsbBoot == r.Field(EnableUsbBoot);
    assert r'.startNetwork == r'.Field(StartNetwork) && r.startNetwork == r.Field(StartNetwork);
  }

  /**
   A setting made on a freshly created record survives the next start exactly when
   version 1 is not number 0, or the setting is not one that migration overwrites,
   or the value is the default anyway.
   */
  lemma FreshSettingSurvives(b: Build, id: Id, value: Byte)
    requires b.Valid() && id != UnknownId
    ensures var changed := SetTo(Start(Absent, b), b, id, value);
            Start(changed, b).rec.Field(id) == value
            <==> b.v1 != 0 || (id != EnableUsbBoot && id != StartNetwork) || value == b.defaults.Field(id)
  {
    FieldLaws(b.Fresh(), id, value);
  }

  /** Which byte of the record each id stands for. */
  lemma FieldsOfIds(r: Record, value: Byte)
    ensures r.Field(IPv6) == r.ipv6 && r.Field(AltBoot) == r.altBoot && r.Field(BootOrderLock) == r.bootOrderLock
    ensures r.Field(EnableUsbBoot) == r.enableUsbBoot && r.Field(StartNetwork) == r.startNetwork
    ensures r.WithField(IPv6, value) == r.(ipv6 := value) && r.WithField(AltBoot, value) == r.(altBoot := value)
    ensures r.WithField(BootOrderLock, value) == r.(bootOrderLock := value)
    ensures r.WithField(EnableUsbBoot, value) == r.(enableUsbBoot := value)
    ensures r.WithField(StartNetwork, value) == r.(startNetwork := value)
  {
  }

  lemma FieldLaws(r: Record, id: Id, value: Byte)
    requires id != UnknownId
    ensures r.WithField(id, value).Field(id) == value
    ensures forall other :: other != UnknownId && other != id ==> r.WithField(id, value).Field(other) == r.Field(other)
    ensures r.WithField(id, value).version == r.version && r.WithField(id, value).signature == r.signature
  {
  }

  // ------------------------------------------------------ settings as a map

  datatype Step = Set(id: Id, value: Byte) | SetDefault(defaultId: Id) | Restart

  function Do(s: Stored, b: Build, step: Step): Stored {
    match step
    case Set(id, value) => SetTo(s, b, id, value)
    case SetDefault(id) => if id == UnknownId then s else SetTo(s, b, id, b.defaults.Field(id))
    case Restart => Start(s, b)
  }

  function Run(s: Stored, b: Build, steps: seq<Step>): Stored {
    if steps == [] then s else Do(Run(s, b, steps[..|steps| - 1]), b, steps[|steps| - 1])
  }

  /** The value last set for id, or the one at the beginning. */
  function LastSet(start: Record, b: Build, steps: seq<Step>, id: Id): Byte
    requires id != UnknownId
  {
    if steps == [] then start.Field(id)
    else
      var before := LastSet(start, b, steps[..|steps| - 1], id);
      match steps[|steps| - 1]
      case Set(i, value) => if i == id then value else before
      case SetDefault(i) => if i == id then b.defaults.Field(id) else before
      case Restart => before
  }

  /** The value that a step sets for id, if it is a step that does. */
  function ValueSet(b: Build, step: Step, id: Id): Option<Byte>
    requires id != UnknownId
  {
    match step
    case Set(i, value) => if i == id then Some(value) else None
    case SetDefault(i) => if i == id then Some(b.defaults.Field(id)) else None
    case Restart => None
  }

  /** It is the value of a step that sets id with no such step behind it, or the value at the beginning. */
  lemma {:induction false} LastSetIsLast(start: Record, b: Build, steps: seq<Step>, id: Id)
    requires id != UnknownId
    ensures forall j :: 0 <= j < |steps| && ValueSet(b, steps[j], id).Some?
                        && (forall k :: j < k < |steps| ==> ValueSet(b, steps[k], id) == None)
              ==> LastSet(start, b, steps, id) == ValueSet(b, steps[j], id).value
    ensures (forall j :: 0 <= j < |steps| ==> ValueSet(b, steps[j], id) == None)
      ==> LastSet(start, b, steps, id) == start.Field(id)
  {
    if steps == [] {
    } else {
      var before := steps[..|steps| - 1];
      LastSetIsLast(start, b, before, id);
      assert forall j :: 0 <= j < |before| ==> before[j] == steps[j];
    }
  }

  /** Resetting a setting is setting the build's default. */
  lemma ResetIsSet(s: Stored, b: Build, id: Id)
    requires id != UnknownId
    ensures Do(s, b, SetDefault(id)) == Do(s, b, Set(id, b.defaults.Field(id)))
  {
  }

  /** A well-formed record that no start changes, such as one of version 3. */
  predicate Settled(s: Stored, b: Build) {
    WellFormed(s, b) && !(b.v1 <= s.rec.version < b.v3)
  }

  lemma SetIsSettled(s: Stored, b: Build, id: Id, value: Byte)
    requires Settled(s, b)
    ensures Settled(SetTo(s, b, id, value), b)
    ensures id != UnknownId ==> SetTo(s, b, id, value).rec.Field(id) == value
    ensures forall other :: other != UnknownId && other != id ==>
      SetTo(s, b, id, value).rec.Field(other) == s.rec.Field(other)
  {
    if id != UnknownId { FieldLaws(s.rec, id, value); }
  }

  /**
   From a settled record, after any sequence of sets, resets to default and restarts,
   each Get gives the value last set.
   */
  lemma {:induction false} GetsWhatWasLastSet(s: Stored, b: Build, steps: seq<Step>)
    requires b.Valid() && Settled(s, b)
    ensures Settled(Run(s, b, steps), b)
    ensures forall id :: id != UnknownId ==> Run(s, b, steps).rec.Field(id) == LastSet(s.rec, b, steps, id)
  {
    if steps == [] {
    } else {
      var before, step := steps[..|steps| - 1], steps[|steps| - 1];
      GetsWhatWasLastSet(s, b, before);
      var s' := Run(s, b, before);
      var s'' := Do(s', b, step);
      match step {
        case Set(id, value) => SetIsSettled(s', b, id, value);
        case SetDefault(id) =>
          if id != UnknownId { SetIsSettled(s', b, id, b.defaults.Field(id)); }
        case Restart => assert s'' == s';
      }
      hide SetTo, Initialised;
      forall id | id != UnknownId ensures s''.rec.Field(id) == LastSet(s.rec, b, steps, id) {
        assert s'.rec.Field(id) == LastSet(s.rec, b, before, id);
      }
    }
  }
}
