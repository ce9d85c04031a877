/** Locking the boot variables when the boot order lock is on. */
module BootVariableLock {
  import opened Efi
  import opened VariableStore

  /** What the routine finds: the setting, the policy protocol, and which registrations succeed. */
  datatype LockScript = LockScript(setting: Option<bool>, protocolFound: bool, registers: string -> bool) {
    predicate Locks() {
      setting == Some(true) && protocolFound
    }
  }

  function Register(s: Store, name: string, k: LockScript): Store {
    if k.registers(name) then s.Lock(name) else s
  }

  function LockOptions(s: Store, order: seq<bv16>, k: LockScript, i: nat): Store
    requires i <= |order|
  {
    if i == 0 then s else Register(LockOptions(s, order, k, i - 1), BootName(order[i - 1]), k)
  }

  function LockBootVariables(s: Store, k: LockScript): Store {
    if !k.Locks() then s
    else
      var next := Register(Register(s, BOOT_ORDER, k).Delete(BOOT_NEXT), BOOT_NEXT, k);
      LockOptions(next, next.BootOrder(), k, |next.BootOrder()|)
  }

  /** The library state: the static flag that is read but never set. */
  class DeviceBootManager {
    const nv: Nvram
    var alreadyLocked: bool

    constructor (nv: Nvram)
      ensures this.nv == nv && !alreadyLocked
    {
      this.nv := nv;
      alreadyLocked := false;
    }

    method RegisterLock(name: string, k: LockScript)
      modifies nv
      ensures nv.store == Register(old(nv.store), name, k)
    {
      if k.registers(name) {
        nv.LockNow(name);
      }
    }

    method BdsBootLockBootVariables(k: LockScript)
      requires !alreadyLocked
      modifies nv
      ensures !alreadyLocked && nv.store == LockBootVariables(old(nv.store), k)
    {
      if alreadyLocked || k.setting.None? || !k.setting.value || !k.protocolFound {
        return;
      }
      RegisterLock(BOOT_ORDER, k);
      nv.DeleteVariable(BOOT_NEXT);
      RegisterLock(BOOT_NEXT, k);
      var bootOrder := nv.store.BootOrder();
      ghost var s := nv.store;
      for i := 0 to |bootOrder|
        invariant nv.store == LockOptions(s, bootOrder, k, i)
      {
        RegisterLock(BootName(bootOrder[i]), k);
      }
    }
  }

  // ------------------------------------------------- locked means unchanged

  lemma KeptTransitive(a: Store, b: Store, c: Store)
    requires LockedKept(a, b) && LockedKept(b, c)
    ensures LockedKept(a, c)
  {
  }

  lemma KeptByWrite(s: Store, name: string, value: Value)
    ensures LockedKept(s, s.Write(name, value)) && LockedKept(s, s.Delete(name)) && LockedKept(s, s.Lock(name))
  {
  }

  lemma {:induction false} LockOptionsFacts(s: Store, order: seq<bv16>, k: LockScript, i: nat)
    requires i <= |order|
    ensures var s' := LockOptions(s, order, k, i);
            && s'.vars == s.vars && s.locked <= s'.locked && LockedKept(s, s')
            && forall j :: 0 <= j < i && k.registers(BootName(order[j])) ==> BootName(order[j]) in s'.locked
  {
    hide BootName;
    if i == 0 {
    } else {
      LockOptionsFacts(s, order, k, i - 1);
    }
  }

  lemma LockKeepsLocked(s: Store, k: LockScript)
    ensures LockedKept(s, LockBootVariables(s, k))
  {
    if k.Locks() {
      var a := Register(s, BOOT_ORDER, k);
      var b := a.Delete(BOOT_NEXT);
      var c := Register(b, BOOT_NEXT, k);
      KeptByWrite(a, BOOT_NEXT, Flag(true));
      KeptTransitive(s, a, b);
      KeptTransitive(s, b, c);
      LockOptionsFacts(c, c.BootOrder(), k, |c.BootOrder()|);
      KeptTransitive(s, c, LockBootVariables(s, k));
    }
  }

  /** Every registration the routine makes succeeds. */
  ghost predicate AllRegister(s: Store, k: LockScript) {
    && k.registers(BOOT_ORDER) && k.registers(BOOT_NEXT)
    && forall n :: n in s.BootOrder() ==> k.registers(BootName(n))
  }

  /** BootOrder, BootNext and every Boot#### in BootOrder are locked. */
  ghost predicate FullyLocked(s: Store) {
    && BOOT_ORDER in s.locked && BOOT_NEXT in s.locked
    && forall n :: n in s.BootOrder() ==> BootName(n) in s.locked
  }

  lemma LockChangesOnlyBootNext(s: Store, k: LockScript)
    ensures var s' := LockBootVariables(s, k);
            && (s'.vars == s.vars || (BOOT_NEXT !in s.locked && s'.vars == s.vars - {BOOT_NEXT}))
            && s'.BootOrder() == s.BootOrder()
            && forall n :: s'.HasOption(n) <==> s.HasOption(n)
  {
    if k.Locks() {
      var a := Register(s, BOOT_ORDER, k);
      var c := Register(a.Delete(BOOT_NEXT), BOOT_NEXT, k);
      LockOptionsFacts(c, c.BootOrder(), k, |c.BootOrder()|);
      forall n ensures LockBootVariables(s, k).HasOption(n) <==> s.HasOption(n) { BootNameIsNoOther(n); }
    }
  }

  lemma {:induction false} LockOptionsExactly(s: Store, order: seq<bv16>, k: LockScript, i: nat)
    requires i <= |order|
    ensures forall name ::
              name in LockOptions(s, order, k, i).locked
              <==> name in s.locked || (k.registers(name) && exists j :: 0 <= j < i && BootName(order[j]) == name)
  {
    hide BootName;
    if i == 0 {
    } else {
      LockOptionsExactly(s, order, k, i - 1);
    }
  }

  /** With the setting on and the protocol found, the names whose registration is tried. */
  ghost predicate IsTried(s: Store, k: LockScript, name: string) {
    && k.setting == Some(true) && k.protocolFound
    && (name == BOOT_ORDER || name == BOOT_NEXT
        || exists j :: 0 <= j < |s.BootOrder()| && BootName(s.BootOrder()[j]) == name)
  }

  /**
   The whole effect for every setting, store and script: exactly the tried names that
   register become locked, and BootNext goes unless it was locked before.
   */
  lemma LocksExactly(s: Store, k: LockScript)
    ensures var s' := LockBootVariables(s, k);
            && (forall name :: name in s'.locked <==> name in s.locked || (IsTried(s, k, name) && k.registers(name)))
            && s'.vars == if k.setting == Some(true) && k.protocolFound && BOOT_NEXT !in s.locked
                          then s.vars - {BOOT_NEXT} else s.vars
  {
    if k.Locks() {
      var a := Register(s, BOOT_ORDER, k);
      var c := Register(a.Delete(BOOT_NEXT), BOOT_NEXT, k);
      assert BOOT_NEXT in a.locked <==> BOOT_NEXT in s.locked by { assert |BOOT_NEXT| != |BOOT_ORDER|; }
      assert c.BootOrder() == s.BootOrder() by { assert |BOOT_NEXT| != |BOOT_ORDER|; }
      LockOptionsFacts(c, c.BootOrder(), k, |c.BootOrder()|);
      LockOptionsExactly(c, c.BootOrder(), k, |c.BootOrder()|);
      hide LockOptions, BootName;
    }
  }

  /** With the setting on and all registrations succeeding, all is locked, and BootNext is gone unless locked before. */
  lemma LockLocksEverything(s: Store, k: LockScript)
    requires k.Locks() && AllRegister(s, k)
    ensures var s' := LockBootVariables(s, k);
            && FullyLocked(s')
            && (BOOT_NEXT !in s'.vars <==> BOOT_NEXT !in s.vars || BOOT_NEXT !in s.locked)
  {
    LockChangesOnlyBootNext(s, k);
    var a := Register(s, BOOT_ORDER, k);
    var c := Register(a.Delete(BOOT_NEXT), BOOT_NEXT, k);
    var order := c.BootOrder();
    assert order == s.BootOrder();
    LockOptionsFacts(c, order, k, |order|);
    var s' := LockBootVariables(s, k);
    hide BootName, LockOptions;
    forall n | n in s'.BootOrder() ensures BootName(n) in s'.locked {
      var j :| 0 <= j < |order| && order[j] == n;
      assert k.registers(BootName(order[j]));
    }
  }

  lemma {:induction false} LockOptionsAgain(s: Store, order: seq<bv16>, k: LockScript, i: nat)
    requires i <= |order| && forall j :: 0 <= j < |order| ==> BootName(order[j]) in s.locked
    ensures LockOptions(s, order, k, i) == s
  {
    if i == 0 {
    } else {
      LockOptionsAgain(s, order, k, i - 1);
      assert s.locked + {BootName(order[i - 1])} == s.locked;
    }
  }

  /** The routine runs again at every ready-to-boot event; on a fully locked store that changes nothing. */
  lemma LockingAgainChangesNothing(s: Store, k: LockScript)
    requires FullyLocked(s)
    ensures LockBootVariables(s, k) == s
  {
    if k.Locks() {
      assert s.locked + {BOOT_ORDER} == s.locked && s.locked + {BOOT_NEXT} == s.locked;
      LockOptionsAgain(s, s.BootOrder(), k, |s.BootOrder()|);
    }
  }

  /** Whatever is locked and whichever registrations fail, a second run of the same routine changes nothing. */
  lemma LockingTwiceIsLockingOnce(s: Store, k: LockScript)
    ensures LockBootVariables(LockBootVariables(s, k), k) == LockBootVariables(s, k)
  {
    if k.Locks() {
      LockChangesOnlyBootNext(s, k);
      var c := Register(Register(s, BOOT_ORDER, k).Delete(BOOT_NEXT), BOOT_NEXT, k);
      var order := c.BootOrder();
      var d := LockBootVariables(s, k);
      LockOptionsFacts(c, order, k, |order|);
      hide LockOptions, BootName;
      assert Register(d, BOOT_ORDER, k) == d by { RegisterAgain(d, BOOT_ORDER, k); }
      assert d.Delete(BOOT_NEXT) == d by { assert d.vars - {BOOT_NEXT} == d.vars || BOOT_NEXT in d.locked; }
      assert Register(d, BOOT_NEXT, k) == d by { RegisterAgain(d, BOOT_NEXT, k); }
      SameRegistrationsAgain(d, order, k, |order|);
    }
  }

  lemma RegisterAgain(s: Store, name: string, k: LockScript)
    requires k.registers(name) ==> name in s.locked
    ensures Register(s, name, k) == s
  {
    if k.registers(name) { assert s.locked + {name} == s.locked; }
  }

  lemma {:induction false} SameRegistrationsAgain(s: Store, order: seq<bv16>, k: LockScript, i: nat)
    requires i <= |order|
    requires forall j :: 0 <= j < |order| && k.registers(BootName(order[j])) ==> BootName(order[j]) in s.locked
    ensures LockOptions(s, order, k, i) == s
  {
    hide BootName;
    if i == 0 {
    } else {
      SameRegistrationsAgain(s, order, k, i - 1);
      RegisterAgain(s, BootName(order[i - 1]), k);
    }
  }
}
