/** The power and thermal retry loop before booting, against an arbitrary sensor script. */
module PreBootChecks {

  /** What the sensors and the power mitigation answer in one round. */
  datatype Round = Round(
    powerError: bool, powerGood: bool, mitigationFails: bool, thermalError: bool, thermalGood: bool)
  {
    /** A sensor that cannot be read counts as good. A successful mitigation does not make the power good. */
    predicate PowerOk() {
      powerError || powerGood
    }

    predicate ThermalOk() {
      thermalError || thermalGood
    }

    predicate GivesUp() {
      !PowerOk() && mitigationFails
    }

    predicate AllGood() {
      PowerOk() && ThermalOk()
    }
  }

  datatype Outcome = Returned | ThermalShutdown | PowerShutdown

  function Max0(x: int): nat {
    if x > 0 then x else 0
  }

  /** The cooling waits of the first n rounds: one per hot round while retries remain. */
  function Waits(script: nat -> Round, retries: int, n: nat): (w: nat)
    ensures w <= n && w <= Max0(retries)
  {
    if n == 0 then 0
    else
      var r := script(n - 1);
      Waits(script, retries, n - 1) + if !r.GivesUp() && !r.ThermalOk() && n - 1 < retries then 1 else 0
  }

  /** Round r finds the system hot, does not give up on power, and has retries left. */
  predicate Cools(script: nat -> Round, retries: int, r: nat) {
    && r < retries && !script(r).thermalError && !script(r).thermalGood
    && (script(r).powerError || script(r).powerGood || !script(r).mitigationFails)
  }

  /** There is one wait for each such round. */
  lemma {:induction false} WaitsAreCoolings(script: nat -> Round, retries: int, n: nat)
    ensures Waits(script, retries, n) == |set r: nat | r < n && Cools(script, retries, r)|
  {
    if n == 0 {
      assert (set r: nat | r < 0 && Cools(script, retries, r)) == {};
    } else {
      WaitsAreCoolings(script, retries, n - 1);
      assert Waits(script, retries, n)
        == Waits(script, retries, n - 1) + if Cools(script, retries, n - 1) then 1 else 0;
      hide Cools, Waits;
      var before := set r: nat | r < n - 1 && Cools(script, retries, r);
      assert (set r: nat | r < n && Cools(script, retries, r))
        == before + if Cools(script, retries, n - 1) then {n - 1} else {};
    }
  }

  /** The loop may stop after round r. */
  predicate MayStop(script: nat -> Round, retries: int, r: nat) {
    script(r).GivesUp() || script(r).AllGood() || r >= retries
  }

  /**
   The thermal flag when the loop ends in round last: a round that gives up on power
   keeps the flag of the round before.
   */
  predicate FinalThermal(script: nat -> Round, last: nat) {
    if script(last).GivesUp() then last == 0 || script(last - 1).ThermalOk() else script(last).ThermalOk()
  }

  /**
   The loop ends in the first round in which it may stop. It returns to boot only
   when the timer could not be created or that round found power and temperature
   good; a bad thermal flag is reported before a bad power flag.
   */
  method MsPreBootChecks(timerCreated: bool, retries: int, script: nat -> Round)
    returns (outcome: Outcome, rounds: nat, waits: nat)
    ensures !timerCreated ==> outcome == Returned && rounds == 0 && waits == 0
    ensures timerCreated ==>
      && 1 <= rounds <= Max0(retries) + 1
      && MayStop(script, retries, rounds - 1)
      && (forall r :: 0 <= r < rounds - 1 ==> !MayStop(script, retries, r))
      && waits == Waits(script, retries, rounds) <= Max0(retries)
      && outcome == (if !FinalThermal(script, rounds - 1) then ThermalShutdown
                     else if !script(rounds - 1).PowerOk() then PowerShutdown
                     else Returned)
      && (outcome == Returned <==> script(rounds - 1).AllGood())
    ensures timerCreated ==>
      var last := script(rounds - 1);
      var cold := last.thermalError || last.thermalGood;
      var givesUp := !last.powerError && !last.powerGood && last.mitigationFails;
      && (outcome == Returned <==> cold && (last.powerError || last.powerGood))
      && (outcome == ThermalShutdown <==>
            if givesUp then rounds > 1 && !script(rounds - 2).thermalError && !script(rounds - 2).thermalGood
            else !cold)
      && (rounds - 1 < retries ==> outcome == Returned || givesUp)
    ensures timerCreated ==> forall r :: 0 <= r < rounds - 1 ==>
      var now := script(r);
      var powerBad, hot := !now.powerError && !now.powerGood, !now.thermalError && !now.thermalGood;
      r < retries && (hot || powerBad) && !(powerBad && now.mitigationFails)
  {
    rounds, waits := 0, 0;
    if !timerCreated {
      return Returned, 0, 0;
    }
    var thermalGood, powerGood := true, true;
    var retryCount := retries;
    var again := true;
    while again
      invariant again ==> retryCount == retries - rounds && rounds <= Max0(retries)
      invariant again ==> forall r :: 0 <= r < rounds ==> !MayStop(script, retries, r)
      invariant again ==> waits == Waits(script, retries, rounds)
      invariant again ==> thermalGood == (rounds == 0 || script(rounds - 1).ThermalOk())
      invariant !again ==> 1 <= rounds <= Max0(retries) + 1 && MayStop(script, retries, rounds - 1)
      invariant !again ==> forall r :: 0 <= r < rounds - 1 ==> !MayStop(script, retries, r)
      invariant !again ==> waits == Waits(script, retries, rounds)
      invariant !again ==> thermalGood == FinalThermal(script, rounds - 1)
      invariant !again ==> powerGood == script(rounds - 1).PowerOk()
      decreases again, Max0(retries) + 1 - rounds
    {
      var now := script(rounds);
      rounds := rounds + 1;
      powerGood := now.powerGood;
      if !now.powerError && !powerGood {
        if now.mitigationFails {
          powerGood := false;
          again := false;
          break;
        }
      } else {
        powerGood := true;
      }
      thermalGood := now.thermalGood;
      if !now.thermalError && !thermalGood {
        if retryCount > 0 {
          waits := waits + 1;
        }
      } else {
        thermalGood := true;
      }
      again := retryCount > 0 && (!thermalGood || !powerGood);
      retryCount := retryCount - 1;
    }
    forall r | 0 <= r < rounds - 1 ensures r < retries && !script(r).GivesUp() && !script(r).AllGood() {
      assert !MayStop(script, retries, r);
    }
    if !thermalGood {
      outcome := ThermalShutdown;
    } else if !powerGood {
      outcome := PowerShutdown;
    } else {
      outcome := Returned;
    }
  }
}
