/** Saturating subtraction on an atomic counter (internal/atomics/writes.go). */
module Atomics {

  function Monus(a: nat, b: nat): nat { if a <= b then 0 else a - b }

  datatype Interference = Quiet | Stores(value: nat)

  class Counter {
    var value: nat

    constructor (initial: nat)
      ensures value == initial
    {
      value := initial;
    }

    /**
      others(i) is what another thread stores between attempt i's load and its compare-and-swap.
      The attempt that succeeds subtracts from the value that the counter holds at that moment,
      `seen`; without interference at the first attempt nothing can fail.
    */
    method Subtract(amount: nat, maxRetries: nat, others: nat -> Interference) returns (success: bool, ghost seen: nat, ghost attempts: nat)
      modifies this
      ensures attempts <= maxRetries && (success ==> value == Monus(seen, amount))
      ensures success ==> seen == LastStored(old(value), others, attempts)
      ensures !success ==> attempts == maxRetries && value == LastStored(old(value), others, maxRetries)
      ensures !success ==> forall i :: 0 <= i < maxRetries ==> others(i).Stores?
      ensures maxRetries > 0 && others(0).Quiet? ==> success && value == Monus(old(value), amount)
    {
      attempts := 0;
      var i := 0;
      while i < maxRetries
        invariant 0 <= i <= maxRetries && attempts == i && value == LastStored(old(value), others, i)
        invariant forall j :: 0 <= j < i ==> others(j).Stores?
      {
        var current := value;
        if current == 0 {
          return true, value, i;
        }
        var newValue := if amount >= current then 0 else current - amount;
        if others(i).Stores? {
          value := others(i).value;
        }
        if value == current {
          seen := value;
          attempts := if others(i).Stores? then i + 1 else i;
          value := newValue;
          return true, seen, attempts;
        }
        i := i + 1;
        attempts := i;
      }
      return false, value, attempts;
    }
  }

  // The counter after the first n interferences.
  ghost function LastStored(initial: nat, others: nat -> Interference, n: nat): nat {
    if n == 0 then initial
    else match others(n - 1)
      case Quiet => LastStored(initial, others, n - 1)
      case Stores(v) => v
  }
}
