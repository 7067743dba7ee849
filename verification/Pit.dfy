/** The i8254 interval timer: nanoseconds to CLK pulses, digit by digit. */
module Pit {
  const MIN_NS: nat := 1_000_000
  const MAX_NS: nat := 54_928_000
  const COUNTER: nat := 0x1_0000
  const WORD32: nat := 0x1_0000_0000

  /** The pulses of five decimal digits, each with its own rate. */
  function Weigh(e: nat, d: nat, c: nat, b: nat, a: nat): nat {
    e * 11932 + d * 1193 + c * 119 + b * 12 + a
  }

  /** A microsecond count in pulses, from its highest digits down. */
  function Clks(us: nat): nat {
    Weigh(us / 10000, us % 10000 / 1000, us % 10000 % 1000 / 100, us % 10000 % 1000 % 100 / 10, us % 10000 % 1000 % 100 % 10)
  }

  function Number(e: nat, d: nat, c: nat, b: nat, a: nat): nat {
    e * 10000 + d * 1000 + c * 100 + b * 10 + a
  }

  function RoundUp(ns: nat): nat {
    (ns + 999) / 1000
  }

  /** Rounding up adds a microsecond in 32 bits; so close to the top the sum wraps to below one microsecond. */
  predicate Wraps(ns: nat) {
    ns % 1000 != 0 && ns + 1000 >= WORD32
  }

  lemma Rounds(ns: nat)
    requires ns < WORD32
    ensures (if ns % 1000 != 0 then (ns + 1000) % WORD32 else ns) / 1000 == if Wraps(ns) then 0 else RoundUp(ns)
  {
  }

  /** The conversion as the driver does it, cut off to the counter's 16 bits. */
  method NanosecondsToClks(ns0: nat) returns (clks: nat)
    requires ns0 < WORD32
    ensures clks == if Wraps(ns0) then 0 else Clks(RoundUp(ns0)) % COUNTER
  {
    Rounds(ns0);
    var ns := ns0;
    if ns % 1000 != 0 {
      ns := (ns + 1000) % WORD32;
    }
    ns := ns / 1000;
    var ret, digit;
    digit, ns := TakeDigit(ns, 10000);
    ret := digit * 11932;
    digit, ns := TakeDigit(ns, 1000);
    ret := ret + digit * 1193;
    digit, ns := TakeDigit(ns, 100);
    ret := ret + digit * 119;
    digit, ns := TakeDigit(ns, 10);
    ret := ret + digit * 12;
    ret := ret + ns;
    clks := ret % COUNTER;
  }

  /** One digit off the top, by the subtraction the driver uses. */
  method TakeDigit(ns: nat, unit: nat) returns (digit: nat, rest: nat)
    requires unit in {10, 100, 1000, 10000}
    ensures digit == ns / unit && rest == ns % unit
  {
    digit := ns / unit;
    rest := ns - ns / unit * unit;
  }

  /** The pulses of a number written out in digits. */
  lemma ClksOfDigits(e: nat, d: nat, c: nat, b: nat, a: nat)
    requires d < 10 && c < 10 && b < 10 && a < 10
    ensures Clks(Number(e, d, c, b, a)) == Weigh(e, d, c, b, a)
  {
    var us := Number(e, d, c, b, a);
    Split(e, d * 1000 + c * 100 + b * 10 + a, 10000);
    Split(d, c * 100 + b * 10 + a, 1000);
    Split(c, b * 10 + a, 100);
    Split(b, a, 10);
  }

  /** The rates of the five digits. */
  lemma ClksRates(e: nat, d: nat, c: nat, b: nat, a: nat)
    requires d < 10 && c < 10 && b < 10 && a < 10
    ensures Clks(e * 10000 + d * 1000 + c * 100 + b * 10 + a) == e * 11932 + d * 1193 + c * 119 + b * 12 + a
  {
    ClksOfDigits(e, d, c, b, a);
  }

  lemma Split(high: nat, low: nat, unit: nat)
    requires unit in {10, 100, 1000, 10000} && low < unit
    ensures (high * unit + low) / unit == high && (high * unit + low) % unit == low
  {
  }

  lemma HasDigits(us: nat) returns (e: nat, d: nat, c: nat, b: nat, a: nat)
    ensures d < 10 && c < 10 && b < 10 && a < 10 && us == Number(e, d, c, b, a)
  {
    var r4, r3, r2;
    e, r4 := us / 10000, us % 10000;
    d, r3 := r4 / 1000, r4 % 1000;
    c, r2 := r3 / 100, r3 % 100;
    b, a := r2 / 10, r2 % 10;
  }

  /** One more microsecond is always at least one more pulse. */
  lemma ClksStep(us: nat)
    ensures Clks(us) < Clks(us + 1)
  {
    var e, d, c, b, a := HasDigits(us);
    ClksOfDigits(e, d, c, b, a);
    if a < 9 {
      ClksOfDigits(e, d, c, b, a + 1);
    } else if b < 9 {
      ClksOfDigits(e, d, c, b + 1, 0);
    } else if c < 9 {
      ClksOfDigits(e, d, c + 1, 0, 0);
    } else if d < 9 {
      ClksOfDigits(e, d + 1, 0, 0, 0);
    } else {
      ClksOfDigits(e + 1, 0, 0, 0, 0);
    }
  }

  /** Longer intervals get strictly more pulses, for every number of microseconds. */
  lemma {:induction false} ClksMonotone(a: nat, b: nat)
    requires a < b
    ensures Clks(a) < Clks(b)
    decreases b
  {
    if a < b - 1 {
      ClksMonotone(a, b - 1);
    }
    ClksStep(b - 1);
  }

  datatype Time = Time(seconds: nat, ns: nat)

  predicate Accepted(time: Time) {
    time.seconds == 0 && MIN_NS <= time.ns <= MAX_NS
  }

  /** `clks` is the pulse count of `ns`, rounded up to whole microseconds, and fits the counter. */
  ghost predicate Programs(ns: nat, clks: nat) {
    0 < clks < COUNTER && forall us: nat :: us == RoundUp(ns) ==> clks == Clks(us)
  }

  lemma InRange(us: nat)
    requires 1000 <= us <= 54928
    ensures 0 < Clks(us) < COUNTER
  {
    var most := Clks(54928);
    ClksOfDigits(5, 4, 9, 2, 8);
    var least := Clks(0);
    ClksMonotone(0, us);
    if us < 54928 {
      ClksMonotone(us, 54928);
    }
  }

  /** An accepted interval fits the 16-bit counter, and is within seven pulses of 1.19318 per microsecond. */
  lemma AcceptedFits(time: Time)
    requires Accepted(time)
    ensures var us := RoundUp(time.ns);
            && 0 < Clks(us) < COUNTER
            && -700_000 < Clks(us) * 100_000 - us * 119_318 < 700_000
  {
    InRange(RoundUp(time.ns));
    Drift(RoundUp(time.ns));
  }

  /** Nothing is cut off an accepted interval. */
  method Convert(time: Time) returns (clks: nat)
    requires Accepted(time)
    ensures Programs(time.ns, clks)
  {
    clks := NanosecondsToClks(time.ns);
    Uncut(time.ns, RoundUp(time.ns), clks);
  }

  lemma Small(n: nat)
    requires n < COUNTER
    ensures n % COUNTER == n
  {
  }

  lemma Uncut(ns: nat, us: nat, clks: nat)
    requires us == RoundUp(ns) && 1000 <= us <= 54928 && clks == Clks(us) % COUNTER
    ensures Programs(ns, clks)
  {
    InRange(us);
    Small(Clks(us));
  }

  lemma Drift(us: nat)
    requires us < 100_000
    ensures -700_000 < Clks(us) * 100_000 - us * 119_318 < 700_000
  {
    var e, d, c, b, a := HasDigits(us);
    ClksOfDigits(e, d, c, b, a);
  }

  datatype Mode = Unset | Periodic | Oneshot

  datatype Status = Busy | Unsupported | Success

  class I8254Pit {
    var mode: Mode
    var interval: nat
    var timeout: nat
    var intervalClks: nat
    var timeoutClks: nat

    constructor ()
      ensures mode == Unset && intervalClks == timeoutClks == 0
    {
      mode, interval, timeout, intervalClks, timeoutClks := Unset, 0, 0, 0, 0;
    }

    method SetPeriodicMode(latched: bool, time: Time) returns (r: Status)
      modifies this
      ensures r == Busy <==> !latched
      ensures r == Success <==> latched && time.seconds == 0 && 1_000_000 <= time.ns <= 54_928_000
      ensures r != Success ==> unchanged(this)
      ensures r == Success ==>
                && mode == Periodic && interval == time.ns && Programs(time.ns, intervalClks)
                && timeout == old(timeout) && timeoutClks == old(timeoutClks)
    {
      if !latched {
        return Busy;
      }
      if !Accepted(time) {
        return Unsupported;
      }
      interval, mode := time.ns, Periodic;
      intervalClks := Convert(time);
      return Success;
    }

    method SetOneshotMode(latched: bool, time: Time) returns (r: Status)
      modifies this
      ensures r == Busy <==> !latched
      ensures r == Success <==> latched && time.seconds == 0 && 1_000_000 <= time.ns <= 54_928_000
      ensures r != Success ==> unchanged(this)
      ensures r == Success ==>
                && mode == Oneshot && timeout == time.ns && Programs(time.ns, timeoutClks)
                && interval == old(interval) && intervalClks == old(intervalClks)
    {
      if !latched {
        return Busy;
      }
      if !Accepted(time) {
        return Unsupported;
      }
      timeout, mode := time.ns, Oneshot;
      timeoutClks := Convert(time);
      return Success;
    }
  }
}
