/**
  The environment of one component: a clock, in milliseconds, that never runs backwards, and a record
  of what the component asked for.
 */
module Clocks {

  /** A timer of so many milliseconds was asked for, the vault was called, or the clock was read. */
  datatype Use = Slept(ms: nat) | Called | Looked(at: nat)

  class Clock {
    var now: nat
    /** What was asked of the environment, in order. */
    ghost var trace: seq<Use>

    constructor ()
      ensures now == 0 && trace == []
    {
      now := 0;
      trace := [];
    }

    /** One clock read. Any amount of time may have passed since the one before. */
    method Read() returns (t: nat)
      modifies this
      ensures old(now) <= now == t
      ensures trace == old(trace) + [Looked(t)]
    {
      var passed: nat :| 0 <= passed;
      now := now + passed;
      t := now;
      trace := trace + [Looked(t)];
    }

    /** A timer: it fires no earlier than asked. */
    method Sleep(ms: nat)
      modifies this
      ensures old(now) + ms <= now
      ensures trace == old(trace) + [Slept(ms)]
    {
      var late: nat :| 0 <= late;
      now := now + ms + late;
      trace := trace + [Slept(ms)];
    }

    /** The requests of one call of the vault: they take any amount of time. */
    method Call()
      modifies this
      ensures old(now) <= now
      ensures trace == old(trace) + [Called]
    {
      var passed: nat :| 0 <= passed;
      now := now + passed;
      trace := trace + [Called];
    }
  }
}
