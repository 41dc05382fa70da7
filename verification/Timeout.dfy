/**
 Wrap-around millisecond timeouts (include/timeout.h).

 The firmware sees the low 32 bits of time. The model keeps an unbounded clock
 and `Millis` gives what the code reads from it.
 */
module Timeout {
  const WRAP: int := 0x1_0000_0000

  type uint32 = x: int | 0 <= x < WRAP

  function Millis(t: nat): uint32 {
    t % WRAP
  }

  // Unsigned 32-bit subtraction.
  function Minus(now: uint32, start: uint32): uint32 {
    (now - start) % WRAP
  }

  predicate Elapsed(start: uint32, length: uint32, now: uint32) {
    Minus(now, start) >= length
  }

  function Remaining(start: uint32, length: uint32, now: uint32): uint32 {
    var elapsed := Minus(now, start);
    if elapsed >= length then 0 else length - elapsed
  }

  // The 32-bit difference of two clock readings is the real difference modulo one wrap.
  lemma MinusIsRealModWrap(start: nat, now: nat)
    requires start <= now
    ensures Minus(Millis(now), Millis(start)) == (now - start) % WRAP
  {
    var q := now / WRAP - start / WRAP;
    assert now - start == q * WRAP + (Millis(now) - Millis(start));
  }

  // A timeout never fires early, whatever the number of wraps in between.
  lemma NeverEarly(start: nat, length: uint32, now: nat)
    requires start <= now
    requires Elapsed(Millis(start), length, Millis(now))
    ensures now - start >= length
  {
    MinusIsRealModWrap(start, now);
  }

  // Within one wrap of its start a timeout fires exactly when it is due, and the
  // remaining time counts down to that instant.
  lemma ExactWithinOneWrap(start: nat, length: uint32, now: nat)
    requires start <= now < start + WRAP
    ensures Elapsed(Millis(start), length, Millis(now)) <==> now >= start + length
    ensures Remaining(Millis(start), length, Millis(now)) == if now >= start + length then 0 else start + length - now
  {
    MinusIsRealModWrap(start, now);
  }

  // What is seen at any later instant, and exactly when a timeout that is due is missed: only after a whole wrap, in
  // the window of its length behind each multiple of the wrap.
  lemma MissedIff(start: nat, length: uint32, now: nat)
    requires start <= now
    ensures Elapsed(Millis(start), length, Millis(now)) <==> (now - start) % WRAP >= length
    ensures now >= start + length && !Elapsed(Millis(start), length, Millis(now))
            <==> now >= start + WRAP && (now - start) % WRAP < length
  {
    MinusIsRealModWrap(start, now);
  }
}
