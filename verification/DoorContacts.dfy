/**
 Door contacts (src/gpio_hal.cpp): polling, debouncing and the state of logical doors.
 */
module DoorContacts {
  import opened Basics
  import opened Timeout

  const DOOR_CONTACT_DEBOUNCE_MS: uint32 := 100
  const DOOR_OPEN: uint8 := 1
  const DOOR_CLOSED: uint8 := 2
  const DOOR_MIXED: uint8 := 3

  // ---------- one contact ----------

  // The accepted level, the level sampled last, and the instant that level was first seen.
  datatype Contact = Contact(last: bool, sampled: bool, since: nat)

  datatype Sample = Sample(high: bool, now: nat)

  function StartContact(level: bool, now: nat): Contact {
    Contact(level, level, now)
  }

  function Observe(c: Contact, x: Sample): Contact {
    if x.high != c.sampled then c.(sampled := x.high, since := x.now) else c
  }

  function Poll(c: Contact, x: Sample): Contact {
    var c' := Observe(c, x);
    if x.high != c'.last && Elapsed(Millis(c'.since), DOOR_CONTACT_DEBOUNCE_MS, Millis(x.now))
    then c'.(last := x.high) else c'
  }

  predicate Flips(c: Contact, x: Sample) {
    Poll(c, x).last != c.last
  }

  function After(c: Contact, polls: seq<Sample>): Contact {
    if polls == [] then c else Poll(After(c, polls[..|polls| - 1]), polls[|polls| - 1])
  }

  ghost predicate Timed(polls: seq<Sample>) {
    forall i, j :: 0 <= i < j < |polls| ==> polls[i].now <= polls[j].now
  }

  // Polls i.. all saw this level, the first of them at this instant.
  ghost predicate SteadyFrom(polls: seq<Sample>, i: nat, level: bool, since: nat) {
    i < |polls| && polls[i].now == since && forall k :: i <= k < |polls| ==> polls[k].high == level
  }

  // While the sampled level differs from the accepted one, since is the start of the current run of equal samples.
  lemma {:induction false} PendingIsSteady(c: Contact, polls: seq<Sample>)
    requires c.sampled == c.last && After(c, polls).sampled != After(c, polls).last
    ensures exists i: nat :: SteadyFrom(polls, i, After(c, polls).sampled, After(c, polls).since)
  {
    if polls != [] {
      var before, x := polls[..|polls| - 1], polls[|polls| - 1];
      var c' := After(c, before);
      if x.high != c'.sampled {
        assert SteadyFrom(polls, |polls| - 1, x.high, x.now);
      } else {
        PendingIsSteady(c, before);
        var i: nat :| SteadyFrom(before, i, c'.sampled, c'.since);
        assert SteadyFrom(polls, i, c'.sampled, c'.since);
      }
    }
  }

  // All polls from i on saw this level, over at least 100 ms.
  ghost predicate SteadyLong(polls: seq<Sample>, i: nat, level: bool) {
    && i < |polls| && polls[|polls| - 1].now - polls[i].now >= 100
    && forall k :: i <= k < |polls| ==> polls[k].high == level
  }

  // Debounce: the accepted level flips only if every poll of a stretch of at least 100 ms of real time saw the new
  // level.
  lemma FlipIsDebounced(c: Contact, polls: seq<Sample>, x: Sample)
    requires c.sampled == c.last && Timed(polls + [x]) && Flips(After(c, polls), x)
    ensures exists i: nat :: SteadyLong(polls + [x], i, x.high)
  {
    var all, c' := polls + [x], After(c, polls);
    assert x.high == c'.sampled by { FreshIsNotDue(x.now); }
    PendingIsSteady(c, polls);
    var i: nat :| SteadyFrom(polls, i, c'.sampled, c'.since);
    assert all[i] == polls[i] && all[|polls|] == x;
    NeverEarly(c'.since, DOOR_CONTACT_DEBOUNCE_MS, x.now);
    assert SteadyLong(all, i, x.high);
  }

  // A run of equal samples starts no later than any of its polls, and its level is the sampled one.
  lemma {:induction false} RunStart(c: Contact, polls: seq<Sample>, i: nat, level: bool)
    requires i < |polls| && Timed(polls) && c.since <= polls[0].now
    requires forall k :: i <= k < |polls| ==> polls[k].high == level
    ensures After(c, polls).sampled == level && c.since <= After(c, polls).since <= polls[i].now
  {
    var n := |polls| - 1;
    var before := polls[..n];
    if i < n {
      RunStart(c, before, i, level);
    } else if 0 < n {
      RunStart(c, before, n - 1, polls[n - 1].high);
    }
  }

  // Polls follow each other within one wrap of the clock, less the debounce time.
  ghost predicate Frequent(polls: seq<Sample>) {
    forall i :: 0 < i < |polls| ==> polls[i].now + 100 <= polls[i - 1].now + 0x1_0000_0000
  }

  // A level that is not accepted yet was first seen less than 100 ms before the last poll, at any uptime.
  lemma {:induction false} PendingIsYoung(c: Contact, polls: seq<Sample>)
    requires c.sampled == c.last && polls != [] && Timed(polls) && Frequent(polls)
    requires After(c, polls).sampled != After(c, polls).last
    ensures After(c, polls).since <= polls[|polls| - 1].now < After(c, polls).since + DOOR_CONTACT_DEBOUNCE_MS
  {
    var n := |polls| - 1;
    var before, x := polls[..n], polls[n];
    var c' := After(c, before);
    if c'.sampled != c'.last && x.high == c'.sampled {
      PendingIsYoung(c, before);
      assert before[n - 1] == polls[n - 1];
      ExactWithinOneWrap(c'.since, DOOR_CONTACT_DEBOUNCE_MS, x.now);
    }
  }

  // The converse: a level seen by every poll of a stretch of at least 100 ms is the accepted one after it, at any
  // uptime.
  lemma SteadyIsAccepted(c: Contact, polls: seq<Sample>, i: nat, level: bool)
    requires c.sampled == c.last && SteadyLong(polls, i, level) && Timed(polls) && Frequent(polls)
    requires c.since <= polls[0].now
    ensures After(c, polls).last == level
  {
    RunStart(c, polls, i, level);
    if After(c, polls).last != level {
      PendingIsYoung(c, polls);
    }
  }

  lemma FreshIsNotDue(now: nat)
    ensures !Elapsed(Millis(now), DOOR_CONTACT_DEBOUNCE_MS, Millis(now))
  {
  }

  // ---------- the object ----------

  // A physical door: the logical door it belongs to, and whether it has a contact.
  datatype Mapping = Mapping(logDoor: uint8, hasContact: bool)

  ghost predicate IsContactOf(doors: seq<Mapping>, i: int, door: uint8) {
    0 <= i < |doors| && doors[i].logDoor == door && doors[i].hasContact
  }

  ghost predicate AllContacts(doors: seq<Mapping>, last: seq<bool>, door: uint8, level: bool)
    requires |last| == |doors|
  {
    forall i :: IsContactOf(doors, i, door) ==> last[i] == level
  }

  class GpioContacts {
    const doors: seq<Mapping>
    const lastState: array<bool>
    const sampledDoorState: array<bool>
    const doorSampleStartedAt: array<uint32>
    ghost var contacts: seq<Contact>

    ghost predicate Valid()
      reads this, lastState, sampledDoorState, doorSampleStartedAt
    {
      && |doors| == lastState.Length == sampledDoorState.Length == doorSampleStartedAt.Length == |contacts| <= 20
      && lastState != sampledDoorState
      && forall i :: 0 <= i < |doors| ==>
           && contacts[i].last == lastState[i] && contacts[i].sampled == sampledDoorState[i]
           && Millis(contacts[i].since) == doorSampleStartedAt[i]
    }

    constructor (mappings: seq<Mapping>, levels: seq<bool>, now: nat)
      requires |mappings| == |levels| <= 20
      ensures Valid() && doors == mappings && fresh(lastState) && fresh(sampledDoorState) && fresh(doorSampleStartedAt)
      ensures forall i :: 0 <= i < |doors| ==>
                && contacts[i].last == contacts[i].sampled == (mappings[i].hasContact && levels[i])
                && contacts[i].since == now
    {
      var n := |mappings|;
      doors := mappings;
      lastState := new bool[n](i requires 0 <= i < n => mappings[i].hasContact && levels[i]);
      sampledDoorState := new bool[n](i requires 0 <= i < n => mappings[i].hasContact && levels[i]);
      doorSampleStartedAt := new uint32[n](_ => Millis(now));
      contacts := seq(n, i requires 0 <= i < n => StartContact(mappings[i].hasContact && levels[i], now));
    }

    // One contact of one poll.
    method PollContact(i: nat, sample: bool, ghost now: nat, currentMillis: uint32) returns (flipped: bool)
      requires Valid() && i < |doors| && currentMillis == Millis(now)
      modifies this`contacts, lastState, sampledDoorState, doorSampleStartedAt
      ensures Valid() && contacts == old(contacts)[i := Poll(old(contacts[i]), Sample(sample, now))]
      ensures flipped == Flips(old(contacts[i]), Sample(sample, now))
    {
      if sample != sampledDoorState[i] {
        sampledDoorState[i] := sample;
        doorSampleStartedAt[i] := currentMillis;
      }
      flipped := sample != lastState[i] && Elapsed(doorSampleStartedAt[i], DOOR_CONTACT_DEBOUNCE_MS, currentMillis);
      if flipped {
        lastState[i] := sample;
      }
      contacts := contacts[i := Poll(contacts[i], Sample(sample, now))];
    }

    // One poll of all contacts: every contact takes its step, and every logical door (0 to 254) with a flip is
    // notified exactly once, in ascending order.
    method UpdateDoorStates(samples: seq<bool>, ghost now: nat, currentMillis: uint32) returns (notified: seq<uint8>)
      requires Valid() && |samples| == |doors| && currentMillis == Millis(now)
      modifies this`contacts, lastState, sampledDoorState, doorSampleStartedAt
      ensures Valid()
      ensures forall i :: 0 <= i < |doors| ==>
                contacts[i] ==
                if doors[i].hasContact then Poll(old(contacts[i]), Sample(samples[i], now)) else old(contacts[i])
      ensures forall j, k :: 0 <= j < k < |notified| ==> notified[j] < notified[k]
      ensures forall d: uint8 :: d in notified <==>
                && d < DOOR_UNKNOWN
                && (exists i :: IsContactOf(doors, i, d) && Flips(old(contacts[i]), Sample(samples[i], now)))
    {
      var changed := PollAll(samples, now, currentMillis);
      notified := [];
      for door := 0 to DOOR_UNKNOWN
        invariant forall k :: 0 <= k < |notified| ==> notified[k] < door
        invariant forall j, k :: 0 <= j < k < |notified| ==> notified[j] < notified[k]
        invariant forall d: uint8 :: d in notified <==> d < door && d in changed
      {
        if door in changed { notified := notified + [door]; }
      }
    }

    // The set of logical doors with a flip.
    method PollAll(samples: seq<bool>, ghost now: nat, currentMillis: uint32) returns (changed: set<uint8>)
      requires Valid() && |samples| == |doors| && currentMillis == Millis(now)
      modifies this`contacts, lastState, sampledDoorState, doorSampleStartedAt
      ensures Valid()
      ensures forall i :: 0 <= i < |doors| ==>
                contacts[i] ==
                if doors[i].hasContact then Poll(old(contacts[i]), Sample(samples[i], now)) else old(contacts[i])
      ensures forall d: uint8 :: d in changed <==>
                exists i :: IsContactOf(doors, i, d) && Flips(old(contacts[i]), Sample(samples[i], now))
    {
      changed := {};
      for i := 0 to |doors|
        invariant Valid()
        invariant forall k :: 0 <= k < i ==>
                    contacts[k] ==
                    if doors[k].hasContact then Poll(old(contacts[k]), Sample(samples[k], now)) else old(contacts[k])
        invariant forall k :: i <= k < |doors| ==> contacts[k] == old(contacts[k])
        invariant forall d: uint8 :: d in changed <==>
                    exists k :: k < i && IsContactOf(doors, k, d) && Flips(old(contacts[k]), Sample(samples[k], now))
      {
        if doors[i].hasContact {
          var flipped := PollContact(i, samples[i], now, currentMillis);
          if flipped { changed := changed + {doors[i].logDoor}; }
          assert flipped ==> IsContactOf(doors, i, doors[i].logDoor);
        }
      }
    }

    // The state of a logical door: that of all its contacts, mixed if they differ, unknown if it has none.
    method ReadDoorState(door: uint8) returns (state: uint8)
      requires Valid()
      ensures state == DOOR_OPEN || state == DOOR_CLOSED || state == DOOR_MIXED || state == DOOR_UNKNOWN
      ensures state == DOOR_UNKNOWN <==> forall i :: !IsContactOf(doors, i, door)
      ensures state == DOOR_OPEN ==> AllContacts(doors, lastState[..], door, true)
      ensures state == DOOR_CLOSED ==> AllContacts(doors, lastState[..], door, false)
      ensures state == DOOR_MIXED ==>
                !AllContacts(doors, lastState[..], door, true) && !AllContacts(doors, lastState[..], door, false)
    {
      state := DOOR_UNKNOWN;
      ghost var first := 0;
      for i := 0 to |doors|
        invariant state == DOOR_OPEN || state == DOOR_CLOSED || state == DOOR_UNKNOWN
        invariant state == DOOR_UNKNOWN ==> forall k :: k < i ==> !IsContactOf(doors, k, door)
        invariant state != DOOR_UNKNOWN ==>
                    && first < i && IsContactOf(doors, first, door)
                    && forall k :: k < i && IsContactOf(doors, k, door) ==> lastState[k] == (state == DOOR_OPEN)
      {
        if doors[i].logDoor == door && doors[i].hasContact {
          var level := if lastState[i] then DOOR_OPEN else DOOR_CLOSED;
          assert IsContactOf(doors, i, door);
          if state == DOOR_UNKNOWN {
            state := level;
            first := i;
          } else if state != level {
            assert lastState[..][i] != lastState[..][first];
            return DOOR_MIXED;
          }
        }
      }
      assert state != DOOR_UNKNOWN ==> IsContactOf(doors, first, door);
    }
  }
}
