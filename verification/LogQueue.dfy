/**
 The buffered log transport (src/logger.cpp): a ring buffer filled by any task and drained
 by one consumer that releases the lock while it sends.

 Every critical section is one atomic step. A run is any interleaving of the steps of the
 producers with those of the consumer.
 */
module LogQueue {
  import opened Timeout

  const LOG_QUEUE_SIZE := 32

  datatype Content = Content(
    severity: nat, logArea: nat, source: string, message: nat, timestamp: nat, params: seq<int>)

  // Where the consumer is: reporting lost records, sending record `index`, or done sending it.
  // since is the number of records accepted when the send began.
  datatype Consumer = Idle | Noticing(lost: uint32) | Sending(index: nat, since: nat) | Sent(index: nat, since: nat)

  // The queue together with its history. Accepted records are numbered from 0; the last `count` of them are queued.
  datatype Log = Log(
    accepted: seq<Content>, count: nat, dropped: uint32, consumer: Consumer,
    overwritten: set<nat>, popped: nat, delivered: seq<nat>, reported: nat)

  const EMPTY := Log([], 0, 0, Idle, {}, 0, [], 0)

  function First(l: Log): int {
    |l.accepted| - l.count
  }

  datatype Action =
    | Accept(content: Content)                       // sendOrQueue
    | BeginNotice | EndNotice(ok: bool)              // sendDroppedNotice
    | BeginSend | EndSend(ok: bool) | Finish         // one round of flushQueue

  ghost function Next(l: Log, a: Action): Log
    requires First(l) >= 0
  {
    match (a, l.consumer)
    case (Accept(c), _) =>
      var full := l.count == LOG_QUEUE_SIZE;
      l.(accepted := l.accepted + [c],
         count := if full then l.count else l.count + 1,
         dropped := if full then (l.dropped + 1) % WRAP else l.dropped,
         overwritten := if full then l.overwritten + {First(l)} else l.overwritten)
    case (BeginNotice, Idle) => if l.dropped == 0 then l else l.(consumer := Noticing(l.dropped))
    case (EndNotice(ok), Noticing(lost)) =>
      if ok then l.(dropped := (l.dropped - lost) % WRAP, reported := l.reported + lost, consumer := Idle)
      else l.(consumer := Idle)
    case (BeginSend, Idle) => if l.count == 0 then l else l.(consumer := Sending(First(l), |l.accepted|))
    case (EndSend(ok), Sending(i, since)) =>
      if ok then l.(delivered := l.delivered + [i], consumer := Sent(i, since)) else l.(consumer := Idle)
    case (Finish, Sent(i, since)) =>
      if l.count > 0 && First(l) % WRAP == i % WRAP
      then l.(count := l.count - 1, popped := l.popped + 1, consumer := Idle)
      else l.(consumer := Idle)
    case _ => l
  }

  // ---------- invariants ----------

  ghost predicate Increasing(s: seq<nat>) {
    forall i, j :: 0 <= i < j < |s| ==> s[i] < s[j]
  }

  ghost predicate AllBelow(s: seq<nat>, bound: int) {
    forall i :: 0 <= i < |s| ==> s[i] < bound
  }

  // Every accepted record is queued, delivered or overwritten, and each count is the right one.
  ghost predicate Accounted(l: Log) {
    && l.count <= LOG_QUEUE_SIZE && 0 <= First(l)
    && |l.accepted| == l.popped + |l.overwritten| + l.count
    && (forall i :: i in l.overwritten ==> i < First(l))
    && (forall i: nat :: i < First(l) ==> i in l.delivered || i in l.overwritten)
  }

  // Overwritten = reported + dropped, up to the width of the counter.
  ghost predicate DropsBalance(l: Log) {
    && l.reported <= |l.overwritten|
    && l.dropped == (|l.overwritten| - l.reported) % WRAP
    && (l.consumer.Noticing? ==> l.consumer.lost <= |l.overwritten| - l.reported)
  }

  ghost predicate InOrder(l: Log) {
    && Increasing(l.delivered)
    && match l.consumer
       case Sending(i, since) =>
         && AllBelow(l.delivered, i) && i <= First(l) && i < since <= |l.accepted|
         && First(l) - i <= |l.accepted| - since
       case Sent(i, since) =>
         && AllBelow(l.delivered, i + 1) && i in l.delivered && i <= First(l)
         && i < since <= |l.accepted| && First(l) - i <= |l.accepted| - since
       case _ => AllBelow(l.delivered, First(l))
  }

  ghost predicate Invariant(l: Log) {
    Accounted(l) && DropsBalance(l) && InOrder(l)
  }

  // Fewer than 2^32 records are accepted during one send.
  predicate Brief(l: Log) {
    l.consumer.Sent? ==> |l.accepted| - l.consumer.since < WRAP
  }

  lemma SameRecord(first: nat, i: nat)
    requires i <= first < i + WRAP
    ensures first % WRAP == i % WRAP <==> first == i
  {
  }

  lemma AcceptKeeps(l: Log, c: Content)
    requires Invariant(l)
    ensures Invariant(Next(l, Accept(c)))
  {
    var l' := Next(l, Accept(c));
    if l.count == LOG_QUEUE_SIZE {
      assert |l'.overwritten| == |l.overwritten| + 1;
      assert DropsBalance(l') by { SuccModWrap(|l.overwritten| - l.reported); }
    }
    assert Accounted(l');
    assert InOrder(l');
  }

  lemma SuccModWrap(n: nat)
    ensures (n % WRAP + 1) % WRAP == (n + 1) % WRAP
  {
  }

  lemma BeginNoticeKeeps(l: Log)
    requires Invariant(l)
    ensures Invariant(Next(l, BeginNotice))
  {
  }

  lemma EndNoticeKeeps(l: Log, ok: bool)
    requires Invariant(l)
    ensures Invariant(Next(l, EndNotice(ok)))
  {
    var l' := Next(l, EndNotice(ok));
    assert Accounted(l') && InOrder(l');
    if l.consumer.Noticing? && ok {
      SubModWrap(|l.overwritten| - l.reported, l.consumer.lost);
    }
  }

  lemma SubModWrap(n: nat, lost: nat)
    ensures (n % WRAP - lost) % WRAP == (n - lost) % WRAP
  {
    assert n - lost == n / WRAP * WRAP + (n % WRAP - lost);
  }

  lemma SendKeeps(l: Log, ok: bool)
    requires Invariant(l)
    ensures Invariant(Next(l, BeginSend)) && Invariant(Next(l, EndSend(ok)))
  {
    if l.consumer.Sending? && ok {
      assert forall i :: i in l.delivered ==> i in l.delivered + [l.consumer.index];
    }
  }

  lemma FinishKeeps(l: Log)
    requires Invariant(l) && Brief(l)
    ensures Invariant(Next(l, Finish))
  {
    if l.consumer.Sent? {
      SameRecord(First(l), l.consumer.index);
    }
  }

  lemma StepKeeps(l: Log, a: Action)
    requires Invariant(l) && Brief(l)
    ensures Invariant(Next(l, a))
  {
    match a
    case Accept(c) => AcceptKeeps(l, c);
    case BeginNotice => BeginNoticeKeeps(l);
    case EndNotice(ok) => EndNoticeKeeps(l, ok);
    case BeginSend => SendKeeps(l, true);
    case EndSend(ok) => SendKeeps(l, ok);
    case Finish => FinishKeeps(l);
  }

  // ---------- runs ----------

  // The log after a run; total because First never goes below 0.
  ghost function After(l: Log, run: seq<Action>): (r: Log)
    requires First(l) >= 0
    ensures First(r) >= 0
  {
    if run == [] then l else Next(After(l, run[..|run| - 1]), run[|run| - 1])
  }

  ghost predicate AllBrief(l: Log, run: seq<Action>)
    requires First(l) >= 0
  {
    run != [] ==> AllBrief(l, run[..|run| - 1]) && Brief(After(l, run[..|run| - 1]))
  }

  // In every interleaving: accepted = popped + overwritten + queued, nothing else is lost, delivered numbers strictly
  // increase, and the drops reported plus the drops still to report are those that happened.
  lemma {:induction false} RunKeeps(l: Log, run: seq<Action>)
    requires Invariant(l) && AllBrief(l, run)
    ensures Invariant(After(l, run))
  {
    if run != [] {
      RunKeeps(l, run[..|run| - 1]);
      StepKeeps(After(l, run[..|run| - 1]), run[|run| - 1]);
    }
  }

  // What the invariants say of the counts.
  lemma InvariantMeans(l: Log)
    requires Invariant(l)
    ensures |l.accepted| == l.popped + |l.overwritten| + l.count
    ensures forall i: nat :: i < |l.accepted| ==> First(l) <= i || i in l.delivered || i in l.overwritten
    ensures Increasing(l.delivered)
    ensures |l.overwritten| - l.reported < WRAP ==> l.reported + l.dropped == |l.overwritten|
  {
  }

  // The same, said of every run from the empty queue.
  lemma QueueIsConserved(run: seq<Action>, l: Log)
    requires AllBrief(EMPTY, run) && l == After(EMPTY, run)
    ensures |l.accepted| == l.popped + |l.overwritten| + l.count
    ensures forall i: nat :: i < |l.accepted| ==> First(l) <= i || i in l.delivered || i in l.overwritten
    ensures Increasing(l.delivered)
    ensures |l.overwritten| - l.reported < WRAP ==> l.reported + l.dropped == |l.overwritten|
  {
    assert Invariant(EMPTY);
    RunKeeps(EMPTY, run);
    InvariantMeans(l);
  }

  // ---------- the object ----------

  datatype QueuedLogRecord = Queued(content: Content, sequence: uint32)

  // What the surroundings do in one round of flushQueue: whether the link is up, the records other tasks queue
  // before the head is read and while it is sent, and whether the send succeeds.
  datatype Turn = Turn(connected: bool, before: seq<Content>, during: seq<Content>, sent: bool)

  ghost function Accepts(cs: seq<Content>): (r: seq<Action>)
    ensures |r| == |cs| && forall i :: 0 <= i < |cs| ==> r[i] == Accept(cs[i])
  {
    seq(|cs|, i requires 0 <= i < |cs| => Accept(cs[i]))
  }

  lemma AfterSnoc(l: Log, run: seq<Action>, a: Action)
    requires First(l) >= 0
    ensures After(l, run + [a]) == Next(After(l, run), a)
  {
    assert (run + [a])[..|run|] == run;
  }

  lemma {:induction false} AfterAppend(l: Log, a: seq<Action>, b: seq<Action>)
    requires First(l) >= 0
    ensures After(l, a + b) == After(After(l, a), b)
  {
    if b == [] {
      assert a + b == a;
    } else {
      assert (a + b)[..|a + b| - 1] == a + b[..|b| - 1];
      AfterAppend(l, a, b[..|b| - 1]);
    }
  }

  // The steps of a drop notice, with producers at work while it is sent.
  ghost function NoticeSteps(dropped: uint32, during: seq<Content>, sent: bool): seq<Action> {
    [BeginNotice] + if dropped == 0 then [] else Accepts(during) + [EndNotice(sent)]
  }

  ghost predicate Available(l: Log, turn: Turn) {
    l.count > 0 || turn.before != []
  }

  // The steps of one round of the flush that starts in log l.
  ghost function RoundSteps(l: Log, turn: Turn): seq<Action> {
    Accepts(turn.before) + [BeginSend] + if Available(l, turn) then SendSteps(turn) else []
  }

  ghost function SendSteps(turn: Turn): seq<Action> {
    Accepts(turn.during) + [EndSend(turn.sent)] + if turn.sent then [Finish] else []
  }

  lemma ConcatAssociative<T>(a: seq<T>, b: seq<T>, c: seq<T>, d: seq<T>)
    ensures a + b + c + d == a + (b + c + d)
  {
  }

  // The steps taken once the remaining rounds are over, done being those taken before: rounds go on as long as
  // the link is up, there is something to send and it can be sent.
  ghost function FlushSteps(l: Log, turns: seq<Turn>, done: seq<Action>): seq<Action>
    requires First(l) >= 0
    decreases |turns|
  {
    if turns == [] || !turns[0].connected then done
    else if Available(l, turns[0]) && turns[0].sent then
      FlushSteps(After(l, RoundSteps(l, turns[0])), turns[1..], done + RoundSteps(l, turns[0]))
    else done + RoundSteps(l, turns[0])
  }

  // ---------- what a flush achieves ----------

  // Producers deliver nothing, and leave the consumer where it is.
  lemma {:induction false} AcceptsKeep(l: Log, cs: seq<Content>)
    requires First(l) >= 0
    ensures var l' := After(l, Accepts(cs));
            && l'.delivered == l.delivered && l'.consumer == l.consumer && l'.reported == l.reported
            && (l'.count > 0 <==> l.count > 0 || cs != []) && (cs == [] ==> l' == l)
  {
    if cs != [] {
      var before := cs[..|cs| - 1];
      AcceptsKeep(l, before);
      assert Accepts(cs)[..|cs| - 1] == Accepts(before);
    }
  }

  // Without a consumer the queue keeps the latest 32 records, and counts the others as lost.
  lemma {:induction false} QueueKeepsLatest(cs: seq<Content>)
    ensures var l, n := After(EMPTY, Accepts(cs)), |cs|;
            && l.accepted == cs && l.count == (if n < 32 then n else 32)
            && l.dropped == (if n < 32 then 0 else (n - 32) % 0x1_0000_0000)
            && (forall i :: i in l.overwritten <==> 0 <= i < n - 32)
  {
    if cs != [] {
      var before := cs[..|cs| - 1];
      QueueKeepsLatest(before);
      assert Accepts(cs)[..|cs| - 1] == Accepts(before);
      if |before| >= 32 { SuccModWrap(|before| - 32); }
    }
  }

  // From l to l' the n oldest queued records were delivered and removed, and nothing else happened to the queue.
  ghost predicate Drained(l: Log, l': Log, n: nat) {
    && l'.accepted == l.accepted && l'.count == l.count - n && l'.popped == l.popped + n
    && l'.overwritten == l.overwritten && l'.dropped == l.dropped && l'.reported == l.reported
    && l'.delivered == l.delivered + seq(n, i requires 0 <= i < n => |l.accepted| - l.count + i)
  }

  // From l to l' exactly n records were delivered.
  ghost predicate Sends(l: Log, l': Log, n: nat) {
    l.delivered <= l'.delivered && |l'.delivered| == |l.delivered| + n && l'.reported == l.reported
  }

  // Nothing goes wrong in this round, and nobody else is at work.
  predicate IsClear(turn: Turn) {
    turn.connected && turn.sent && turn.before == [] && turn.during == []
  }

  // One round delivers one record, unless the queue is empty or the send fails.
  lemma RoundSends(l: Log, turn: Turn)
    requires First(l) >= 0 && l.consumer.Idle?
    ensures var l' := After(l, RoundSteps(l, turn));
            && l'.consumer.Idle?
            && Sends(l, l', if (l.count > 0 || turn.before != []) && turn.sent then 1 else 0)
            && (l.count == 0 && turn.before == [] ==> l' == l)
  {
    AcceptsKeep(l, turn.before);
    var l1 := After(l, Accepts(turn.before));
    AfterSnoc(l, Accepts(turn.before), BeginSend);
    if l1.count > 0 {
      SendDelivers(Next(l1, BeginSend), turn);
      AfterAppend(l, Accepts(turn.before) + [BeginSend], SendSteps(turn));
    } else {
      assert Accepts(turn.before) + [BeginSend] + [] == Accepts(turn.before) + [BeginSend];
    }
  }

  lemma SendDelivers(l: Log, turn: Turn)
    requires First(l) >= 0 && l.consumer.Sending?
    ensures var l' := After(l, SendSteps(turn));
            l'.consumer.Idle? && Sends(l, l', if turn.sent then 1 else 0)
  {
    AcceptsKeep(l, turn.during);
    AfterSnoc(l, Accepts(turn.during), EndSend(turn.sent));
    if turn.sent {
      AfterSnoc(l, Accepts(turn.during) + [EndSend(true)], Finish);
    } else {
      assert SendSteps(turn) == Accepts(turn.during) + [EndSend(false)];
    }
  }

  // A clear round delivers and removes the oldest record.
  lemma ClearRound(l: Log, turn: Turn, l': Log)
    requires First(l) >= 0 && l.consumer.Idle? && l.count > 0 && IsClear(turn)
    requires l' == After(l, RoundSteps(l, turn))
    ensures Drained(l, l', 1)
  {
    ClearRoundSteps(l, turn);
    AfterThree(l, BeginSend, EndSend(true), Finish);
    ClearSteps(l, Next(l, BeginSend), Next(Next(l, BeginSend), EndSend(true)));
  }

  lemma ClearRoundSteps(l: Log, turn: Turn)
    requires l.count > 0 && IsClear(turn)
    ensures RoundSteps(l, turn) == [BeginSend, EndSend(true), Finish]
  {
    assert Accepts([]) == [];
  }

  lemma AfterThree(l: Log, a: Action, b: Action, c: Action)
    requires First(l) >= 0
    ensures First(Next(l, a)) >= 0 && First(Next(Next(l, a), b)) >= 0
    ensures After(l, [a, b, c]) == Next(Next(Next(l, a), b), c)
  {
    AfterSnoc(l, [], a);
    AfterSnoc(l, [a], b);
    AfterSnoc(l, [a, b], c);
    assert [] + [a] == [a] && [a] + [b] == [a, b] && [a, b] + [c] == [a, b, c];
    assert After(l, []) == l && First(After(l, [a])) >= 0 && First(After(l, [a, b])) >= 0;
  }

  lemma ClearSteps(l: Log, l1: Log, l2: Log)
    requires First(l) >= 0 && l.consumer.Idle? && l.count > 0
    requires l1 == Next(l, BeginSend) && l2 == Next(l1, EndSend(true))
    ensures Drained(l, Next(l2, Finish), 1)
  {
    assert l2.delivered == l.delivered + [First(l)];
  }

  // Rounds stop only because the queue is empty, the link is down or a send failed, or when there are no more turns.
  ghost predicate StopsAt(l: Log, l': Log, turns: seq<Turn>, n: nat) {
    && n <= |turns| && Sends(l, l', n)
    && (n == |turns| || l'.count == 0 || !turns[n].connected || !turns[n].sent)
  }

  // At most 32 records are delivered, and fewer only for one of these reasons.
  ghost predicate StopsAfter(l: Log, l': Log, turns: seq<Turn>, n: nat)
    requires |turns| == 32
  {
    && n <= 32 && l.delivered <= l'.delivered && |l'.delivered| == |l.delivered| + n
    && (n == 32 || l'.count == 0 || !turns[n].connected || !turns[n].sent)
  }

  // The numbers of the queued records, oldest first.
  ghost function QueuedNumbers(l: Log): seq<int> {
    seq(l.count, i => |l.accepted| - l.count + i)
  }

  lemma {:induction false} FlushStops(l: Log, turns: seq<Turn>, done: seq<Action>) returns (n: nat)
    requires First(l) >= 0 && l.consumer.Idle? && l == After(EMPTY, done)
    ensures StopsAt(l, After(EMPTY, FlushSteps(l, turns, done)), turns, n)
    decreases |turns|
  {
    n := 0;
    if turns != [] && turns[0].connected {
      var turn := turns[0];
      var l1, more := After(l, RoundSteps(l, turn)), done + RoundSteps(l, turn);
      RoundSends(l, turn);
      AfterAppend(EMPTY, done, RoundSteps(l, turn));
      if Available(l, turn) && turn.sent {
        var rest := FlushStops(l1, turns[1..], more);
        n := rest + 1;
      }
    }
  }

  // With clear turns enough, the flush empties the queue, oldest record first.
  lemma {:induction false} FlushDrains(l: Log, turns: seq<Turn>, done: seq<Action>)
    requires First(l) >= 0 && l.consumer.Idle? && l == After(EMPTY, done) && l.count <= |turns|
    requires forall i :: 0 <= i < |turns| ==> IsClear(turns[i])
    ensures Drained(l, After(EMPTY, FlushSteps(l, turns, done)), l.count)
    decreases |turns|
  {
    if turns != [] {
      var turn := turns[0];
      var l1 := After(l, RoundSteps(l, turn));
      RoundSends(l, turn);
      AfterAppend(EMPTY, done, RoundSteps(l, turn));
      if l.count > 0 {
        ClearRound(l, turn, l1);
        FlushDrains(l1, turns[1..], done + RoundSteps(l, turn));
        DrainedTwice(l, l1, After(EMPTY, FlushSteps(l, turns, done)), l1.count);
      }
    }
  }

  lemma DrainedTwice(l: Log, l1: Log, l2: Log, n: nat)
    requires Drained(l, l1, 1) && Drained(l1, l2, n)
    ensures Drained(l, l2, n + 1)
  {
  }

  // A notice that is sent reports all drops so far; one that is not reports nothing. Neither delivers a record.
  lemma NoticeReports(l: Log, during: seq<Content>, sent: bool)
    requires First(l) >= 0 && l.consumer.Idle?
    ensures var l' := After(l, NoticeSteps(l.dropped, during, sent));
            && l'.consumer.Idle? && l'.delivered == l.delivered
            && l'.reported == l.reported + (if sent then l.dropped else 0)
            && (during == [] || l.dropped == 0 ==>
                  l' == l.(reported := l'.reported, dropped := if sent then 0 else l.dropped))
  {
    AfterOne(l, BeginNotice);
    var l1 := Next(l, BeginNotice);
    if l.dropped == 0 {
      assert NoticeSteps(l.dropped, during, sent) == [BeginNotice];
    } else {
      AfterAppend(l, [BeginNotice], Accepts(during) + [EndNotice(sent)]);
      NoticeEnds(l1, during, sent);
    }
  }

  lemma AfterOne(l: Log, a: Action)
    requires First(l) >= 0
    ensures After(l, [a]) == Next(l, a)
  {
    AfterSnoc(l, [], a);
    assert [] + [a] == [a];
  }

  // The rest of a notice of lost records, once their number is read.
  lemma NoticeEnds(l: Log, during: seq<Content>, sent: bool)
    requires First(l) >= 0 && l.consumer == Noticing(l.dropped)
    ensures var l' := After(l, Accepts(during) + [EndNotice(sent)]);
            && l'.consumer.Idle? && l'.delivered == l.delivered
            && l'.reported == l.reported + (if sent then l.dropped else 0)
            && (during == [] ==>
                  l' == l.(reported := l'.reported, dropped := if sent then 0 else l.dropped, consumer := Idle))
  {
    AcceptsKeep(l, during);
    AfterSnoc(l, Accepts(during), EndNotice(sent));
    NoticeEnd(After(l, Accepts(during)), l.dropped, sent);
  }

  lemma NoticeEnd(l: Log, lost: uint32, sent: bool)
    requires First(l) >= 0 && l.consumer == Noticing(lost)
    ensures Next(l, EndNotice(sent)) ==
            l.(consumer := Idle, reported := l.reported + (if sent then lost else 0),
               dropped := if sent then (l.dropped - lost) % WRAP else l.dropped)
  {
  }

  // What a flush of at most 32 rounds comes to. Without the notice of lost records nothing else is sent. Otherwise
  // rounds go on until the queue is empty, the link is down, a send fails or 32 records are delivered; and if nothing
  // goes wrong and nobody else is at work, all drops are reported and all queued records delivered, oldest first.
  ghost predicate FlushOutcome(l: Log, l': Log, noticeDuring: seq<Content>, noticeSent: bool, turns: seq<Turn>)
    requires |turns| == 32
  {
    && l'.reported == l.reported + (if noticeSent then l.dropped else 0)
    && (l.dropped != 0 && !noticeSent ==> l'.delivered == l.delivered)
    && (l.dropped == 0 || noticeSent ==> exists n: nat :: StopsAfter(l, l', turns, n))
    && ((l.dropped == 0 || (noticeSent && noticeDuring == [])) && (forall i :: 0 <= i < 32 ==> IsClear(turns[i])) ==>
          && l'.count == 0 && l'.dropped == 0 && l'.accepted == l.accepted
          && l'.delivered == l.delivered + QueuedNumbers(l))
  }

  lemma FlushMeans(l: Log, done: seq<Action>, noticeDuring: seq<Content>, noticeSent: bool, turns: seq<Turn>)
    requires First(l) >= 0 && l.consumer.Idle? && l == After(EMPTY, done) && l.count <= 32 == |turns|
    ensures var notice := NoticeSteps(l.dropped, noticeDuring, noticeSent);
            var steps := if l.dropped == 0 || noticeSent then FlushSteps(After(l, notice), turns, done + notice)
                         else done + notice;
            FlushOutcome(l, After(EMPTY, steps), noticeDuring, noticeSent, turns)
  {
    var notice := NoticeSteps(l.dropped, noticeDuring, noticeSent);
    var l1 := After(l, notice);
    NoticeReports(l, noticeDuring, noticeSent);
    AfterAppend(EMPTY, done, notice);
    if l.dropped == 0 || noticeSent {
      var n := FlushStops(l1, turns, done + notice);
      var l' := After(EMPTY, FlushSteps(l1, turns, done + notice));
      assert StopsAfter(l, l', turns, n);
      if (l.dropped == 0 || noticeDuring == []) && (forall i :: 0 <= i < 32 ==> IsClear(turns[i])) {
        FlushDrains(l1, turns, done + notice);
        DrainedIsQueued(l, l1, l');
      }
    }
  }

  lemma DrainedIsQueued(l: Log, l1: Log, l': Log)
    requires l1 == l.(reported := l1.reported, dropped := 0) && Drained(l1, l', l1.count)
    ensures l'.count == 0 && l'.dropped == 0 && l'.accepted == l.accepted
    ensures l'.delivered == l.delivered + QueuedNumbers(l)
  {
  }

  // The queued records of a log: each accepted record with its number modulo 2^32.
  ghost function Numbered(l: Log): (r: seq<QueuedLogRecord>)
    requires First(l) >= 0
    ensures |r| == l.count
    ensures forall k :: 0 <= k < |r| ==> r[k] == Queued(l.accepted[First(l) + k], (First(l) + k) % WRAP)
  {
    seq(l.count, k requires 0 <= k < l.count => Queued(l.accepted[First(l) + k], (First(l) + k) % WRAP))
  }

  lemma NumberedAfterAccept(l: Log, c: Content)
    requires First(l) >= 0 && l.count <= LOG_QUEUE_SIZE
    ensures var kept := if l.count == LOG_QUEUE_SIZE then Numbered(l)[1..] else Numbered(l);
            Numbered(Next(l, Accept(c))) == kept + [Queued(c, |l.accepted| % WRAP)]
  {
    var l' := Next(l, Accept(c));
    assert Numbered(l')[l'.count - 1] == Queued(c, |l.accepted| % WRAP);
  }

  lemma NumberedAfterPop(l: Log)
    requires First(l) >= 0 && l.count > 0
    ensures Numbered(l.(count := l.count - 1)) == Numbered(l)[1..]
  {
  }

  // Position of the k-th queued record in the ring.
  function Pos(head: nat, k: nat): (i: nat)
    ensures i < LOG_QUEUE_SIZE
  {
    (head + k) % LOG_QUEUE_SIZE
  }

  // n records of the ring, from head on.
  function RingFrom(head: nat, ring: seq<QueuedLogRecord>, n: nat): (r: seq<QueuedLogRecord>)
    requires |ring| == LOG_QUEUE_SIZE
    ensures |r| == n && forall k :: 0 <= k < n ==> r[k] == ring[Pos(head, k)]
  {
    seq(n, k requires 0 <= k < n => ring[Pos(head, k)])
  }

  lemma PosDistinct(head: nat, j: nat, k: nat)
    requires head < LOG_QUEUE_SIZE && j < k < LOG_QUEUE_SIZE
    ensures Pos(head, j) != Pos(head, k)
  {
  }

  lemma PosShift(head: nat, k: nat)
    requires head < LOG_QUEUE_SIZE
    ensures Pos(Pos(head, 1), k) == Pos(head, k + 1)
  {
  }

  class BufferedLogTransport {
    const queue: array<QueuedLogRecord>
    var head: nat
    var count: nat
    var dropped: uint32
    var nextSequence: uint32
    ghost var log: Log
    ghost var trace: seq<Action>

    ghost predicate Shaped()
      reads this`head, this`count
    {
      queue.Length == LOG_QUEUE_SIZE && head < LOG_QUEUE_SIZE && count <= LOG_QUEUE_SIZE
    }

    // The records in the ring, oldest first.
    ghost function Contents(): (r: seq<QueuedLogRecord>)
      requires Shaped()
      reads this`head, this`count, queue
      ensures |r| == count
      ensures forall k :: 0 <= k < |r| ==> r[k] == queue[Pos(head, k)]
    {
      RingFrom(head, queue[..], count)
    }

    // The log is the outcome of the steps so far, and the ring holds its queued records.
    ghost predicate Valid()
      reads this, queue
    {
      && log == After(EMPTY, trace)
      && Shaped() && 0 <= First(log) && count == log.count && dropped == log.dropped
      && nextSequence == |log.accepted| % WRAP
      && Contents() == Numbered(log)
    }

    constructor (blank: Content)
      ensures Valid() && trace == [] && log == EMPTY && fresh(queue)
    {
      queue := new QueuedLogRecord[LOG_QUEUE_SIZE](_ => Queued(blank, 0));
      head, count, dropped, nextSequence, log, trace := 0, 0, 0, 0, EMPTY, [];
    }

    // ---------- the ring ----------

    method DropHead()
      requires Shaped() && count > 0
      modifies this`head, this`count
      ensures Shaped() && Contents() == old(Contents())[1..]
    {
      var oldHead := head;
      head := (head + 1) % LOG_QUEUE_SIZE;
      count := count - 1;
      forall k: nat | k < count
        ensures Contents()[k] == old(Contents())[k + 1]
      {
        PosShift(oldHead, k);
      }
    }

    method Append(record: QueuedLogRecord)
      requires Shaped() && count < LOG_QUEUE_SIZE
      modifies this`count, queue
      ensures Shaped() && Contents() == old(Contents()) + [record]
    {
      queue[(head + count) % LOG_QUEUE_SIZE] := record;
      count := count + 1;
      forall k: nat | k < count - 1
        ensures Contents()[k] == old(Contents())[k]
      {
        PosDistinct(head, k, count - 1);
      }
    }

    // ---------- critical sections ----------

    ghost method Record(a: Action)
      requires log == After(EMPTY, trace) && First(log) >= 0
      modifies this`log, this`trace
      ensures log == After(EMPTY, trace) && log == Next(old(log), a) && trace == old(trace) + [a]
    {
      AfterSnoc(EMPTY, trace, a);
      log := Next(log, a);
      trace := trace + [a];
    }

    // sendOrQueue, for an event that passed its checks
    method Enqueue(content: Content)
      requires Valid()
      modifies this, queue
      ensures Valid() && trace == old(trace) + [Accept(content)] && log == Next(old(log), Accept(content))
    {
      NumberedAfterAccept(log, content);
      SuccModWrap(|log.accepted|);
      if count == LOG_QUEUE_SIZE {
        DropHead();
        dropped := (dropped + 1) % WRAP;
      }
      Append(Queued(content, nextSequence));
      nextSequence := (nextSequence + 1) % WRAP;
      Record(Accept(content));
    }

    // flushQueue: read the head, if there is one
    method Peek() returns (available: bool, record: QueuedLogRecord)
      requires Valid() && log.consumer.Idle?
      modifies this`log, this`trace
      ensures Valid() && trace == old(trace) + [BeginSend] && available == log.consumer.Sending?
      ensures available ==>
                record.sequence == log.consumer.index % WRAP && record.content == log.accepted[log.consumer.index]
      ensures available == (count > 0) && (!available ==> log.consumer.Idle?)
    {
      available := count != 0;
      record := queue[head];
      assert available ==> record == Contents()[0];
      Record(BeginSend);
    }

    // flushQueue: after a send, remove the head unless another record has taken its place
    method Pop(sequence: uint32)
      requires Valid() && log.consumer.Sent? && sequence == log.consumer.index % WRAP
      modifies this`head, this`count, this`log, this`trace
      ensures Valid() && trace == old(trace) + [Finish] && log.consumer.Idle?
    {
      ghost var l := log;
      Record(Finish);
      if count > 0 {
        assert queue[head] == Numbered(l)[0] by { assert queue[head] == old(Contents())[0]; }
        if queue[head].sequence == sequence {
          NumberedAfterPop(l);
          DropHead();
        }
      }
    }

    method ReadDropped() returns (lost: uint32)
      requires Valid() && log.consumer.Idle?
      modifies this`log, this`trace
      ensures Valid() && trace == old(trace) + [BeginNotice]
      ensures lost == old(dropped) && log.consumer == if lost == 0 then Idle else Noticing(lost)
    {
      lost := dropped;
      Record(BeginNotice);
    }

    method SubtractDropped(lost: uint32)
      requires Valid() && log.consumer == Noticing(lost)
      modifies this`dropped, this`log, this`trace
      ensures Valid() && trace == old(trace) + [EndNotice(true)] && log.consumer.Idle?
    {
      dropped := (dropped - lost) % WRAP;
      Record(EndNotice(true));
    }

    // Other tasks queue records while the lock is free.
    method Interfere(cs: seq<Content>)
      requires Valid()
      modifies this, queue
      ensures Valid() && log.consumer == old(log.consumer) && trace == old(trace) + Accepts(cs)
      ensures count > 0 <==> old(count) > 0 || cs != []
    {
      for i := 0 to |cs|
        invariant Valid() && log.consumer == old(log.consumer) && trace == old(trace) + Accepts(cs[..i])
        invariant count > 0 <==> old(count) > 0 || i > 0
      {
        Enqueue(cs[i]);
        assert Accepts(cs[..i + 1]) == Accepts(cs[..i]) + [Accept(cs[i])];
      }
      assert cs[..|cs|] == cs;
    }

    // ---------- the consumer ----------

    // Report the number of lost records. Other tasks queue `during` while the notice is sent.
    method SendDroppedNotice(during: seq<Content>, sent: bool) returns (ok: bool)
      requires Valid() && log.consumer.Idle?
      modifies this, queue
      ensures Valid() && log.consumer.Idle? && trace == old(trace) + NoticeSteps(old(dropped), during, sent)
      ensures ok <==> old(dropped) == 0 || sent
    {
      var lost := ReadDropped();
      if lost == 0 { return true; }
      Interfere(during);
      EndDroppedNotice(lost, sent);
      ConcatAssociative(old(trace), [BeginNotice], Accepts(during), [EndNotice(sent)]);
      assert [BeginNotice] + Accepts(during) + [EndNotice(sent)] ==
             [BeginNotice] + (Accepts(during) + [EndNotice(sent)]);
      ok := sent;
    }

    method EndDroppedNotice(lost: uint32, sent: bool)
      requires Valid() && log.consumer == Noticing(lost)
      modifies this`dropped, this`log, this`trace
      ensures Valid() && log.consumer.Idle? && trace == old(trace) + [EndNotice(sent)]
    {
      if sent {
        SubtractDropped(lost);
      } else {
        Record(EndNotice(false));
      }
    }

    // One round: read the head, send it with the lock released, remove it if it is still the head.
    method SendHead(turn: Turn) returns (more: bool)
      requires Valid() && log.consumer.Idle?
      modifies this, queue
      ensures Valid() && log.consumer.Idle? && trace == old(trace) + RoundSteps(old(log), turn)
      ensures more <==> Available(old(log), turn) && turn.sent
    {
      Interfere(turn.before);
      var available, record := Peek();
      if !available { return false; }
      more := Send(record, turn);
      ConcatAssociative(old(trace), Accepts(turn.before), [BeginSend], SendSteps(turn));
    }

    method Send(record: QueuedLogRecord, turn: Turn) returns (more: bool)
      requires Valid() && log.consumer.Sending? && record.sequence == log.consumer.index % WRAP
      modifies this, queue
      ensures Valid() && log.consumer.Idle? && trace == old(trace) + SendSteps(turn) && more == turn.sent
    {
      Interfere(turn.during);
      EndSending(turn.sent);
      if !turn.sent { return false; }
      Pop(record.sequence);
      ConcatAssociative(old(trace), Accepts(turn.during), [EndSend(true)], [Finish]);
      more := true;
    }

    ghost method EndSending(sent: bool)
      requires Valid() && log.consumer.Sending?
      modifies this`log, this`trace
      ensures Valid() && trace == old(trace) + [EndSend(sent)]
      ensures if sent then log.consumer == Sent(old(log).consumer.index, old(log).consumer.since)
              else log.consumer.Idle?
    {
      Record(EndSend(sent));
    }

    // The whole flush, with producers at work wherever the lock is free: one of the interleavings of RunKeeps.
    method FlushQueue(noticeDuring: seq<Content>, noticeSent: bool, turns: seq<Turn>)
      requires Valid() && log.consumer.Idle? && |turns| == LOG_QUEUE_SIZE
      modifies this, queue
      ensures Valid() && log.consumer.Idle?
      ensures var notice := NoticeSteps(old(dropped), noticeDuring, noticeSent);
              trace == if old(dropped) == 0 || noticeSent
                       then FlushSteps(After(old(log), notice), turns, old(trace) + notice)
                       else old(trace) + notice
      ensures FlushOutcome(old(log), log, noticeDuring, noticeSent, turns)
    {
      FlushMeans(log, trace, noticeDuring, noticeSent, turns);
      AfterAppend(EMPTY, trace, NoticeSteps(dropped, noticeDuring, noticeSent));
      var ok := SendDroppedNotice(noticeDuring, noticeSent);
      if ok {
        SendRounds(turns);
      }
    }

    method SendRounds(turns: seq<Turn>)
      requires Valid() && log.consumer.Idle? && |turns| == LOG_QUEUE_SIZE
      modifies this, queue
      ensures Valid() && log.consumer.Idle? && trace == FlushSteps(old(log), turns, old(trace))
    {
      for budget := 0 to LOG_QUEUE_SIZE
        invariant Valid() && log.consumer.Idle?
        invariant FlushSteps(old(log), turns, old(trace)) == FlushSteps(log, turns[budget..], trace)
      {
        if !turns[budget].connected { return; }
        AfterAppend(EMPTY, trace, RoundSteps(log, turns[budget]));
        assert turns[budget..][1..] == turns[budget + 1..];
        var more := SendHead(turns[budget]);
        if !more { return; }
      }
    }
  }
}
