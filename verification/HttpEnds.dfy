/** Whatever arrives, a fetch that is polled ends. */
module HttpEnds {
  import opened Machine
  import opened Http

  /** Between polls: the last poll was before the deadline, and every query was an attempt. */
  predicate Ticking(h: Fetch, now: nat) {
    && h.queries <= MAX_ATTEMPTS
    && (Running(h) ==> now < h.deadline)
    && (h.phase.Resolving? ==> h.queries == h.attempt + 1)
  }

  /** The most ticks the fetch can still take. */
  function Budget(h: Fetch, now: nat): int {
    match h.phase
    case Resolving => (MAX_ATTEMPTS - h.queries) * DNS_TIMEOUT + TCP_TIMEOUT + RECV_TIMEOUT + h.deadline - now
    case Joining => RECV_TIMEOUT + h.deadline - now
    case Receiving => h.deadline - now
    case _ => 0
  }

  /** Every poll at a later tick spends budget, whatever packets it finds. */
  lemma PollSpends(h: Fetch, now: nat, v: Visit)
    requires Running(h) && Ticking(h, now) && v.now > now
    ensures var d := Poll(h, v);
      && Ticking(d, v.now) && 0 <= Budget(d, v.now) < Budget(h, now)
      && (Running(d) <==> Answer(h, v) == 0)
  {
    hide TakeAll, BodyOf;
    TakeAllKeeps(h, v.batch);
  }

  predicate Advancing(now: nat, vs: seq<Visit>)
    decreases |vs|
  {
    vs == [] || (now < vs[0].now && Advancing(vs[0].now, vs[1..]))
  }

  predicate EveryTick(now: nat, vs: seq<Visit>) {
    forall i :: 0 <= i < |vs| ==> vs[i].now == now + 1 + i
  }

  lemma {:induction false} EndsWithin(h: Fetch, now: nat, vs: seq<Visit>)
    requires Running(h) && Ticking(h, now) && Advancing(now, vs) && |vs| >= Budget(h, now)
    ensures Pending(Answers(h, vs)) < Budget(h, now)
    decreases |vs|
  {
    hide Poll, Answer, Budget, Ticking;
    BudgetPositive(h, now);
    var v := vs[0];
    PollSpends(h, now, v);
    var d := Poll(h, v);
    assert Answers(h, vs)[1..] == Answers(d, vs[1..]);
    if Running(d) {
      EndsWithin(d, v.now, vs[1..]);
    }
  }

  lemma BudgetPositive(h: Fetch, now: nat)
    requires Running(h) && Ticking(h, now)
    ensures Budget(h, now) > 0
  {
  }

  lemma StaysTicking(h: Fetch, now: nat, v: Visit)
    requires Ticking(h, now) && v.now > now
    ensures Ticking(Poll(h, v), v.now)
  {
    hide TakeAll, BodyOf;
    if Running(h) {
      PollSpends(h, now, v);
    }
  }

  lemma {:induction false} QueriesBounded(h: Fetch, now: nat, vs: seq<Visit>)
    requires Ticking(h, now) && Advancing(now, vs)
    ensures PollAll(h, vs).queries <= MAX_ATTEMPTS
    decreases |vs|
  {
    hide Poll;
    if vs != [] {
      StaysTicking(h, now, vs[0]);
      QueriesBounded(Poll(h, vs[0]), vs[0].now, vs[1..]);
    }
  }

  /** Every fetch sends at most three DNS queries and has a result within 1350 polls at advancing
      ticks, whatever packets arrive; polled every tick it ends within 3 * 150 + 300 + 600 ticks. */
  lemma FetchEnds(h: Fetch, job: Job, start: nat, vs: seq<Visit>)
    requires Advancing(start, vs)
    ensures var (s, ok) := Start(h, true, Some(job), start);
      && ok == 1 && PollAll(s, vs).queries <= 3
      && (|vs| >= 1350 ==> Pending(Answers(s, vs)) < 1350)
      && (|vs| >= 1350 && EveryTick(start, vs) ==> vs[Pending(Answers(s, vs))].now <= start + 3 * 150 + 300 + 600)
  {
    hide PollAll, Answers, Pending;
    var s := Start(h, true, Some(job), start).0;
    assert Running(s) && Ticking(s, start) && Budget(s, start) == 1350;
    QueriesBounded(s, start, vs);
    if |vs| >= 1350 {
      EndsWithin(s, start, vs);
    }
  }
}
