/** No reachable state is a dead end: as soon as the network carries one round of
    datagrams and acknowledgements, the sending queue empties. */
module Progress {
  import opened Frames
  import opened SendQueues
  import opened AckQueues
  import opened Links
  import opened Guarantees

  /** The sender does nothing but handle what comes back. */
  ghost predicate OnlyCarries(steps: seq<Step>) {
    forall step :: step in steps ==> step.Deliver? || step.FlushAck? || step.DeliverControl?
  }

  /** Some further run leads from `l` to `r`, in which the network carries what is on it,
      and the receiver reports. */
  ghost predicate Leads(l: Link, r: Link) {
    exists steps :: OnlyCarries(steps) && Reaches(l, steps, r)
  }

  lemma LeadsNext(l: Link, step: Step)
    requires Reachable(l) && Possible(l, step) && OnlyCarries([step])
    ensures Safe(l, step) && Leads(l, Next(l, step)) && Reachable(Next(l, step))
  {
    ReachableNext(l, step);
    ReachesOne(l, step);
  }

  lemma LeadsNowhere(l: Link)
    ensures Leads(l, l)
  {
    assert Reaches(l, [], l);
  }

  lemma LeadsJoin(l: Link, m: Link, r: Link)
    requires Leads(l, m) && Leads(m, r)
    ensures Leads(l, r)
  {
    var a :| OnlyCarries(a) && Reaches(l, a, m);
    var b :| OnlyCarries(b) && Reaches(m, b, r);
    ReachesJoin(l, a, m, b, r);
  }

  lemma Enumerate(s: set<nat>) returns (order: seq<nat>)
    ensures Enumerates(order, s)
    decreases |s|
  {
    if s == {} {
      order := [];
    } else {
      var x :| x in s;
      var rest := Enumerate(s - {x});
      order := rest + [x];
    }
  }

  /** Some time is later than every stamp by more than the resend delay. */
  lemma LateEnough(timePassed: map<nat, Stamp>, n: nat) returns (now: nat)
    ensures forall k :: k < n && k in timePassed ==> now - timePassed[k].at > RESEND_MILLIS
  {
    if n == 0 {
      now := 0;
    } else {
      now := LateEnough(timePassed, n - 1);
      if n - 1 in timePassed && now <= timePassed[n - 1].at + RESEND_MILLIS {
        now := timePassed[n - 1].at + RESEND_MILLIS + 1;
      }
    }
  }

  ghost predicate AllLate(q: SendQueue, now: nat) {
    forall k :: k < q.max && k in q.timePassed ==> now - q.timePassed[k].at > RESEND_MILLIS
  }

  /** An emission late enough leaves nothing in the queue under an old number. */
  lemma LateEmission(q: SendQueue, now: nat, order: seq<nat>, k: nat)
    requires q.Valid() && Enumerates(order, q.CloseBatch(now).Expired(now))
    requires AllLate(q, now) && k < q.sendMin
    ensures k !in q.Prepared(now, order).queue
  {
    NotOverdueStays(q, now, order, k);
    if k in q.queue { assert q.IsExpired(k, now); }
  }

  lemma LateFlush(l: Link, now: nat, order: seq<nat>)
    requires Inv(l) && Possible(l, Flush(now, order)) && Safe(l, Flush(now, order)) && AllLate(l.tx.queue, now)
    ensures var r := Next(l, Flush(now, order));
            && r.tx.queue.setQueue == [] && |l.emitted| <= |r.emitted|
            && (forall k :: k in r.tx.queue.queue ==> |l.emitted| <= k)
            && (forall k :: |l.emitted| <= k < |r.emitted| ==> r.emitted[k] in r.datagrams)
  {
    var q, r := l.tx.queue, Next(l, Flush(now, order));
    PreparedIsValid(q, now, order);
    forall k | k in r.tx.queue.queue
      ensures |l.emitted| <= k
    {
      if k < q.sendMin { LateEmission(q, now, order, k); }
    }
  }

  /** Step one: everything outstanding is emitted under numbers the receiver has not
      accounted for yet. */
  lemma EmitEverything(l: Link) returns (now: nat, order: seq<nat>, r: Link)
    requires Reachable(l)
    ensures Possible(l, Flush(now, order)) && Safe(l, Flush(now, order))
    ensures r == Next(l, Flush(now, order)) && Reachable(r)
    ensures r.sent == l.sent && r.rx == l.rx && r.tx.queue.setQueue == []
    ensures l.rx.acks.lowest <= |l.emitted|
    ensures |l.emitted| <= |r.emitted|
    ensures forall k :: k in r.tx.queue.queue ==> |l.emitted| <= k < |r.emitted|
    ensures forall k :: |l.emitted| <= k < |r.emitted| ==> r.emitted[k] in r.datagrams
  {
    ReachableInv(l);
    var q := l.tx.queue;
    now := LateEnough(q.timePassed, q.max);
    order := Enumerate(q.CloseBatch(now).Expired(now));
    ReachableNext(l, Flush(now, order));
    LateFlush(l, now, order);
    r := Next(l, Flush(now, order));
    ReachableInv(r);
  }

  lemma AckAdds(acks: AckState, s: nat)
    requires acks.Valid() && acks.lowest <= s
    ensures s in acks.Add(s).store && acks.Add(s).lowest == acks.lowest
    ensures forall x :: x in acks.store ==> x in acks.Add(s).store
  {
  }

  lemma DeliverOne(l: Link, s: nat) returns (m: Link)
    requires Reachable(l) && s < |l.emitted| && l.emitted[s] in l.datagrams && l.rx.acks.lowest <= s
    ensures Leads(l, m) && Reachable(m)
    ensures m.tx == l.tx && m.sent == l.sent && m.emitted == l.emitted && m.datagrams == l.datagrams
    ensures m.rx.acks.lowest == l.rx.acks.lowest && s in m.rx.acks.store
    ensures forall k :: k in l.rx.acks.store ==> k in m.rx.acks.store
  {
    LeadsNext(l, Deliver(l.emitted[s]));
    m := Next(l, Deliver(l.emitted[s]));
    ReachableInv(l);
    MatchesDeliver(l, l.emitted[s]);
    AckAdds(l.rx.acks, s);
  }

  /** Step two: the network delivers the datagrams numbered `lo` up to `hi`. */
  lemma {:induction false} DeliverRange(l: Link, lo: nat, hi: nat) returns (r: Link)
    requires Reachable(l) && lo <= hi <= |l.emitted| && l.rx.acks.lowest <= lo
    requires forall k :: lo <= k < hi ==> l.emitted[k] in l.datagrams
    ensures Leads(l, r) && Reachable(r) && r.tx == l.tx && r.sent == l.sent
    ensures forall k :: lo <= k < hi ==> k in r.rx.acks.store
    ensures forall k :: k in l.rx.acks.store ==> k in r.rx.acks.store
    decreases hi - lo
  {
    if lo == hi {
      r := l;
      LeadsNowhere(l);
    } else {
      var m := DeliverOne(l, lo);
      r := DeliverRange(m, lo + 1, hi);
      LeadsJoin(l, m, r);
    }
  }

  lemma AckClears(q: SendQueue, range: Range)
    requires q.Valid() && forall k :: k in Numbers(range) ==> k < q.sendMin
    ensures q.ReceivedAll(Numbers(range)).setQueue == q.setQueue
    ensures forall k :: k in q.ReceivedAll(Numbers(range)).queue ==> k in q.queue && !(range.0 <= k <= range.1)
  {
    ReceivedAllEffect(q, Numbers(range));
    forall k | k in q.queue && range.0 <= k <= range.1
      ensures k in Numbers(range)
    {
      NumbersHas(range, k);
    }
  }

  lemma AckOne(l: Link, range: Range) returns (m: Link)
    requires Reachable(l) && AckOf(range) in l.controls
    ensures Leads(l, m) && Reachable(m)
    ensures m.sent == l.sent && m.controls == l.controls && m.tx.queue.setQueue == l.tx.queue.setQueue
    ensures forall k :: k in m.tx.queue.queue ==> k in l.tx.queue.queue && !(range.0 <= k <= range.1)
  {
    LeadsNext(l, DeliverControl(AckOf(range), 0));
    m := Next(l, DeliverControl(AckOf(range), 0));
    ReachableInv(l);
    ControlCovers(l, AckOf(range));
    AckClears(l.tx.queue, range);
  }

  lemma NamesFront(first: Range, rest: seq<Range>, k: nat)
    ensures Names([first] + rest, k) <==> first.0 <= k <= first.1 || Names(rest, k)
  {
    var ranges := [first] + rest;
    assert ranges[0] == first && forall i :: 0 <= i < |rest| ==> ranges[i + 1] == rest[i];
    if Names(ranges, k) {
      var i :| 0 <= i < |ranges| && ranges[i].0 <= k <= ranges[i].1;
      assert i > 0 ==> rest[i - 1] == ranges[i];
    }
  }

  /** Step four: the acknowledgements come back, range by range. */
  lemma {:induction false} AckRange(l: Link, ranges: seq<Range>) returns (r: Link)
    requires Reachable(l) && forall i :: 0 <= i < |ranges| ==> AckOf(ranges[i]) in l.controls
    ensures Leads(l, r) && Reachable(r) && r.sent == l.sent
    ensures r.tx.queue.setQueue == l.tx.queue.setQueue
    ensures forall k: nat :: k in r.tx.queue.queue ==> k in l.tx.queue.queue && !Names(ranges, k)
    decreases |ranges|
  {
    if ranges == [] {
      r := l;
      LeadsNowhere(l);
    } else {
      var m := AckOne(l, ranges[0]);
      r := AckRange(m, ranges[1..]);
      LeadsJoin(l, m, r);
      assert ranges == [ranges[0]] + ranges[1..];
      forall k: nat | k in r.tx.queue.queue
        ensures k in l.tx.queue.queue && !Names(ranges, k)
      {
        NamesFront(ranges[0], ranges[1..], k);
      }
    }
  }

  /** Step three: the receiver reports all it has stored. */
  lemma ReportAll(l: Link) returns (r: Link)
    requires Reachable(l)
    ensures Leads(l, r) && Reachable(r)
    ensures r.tx == l.tx && r.sent == l.sent
    ensures forall i :: 0 <= i < |l.rx.acks.Acks()| ==> AckOf(l.rx.acks.Acks()[i]) in r.controls
    ensures forall s: nat :: s in l.rx.acks.store ==> Names(l.rx.acks.Acks(), s)
  {
    LeadsNext(l, FlushAck);
    r := Next(l, FlushAck);
    ReachableInv(l);
    RangesAreExact(l.rx.acks.store, l.rx.acks.lowest, l.rx.acks.highest);
  }

  /** Delivery can always be completed: from every reachable state one emission, and then
      a run in which nothing more is sent or emitted, empties the sending queue. */
  lemma DeliveryCanComplete(l: Link) returns (now: nat, order: seq<nat>, r: Link)
    requires Reachable(l)
    ensures Possible(l, Flush(now, order)) && Safe(l, Flush(now, order))
    ensures Leads(Next(l, Flush(now, order)), r)
    ensures Reachable(r) && r.sent == l.sent && Quiescent(r.tx.queue)
  {
    var a;
    now, order, a := EmitEverything(l);
    var b := DeliverRange(a, |l.emitted|, |a.emitted|);
    var c := ReportAll(b);
    r := AckRange(c, b.rx.acks.Acks());
    LeadsJoin(a, b, c);
    LeadsJoin(a, c, r);
    assert forall k: nat :: k in c.tx.queue.queue ==> Names(b.rx.acks.Acks(), k);
    assert r.tx.queue.queue.Keys == {};
  }

  /** So every payload sent can still be delivered, unless one of them has no frames. */
  lemma EverythingSentCanArrive(l: Link) returns (steps: seq<Step>, r: Link)
    requires Reachable(l)
    ensures Reaches(l, steps, r) && r.sent == l.sent
    ensures Data(r.delivered) == Payloads(l.sent) <==> NoneEmpty(l.sent)
  {
    var now, order;
    now, order, r := DeliveryCanComplete(l);
    var rest :| OnlyCarries(rest) && Reaches(Next(l, Flush(now, order)), rest, r);
    ReachesOne(l, Flush(now, order));
    ReachesJoin(l, [Flush(now, order)], Next(l, Flush(now, order)), rest, r);
    steps := [Flush(now, order)] + rest;
    ReachableQuiescent(r);
  }
}
