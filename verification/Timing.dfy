/** When a frame set is put out again: not before its time, and not long after. */
module Timing {
  import opened Frames
  import opened SendQueues
  import opened AckQueues
  import opened Links

  // ---- Stamps ----

  /** From `q` to `r`, what got a number at time `now` is stamped with it, nothing comes
      back, and whatever stays keeps the time of its stamp. */
  ghost predicate Stamped(q: SendQueue, r: SendQueue, now: nat) {
    && q.max <= r.max
    && (forall k :: k in r.timePassed && k < q.max ==> k in q.timePassed && r.timePassed[k].at == q.timePassed[k].at)
    && (forall k :: k in r.timePassed && q.max <= k ==> r.timePassed[k].at == now)
  }

  lemma AddFrameStamps(q: SendQueue, frame: Frame, now: nat)
    requires q.Consistent()
    ensures Stamped(q, q.AddFrame(frame, now), now)
  {
  }

  lemma {:induction false} AddAllStamps(q: SendQueue, frames: seq<Frame>, now: nat)
    requires q.Valid()
    ensures Stamped(q, q.AddAll(frames, now), now)
  {
    if frames != [] {
      var front := frames[..|frames| - 1];
      AddAllStamps(q, front, now);
      AddAllKeeps(q, front, now);
      AddFrameStamps(q.AddAll(front, now), frames[|frames| - 1], now);
    }
  }

  lemma CloseBatchStamps(q: SendQueue, now: nat)
    requires q.Consistent()
    ensures Stamped(q, q.CloseBatch(now), now)
  {
  }

  lemma RenumberStamps(q: SendQueue, k: nat, now: nat)
    requires q.Consistent() && k in q.queue
    ensures Stamped(q, q.Renumber(k, now), now) && q.Renumber(k, now).Consistent()
  {
  }

  lemma {:induction false} RenumberAllStamps(q: SendQueue, ks: seq<nat>, now: nat)
    requires q.Consistent()
    ensures Stamped(q, q.RenumberAll(ks, now), now)
    decreases |ks|
  {
    if ks != [] {
      if ks[0] in q.queue {
        RenumberStamps(q, ks[0], now);
        RenumberAllStamps(q.Renumber(ks[0], now), ks[1..], now);
      } else {
        RenumberAllStamps(q, ks[1..], now);
      }
    }
  }

  lemma PreparedStamps(q: SendQueue, now: nat, order: seq<nat>)
    requires q.Valid()
    ensures Stamped(q, q.Prepared(now, order), now)
  {
    CloseBatchStamps(q, now);
    CloseBatchKeeps(q, now);
    assert [] + order == order;
    RenumberAllStamps(q.CloseBatch(now).(resend := order), order, now);
  }

  lemma ResendAllStamps(q: SendQueue, ks: seq<nat>, now: nat)
    requires q.Consistent()
    ensures Stamped(q, q.ResendAll(ks, now), now)
  {
    ResendAllIsRenumberAll(q, ks, now);
    RenumberAllStamps(q, ks, now);
  }

  // ---- One emission ----

  /** The overdue sets are those that were emitted, are still queued, and got their number
      more than 1000 ms ago. */
  lemma OverdueIff(q: SendQueue, now: nat, k: nat)
    requires q.Valid()
    ensures k in q.Expired(now) <==> k < q.sendMin && k in q.queue && now - q.timePassed[k].at > 1000
  {
  }

  /** Of the sets emitted before, an emission at `now` leaves exactly those under their
      numbers that are still queued and got their number at most 1000 ms ago. All others
      that are queued leave their numbers, and go out again. */
  lemma StaysIff(q: SendQueue, now: nat, order: seq<nat>, k: nat)
    requires q.Valid() && Enumerates(order, q.CloseBatch(now).Expired(now)) && k < q.sendMin
    ensures k in q.Prepared(now, order).queue <==> k in q.queue && now - q.timePassed[k].at <= 1000
    ensures k in q.Prepared(now, order).queue ==> q.Prepared(now, order).queue[k] == q.queue[k]
  {
    NotOverdueStays(q, now, order, k);
    OverdueIff(q, now, k);
  }

  /** How many sets an emission holds: those that wait, one more if there is a batch, and the
      overdue ones. */
  lemma EmissionSize(q: SendQueue, now: nat, order: seq<nat>)
    requires q.Valid() && Enumerates(order, q.CloseBatch(now).Expired(now))
    ensures Enumerates(order, q.Expired(now)) && q.Prepared(now, order).Valid()
    ensures |q.Prepared(now, order).Emission()| == q.max - q.sendMin + (if q.setQueue == [] then 0 else 1) + |order|
  {
    PreparedIsValid(q, now, order);
    OverdueIsOld(q, now, order);
  }

  lemma NothingOverdueIff(q: SendQueue, now: nat, order: seq<nat>)
    requires q.Valid() && q.sendMin == q.max && Enumerates(order, q.Expired(now))
    ensures order == [] <==> forall k :: k in q.queue ==> now - q.timePassed[k].at <= 1000
  {
    forall k | k in q.queue
      ensures k in order <==> now - q.timePassed[k].at > 1000
    {
      OverdueIff(q, now, k);
    }
    if order != [] {
      OverdueIff(q, now, order[0]);
      assert order[0] in order;
    }
  }

  /** Exactly when a flush emits nothing: nothing waits, the batch is empty, and no set got
      its number more than 1000 ms ago. */
  lemma FlushIsQuietIff(q: SendQueue, now: nat, order: seq<nat>)
    requires q.Valid() && Enumerates(order, q.CloseBatch(now).Expired(now))
    ensures q.Prepared(now, order).Valid()
    ensures q.Prepared(now, order).Emission() == [] <==>
      q.sendMin == q.max && q.setQueue == [] && forall k :: k in q.queue ==> now - q.timePassed[k].at <= 1000
  {
    EmissionSize(q, now, order);
    if q.sendMin == q.max { NothingOverdueIff(q, now, order); }
  }

  // ---- Every run ----

  /** The time of a step that can number frame sets. */
  function TimeOf(step: Step): nat {
    match step
    case SendTo(_, now) => now
    case SendSystemPacket(_, _, now) => now
    case Flush(now, _) => now
    case DeliverControl(_, now) => now
    case _ => 0
  }

  lemma FlushStamps(q: SendQueue, now: nat, order: seq<nat>)
    requires q.Valid() && Enumerates(order, q.CloseBatch(now).Expired(now))
    ensures Stamped(q, q.Prepared(now, order).Emitted(), now)
  {
    PreparedIsValid(q, now, order);
    PreparedStamps(q, now, order);
  }

  lemma AckStamps(q: SendQueue, ks: seq<nat>, now: nat)
    requires q.Consistent()
    ensures Stamped(q, q.ReceivedAll(ks), now)
  {
    ReceivedAllIsWithout(q, ks);
  }

  /** In every possible step of a direction, a set that gets a number is stamped with the
      time of the step, and a set that keeps its number keeps its stamp. */
  lemma StepStamps(l: Link, step: Step)
    requires Inv(l) && Possible(l, step) && Safe(l, step)
    ensures Stamped(l.tx.queue, Next(l, step).tx.queue, TimeOf(step))
  {
    match step
    case SendTo(buff, now) => AddAllStamps(l.tx.queue, l.tx.MessageFor(buff), now);
    case SendSystemPacket(buff, reliability, now) =>
      AddFrameStamps(l.tx.queue, l.tx.WholeFrame(reliability, buff), now);
    case Flush(now, order) => FlushStamps(l.tx.queue, now, order);
    case DeliverControl(AckOf(range), now) => AckStamps(l.tx.queue, Numbers(range), now);
    case DeliverControl(NackOf(range), now) => ResendAllStamps(l.tx.queue, Numbers(range), now);
    case _ =>
  }

  /** The step is no flush more than 1000 ms after `at`, and no feedback about `k`. */
  ghost predicate LeavesAlone(step: Step, k: nat, at: nat) {
    match step
    case Flush(now, _) => now - at <= 1000
    case DeliverControl(c, _) => !c.Covers(k)
    case _ => true
  }

  /** Set `d` was emitted under number `k`, which it got at time `at`. */
  ghost predicate Holds(q: SendQueue, k: nat, d: FrameSet, at: nat) {
    k < q.sendMin && k in q.queue && k in q.timePassed && q.queue[k] == d && q.timePassed[k].at == at
  }

  lemma SendHolds(q: SendQueue, frames: seq<Frame>, now: nat, k: nat, d: FrameSet, at: nat)
    requires q.Valid() && Holds(q, k, d, at)
    ensures Holds(q.AddAll(frames, now), k, d, at)
  {
    AddAllKeeps(q, frames, now);
    AddAllStamps(q, frames, now);
  }

  lemma FlushHolds(q: SendQueue, now: nat, order: seq<nat>, k: nat, d: FrameSet, at: nat)
    requires q.Valid() && Enumerates(order, q.CloseBatch(now).Expired(now)) && Holds(q, k, d, at) && now - at <= 1000
    ensures q.Prepared(now, order).Valid() && Holds(q.Prepared(now, order).Emitted(), k, d, at)
  {
    PreparedIsValid(q, now, order);
    StaysIff(q, now, order, k);
    PreparedStamps(q, now, order);
  }

  lemma AckHolds(q: SendQueue, range: Range, k: nat, d: FrameSet, at: nat)
    requires q.Valid() && Holds(q, k, d, at) && !(range.0 <= k <= range.1)
    ensures Holds(q.ReceivedAll(Numbers(range)), k, d, at)
  {
    NumbersHas(range, k);
    ReceivedAllIsWithout(q, Numbers(range));
  }

  lemma NackHolds(q: SendQueue, range: Range, now: nat, k: nat, d: FrameSet, at: nat)
    requires q.Valid() && Holds(q, k, d, at) && !(range.0 <= k <= range.1)
    requires forall j :: j in Numbers(range) ==> j < q.sendMin
    ensures Holds(q.ResendAll(Numbers(range), now), k, d, at)
  {
    var ks := Numbers(range);
    NumbersHas(range, k);
    ResendAllIsRenumberAll(q, ks, now);
    RenumberAllEffect(q, ks, now);
    PickedIs(ks, q.queue.Keys);
    ResendAllStamps(q, ks, now);
  }

  lemma StepHolds(l: Link, step: Step, k: nat, d: FrameSet, at: nat)
    requires Inv(l) && Possible(l, step) && Safe(l, step) && Holds(l.tx.queue, k, d, at) && LeavesAlone(step, k, at)
    ensures Holds(Next(l, step).tx.queue, k, d, at)
  {
    match step
    case SendTo(buff, now) => SendHolds(l.tx.queue, l.tx.MessageFor(buff), now, k, d, at);
    case SendSystemPacket(buff, reliability, now) =>
      AddAllOne(l.tx.queue, l.tx.WholeFrame(reliability, buff), now);
      SendHolds(l.tx.queue, [l.tx.WholeFrame(reliability, buff)], now, k, d, at);
    case Flush(now, order) => FlushHolds(l.tx.queue, now, order, k, d, at);
    case DeliverControl(AckOf(range), _) => AckHolds(l.tx.queue, range, k, d, at);
    case DeliverControl(NackOf(range), now) =>
      ControlCovers(l, NackOf(range));
      NackHolds(l.tx.queue, range, now, k, d, at);
    case _ =>
  }

  /** Over every run: a set that was emitted stays under its number, and so is not emitted
      again, as long as no feedback names it and no flush comes more than 1000 ms after
      the set got its number. */
  lemma {:induction false} NotBeforeItsTime(l: Link, steps: seq<Step>, l': Link, k: nat, d: FrameSet, at: nat)
    requires Reachable(l) && Reaches(l, steps, l') && Holds(l.tx.queue, k, d, at)
    requires forall step :: step in steps ==> LeavesAlone(step, k, at)
    ensures Holds(l'.tx.queue, k, d, at)
    decreases |steps|
  {
    if steps != [] {
      assert steps[0] in steps && forall step :: step in steps[1..] ==> step in steps;
      ReachableInv(l);
      ReachableNext(l, steps[0]);
      StepHolds(l, steps[0], k, d, at);
      NotBeforeItsTime(Next(l, steps[0]), steps[1..], l', k, d, at);
    }
  }

  lemma PreparedHolds(q: SendQueue, t: nat, order: seq<nat>, k: nat)
    requires q.Valid() && Enumerates(order, q.CloseBatch(t).Expired(t)) && q.max <= k < q.Prepared(t, order).max
    ensures var p := q.Prepared(t, order);
            p.Valid() && p.sendMin <= k && k in p.queue && Holds(p.Emitted(), k, p.queue[k], t)
  {
    PreparedIsValid(q, t, order);
    PreparedStamps(q, t, order);
  }

  lemma EmittedHas(emitted: seq<FrameSet>, p: SendQueue, k: nat)
    requires |emitted| == p.sendMin <= k < p.max && p.Window()
    ensures k < |emitted + p.Emission()| && (emitted + p.Emission())[k] == p.queue[k]
    ensures p.queue[k] in Elems(p.Emission())
  {
    EmissionAt(p, k);
    assert p.Emission()[k - p.sendMin] in p.Emission();
  }

  /** A set that a flush at time `t` numbers, be it the closed batch or one that is put out
      again, is emitted by that flush and carries its time. */
  lemma FlushNumbers(l: Link, t: nat, order: seq<nat>, k: nat)
    requires Reachable(l) && Possible(l, Flush(t, order))
    requires l.tx.queue.max <= k < l.tx.queue.Prepared(t, order).max
    ensures Safe(l, Flush(t, order))
    ensures var m := Next(l, Flush(t, order));
            && Reachable(m) && k < |m.emitted| && m.emitted[k] in m.datagrams
            && Holds(m.tx.queue, k, m.emitted[k], t)
  {
    ReachableInv(l);
    ReachableNext(l, Flush(t, order));
    PreparedIsValid(l.tx.queue, t, order);
    PreparedHolds(l.tx.queue, t, order, k);
    EmittedHas(l.emitted, l.tx.queue.Prepared(t, order), k);
  }

  /** So such a set is not emitted again by timeout before `t + 1001`. */
  lemma FlushedStays(l: Link, t: nat, order: seq<nat>, k: nat, steps: seq<Step>, l': Link)
    requires Reachable(l) && Possible(l, Flush(t, order)) && Safe(l, Flush(t, order))
    requires l.tx.queue.max <= k < l.tx.queue.Prepared(t, order).max
    requires Reaches(Next(l, Flush(t, order)), steps, l')
    requires forall step :: step in steps ==> LeavesAlone(step, k, t)
    ensures k < |Next(l, Flush(t, order)).emitted| && Holds(l'.tx.queue, k, Next(l, Flush(t, order)).emitted[k], t)
  {
    FlushNumbers(l, t, order, k);
    var m := Next(l, Flush(t, order));
    NotBeforeItsTime(m, steps, l', k, m.emitted[k], t);
  }

  /** A fragment queued at time 0, before and after its emission. */
  function Waiting(f: Frame): SendQueue {
    SendQueue(map[0 := FrameSet(0x8c, 0, [f])], map[0 := Stamp(0, false)], 1, 0, [], 0, [], 1400)
  }

  function Outstanding(f: Frame): SendQueue {
    SendQueue(map[0 := FrameSet(0x8c, 0, [f])], map[0 := Stamp(0, true)], 1, 1, [], 0, [], 1400)
  }

  lemma FirstEmission(f: Frame)
    requires f.split
    ensures EmptyQueue(1400).AddFrame(f, 0) == Waiting(f)
    ensures Waiting(f).Valid() && Enumerates([], Waiting(f).CloseBatch(1001).Expired(1001))
    ensures Waiting(f).Prepared(1001, []) == Waiting(f) && Waiting(f).Emission() == [FrameSet(0x8c, 0, [f])]
    ensures Waiting(f).Emitted() == Outstanding(f)
  {
  }

  lemma OutstandingIsOverdue(f: Frame)
    ensures Outstanding(f).Valid() && Enumerates([0], Outstanding(f).CloseBatch(1002).Expired(1002))
  {
    assert Outstanding(f).Expired(1002) == {0};
  }

  lemma SecondEmission(f: Frame)
    ensures var p := Outstanding(f).Prepared(1002, [0]);
            p.Valid() && p.Emission() == [FrameSet(0x8c, 1, [f])]
  {
    var q := Outstanding(f);
    assert [0][1..] == [] && [] + [0] == [0];
    OutstandingIsOverdue(f);
    PreparedIsValid(q, 1002, [0]);
    assert q.Prepared(1002, [0]).queue == map[1 := FrameSet(0x8c, 1, [f])];
  }

  /** A set that waited for its first emission carries the time at which it was queued, not
      that of the emission, so it can go out again at once: a fragment queued at 0 and
      emitted at 1001 is emitted again at 1002. */
  lemma WaitingSetGoesOutAgain(f: Frame)
    requires f.split
    ensures var p := EmptyQueue(1400).AddFrame(f, 0).Prepared(1001, []);
            && p.Valid() && p.Emission() == [FrameSet(0x8c, 0, [f])]
            && Enumerates([0], p.Emitted().CloseBatch(1002).Expired(1002))
            && p.Emitted().Prepared(1002, [0]).Valid()
            && p.Emitted().Prepared(1002, [0]).Emission() == [FrameSet(0x8c, 1, [f])]
  {
    FirstEmission(f);
    OutstandingIsOverdue(f);
    SecondEmission(f);
  }
}
