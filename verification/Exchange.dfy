/** What two sessions that exchange bytes guarantee at every point of every exchange. */
module Exchanges {
  import opened Frames
  import opened SendQueues
  import opened Sessions
  import opened Handing
  import opened Links
  import opened Guarantees
  import opened Progress
  import opened Numbering
  import opened FrameCodec
  import opened AckCodec
  import opened Endpoints
  import opened Worlds

  /** `me` does something, and is then `me'`. */
  ghost predicate Does(me: Side, peer: Side, me': Side) {
    exists act :: me.end.tx.queue.mtu >= MIN_MTU && CanAct(me, peer, act) && me' == AfterAct(me, peer, act)
  }

  /** One act of either end. */
  ghost predicate WorldStep(w: World, w': World) {
    || (Does(w.left, w.right, w'.left) && w'.right == w.right)
    || (Does(w.right, w.left, w'.right) && w'.left == w.left)
  }

  /** A history of worlds. */
  ghost predicate Exchange(ws: seq<World>) {
    |ws| > 0 && forall i :: 0 < i < |ws| ==> WorldStep(ws[i - 1], ws[i])
  }

  ghost predicate Behaviour(ws: seq<World>, leftMtu: nat, rightMtu: nat) {
    Exchange(ws) && ws[0] == World(NewSide(leftMtu), NewSide(rightMtu))
  }

  // ---- Every exchange of bytes is a run of each direction ----

  /** Both directions of a world behave as links. */
  ghost predicate Simulated(w: World) {
    exists f, g :: Represents(w.left, w.right, f, g)
  }

  lemma DoesIsSimulated(me: Side, peer: Side, f: Link, g: Link, me': Side) returns (f': Link, g': Link)
    requires Represents(me, peer, f, g) && Does(me, peer, me')
    ensures Represents(me', peer, f', g') && Onward(f, f') && Onward(g, g')
  {
    var act :| me.end.tx.queue.mtu >= MIN_MTU && CanAct(me, peer, act) && me' == AfterAct(me, peer, act);
    f', g' := ActIsLinkStep(me, peer, f, g, act);
  }

  lemma StepIsSimulated(w: World, w': World)
    requires Simulated(w) && WorldStep(w, w')
    ensures Simulated(w')
  {
    var f, g :| Represents(w.left, w.right, f, g);
    if Does(w.left, w.right, w'.left) && w'.right == w.right {
      var f', g' := DoesIsSimulated(w.left, w.right, f, g, w'.left);
    } else {
      assert Represents(w.right, w.left, g, f);
      var g', f' := DoesIsSimulated(w.right, w.left, g, f, w'.right);
      assert Represents(w'.left, w'.right, f', g');
    }
  }

  lemma NewWorldIsSimulated(leftMtu: nat, rightMtu: nat)
    requires MIN_MTU <= leftMtu <= MAX_MTU && MIN_MTU <= rightMtu <= MAX_MTU
    ensures Simulated(World(NewSide(leftMtu), NewSide(rightMtu)))
  {
    InitialReachable(leftMtu);
    InitialReachable(rightMtu);
    assert Represents(NewSide(leftMtu), NewSide(rightMtu), Initial(leftMtu), Initial(rightMtu));
  }

  lemma {:induction false} BehaviourIsSimulated(ws: seq<World>, leftMtu: nat, rightMtu: nat, i: nat)
    requires MIN_MTU <= leftMtu <= MAX_MTU && MIN_MTU <= rightMtu <= MAX_MTU
    requires Behaviour(ws, leftMtu, rightMtu) && i < |ws|
    ensures Simulated(ws[i])
  {
    if i == 0 {
      NewWorldIsSimulated(leftMtu, rightMtu);
    } else {
      BehaviourIsSimulated(ws, leftMtu, rightMtu, i - 1);
      assert WorldStep(ws[i - 1], ws[i]);
      StepIsSimulated(ws[i - 1], ws[i]);
    }
  }

  /** The run that leads to a reachable link starts with the link's own MTU. */
  lemma RunTo(l: Link) returns (steps: seq<Step>)
    requires Reachable(l)
    ensures l.tx.queue.mtu >= MIN_MTU && Reaches(Initial(l.tx.queue.mtu), steps, l)
  {
    var mtu: nat;
    mtu, steps :| mtu >= MIN_MTU && Reaches(Initial(mtu), steps, l);
    InitialReachable(mtu);
    RunPromises(Initial(mtu), steps, l);
  }

  /** Every exchange of bytes is a run of the direction from left to right and a run of the
      direction from right to left: the sessions, and everything on the network, are as
      the two runs say. */
  lemma ExchangeIsTwoRuns(ws: seq<World>, leftMtu: nat, rightMtu: nat, i: nat)
    returns (f: Link, fSteps: seq<Step>, g: Link, gSteps: seq<Step>)
    requires MIN_MTU <= leftMtu <= MAX_MTU && MIN_MTU <= rightMtu <= MAX_MTU
    requires Behaviour(ws, leftMtu, rightMtu) && i < |ws|
    ensures Represents(ws[i].left, ws[i].right, f, g)
    ensures f.tx.queue.mtu >= MIN_MTU && Reaches(Initial(f.tx.queue.mtu), fSteps, f)
    ensures g.tx.queue.mtu >= MIN_MTU && Reaches(Initial(g.tx.queue.mtu), gSteps, g)
  {
    BehaviourIsSimulated(ws, leftMtu, rightMtu, i);
    f, g :| Represents(ws[i].left, ws[i].right, f, g);
    fSteps := RunTo(f);
    gSteps := RunTo(g);
  }

  // ---- What is released ----

  lemma CarriesInOrder(l: Link, from: Side, to: Side)
    requires Carries(l, from, to)
    ensures Data(to.released) <= from.accepted && (from.whole ==> Data(to.released) <= from.given)
  {
    ReachableRelease(l);
  }

  /** Ordered delivery over bytes, in both directions at once: at every point of every
      exchange, what either end has released is a prefix of what the other has put on its
      way. */
  lemma BytesDeliverInOrder(ws: seq<World>, leftMtu: nat, rightMtu: nat, i: nat)
    requires MIN_MTU <= leftMtu <= MAX_MTU && MIN_MTU <= rightMtu <= MAX_MTU
    requires Behaviour(ws, leftMtu, rightMtu) && i < |ws|
    ensures Data(ws[i].right.released) <= ws[i].left.accepted
    ensures Data(ws[i].left.released) <= ws[i].right.accepted
  {
    BehaviourIsSimulated(ws, leftMtu, rightMtu, i);
    var f, g :| Represents(ws[i].left, ws[i].right, f, g);
    CarriesInOrder(f, ws[i].left, ws[i].right);
    CarriesInOrder(g, ws[i].right, ws[i].left);
  }

  /** In the callers' terms: at every point, an end that was given no payload of a length
      that is cut short sees, at the other end, a prefix of what it was given. */
  lemma BytesArriveWhole(ws: seq<World>, leftMtu: nat, rightMtu: nat, i: nat)
    requires MIN_MTU <= leftMtu <= MAX_MTU && MIN_MTU <= rightMtu <= MAX_MTU
    requires Behaviour(ws, leftMtu, rightMtu) && i < |ws|
    ensures ws[i].left.whole ==> Data(ws[i].right.released) <= ws[i].left.given
    ensures ws[i].right.whole ==> Data(ws[i].left.released) <= ws[i].right.given
  {
    BehaviourIsSimulated(ws, leftMtu, rightMtu, i);
    var f, g :| Represents(ws[i].left, ws[i].right, f, g);
    CarriesInOrder(f, ws[i].left, ws[i].right);
    CarriesInOrder(g, ws[i].right, ws[i].left);
  }

  lemma CarriesAll(l: Link, from: Side, to: Side)
    requires Carries(l, from, to)
    ensures Quiescent(from.end.tx.queue) ==> (Data(to.released) == from.accepted <==> !from.vanished)
  {
    if Quiescent(from.end.tx.queue) { ReachableQuiescent(l); }
  }

  /** And once one end has nothing left to send, the other has released everything that was
      put on its way, exactly when no payload was given for which no frame is sent. */
  lemma BytesDeliverAllIff(ws: seq<World>, leftMtu: nat, rightMtu: nat, i: nat)
    requires MIN_MTU <= leftMtu <= MAX_MTU && MIN_MTU <= rightMtu <= MAX_MTU
    requires Behaviour(ws, leftMtu, rightMtu) && i < |ws|
    ensures Quiescent(ws[i].left.end.tx.queue) ==>
      (Data(ws[i].right.released) == ws[i].left.accepted <==> !ws[i].left.vanished)
    ensures Quiescent(ws[i].right.end.tx.queue) ==>
      (Data(ws[i].left.released) == ws[i].right.accepted <==> !ws[i].right.vanished)
  {
    BehaviourIsSimulated(ws, leftMtu, rightMtu, i);
    var f, g :| Represents(ws[i].left, ws[i].right, f, g);
    CarriesAll(f, ws[i].left, ws[i].right);
    CarriesAll(g, ws[i].right, ws[i].left);
  }

  // ---- What is handed on ----

  /** What one end has handed on, so far: the frames without an order index as they came in,
      and besides them what its receiving queue has released. */
  ghost predicate HandsOn(s: Side) {
    && HoldsOrdered(s.end.rx.received)
    && InSequence(s.handed) == s.released
    && Unordered(s.handed) == Unordered(s.arrived)
  }

  lemma PacketHandsOn(e: Endpoint, packet: bytes, now: nat)
    requires packet != [] && HoldsOrdered(e.rx.received)
    ensures HoldsOrdered(e.Handle(packet, now).rx.received)
    ensures InSequence(e.Handed(packet)) == e.Released(packet)
    ensures Unordered(e.Handed(packet)) == Unordered(e.Brings(packet))
  {
    if RouteOf(packet[0]) == ToDatagram && DecodeFrameSet(packet).Some? {
      var s := DecodeFrameSet(packet).value;
      HandingIsExact(e.rx, s.datas);
      AcksDoNotMatter(e.rx, e.rx.acks.Add(s.sequenceNumber), s.datas);
    }
  }

  lemma ActHandsOn(me: Side, peer: Side, act: Act)
    requires me.end.tx.queue.mtu >= MIN_MTU && CanAct(me, peer, act) && HandsOn(me)
    ensures HandsOn(AfterAct(me, peer, act))
  {
    if act.DoReceive? {
      PacketHandsOn(me.end, act.packet, act.now);
      FiltersJoin(me.handed, me.end.Handed(act.packet));
      FiltersJoin(me.arrived, me.end.Brings(act.packet));
    }
  }

  lemma DoesHandsOn(me: Side, peer: Side, me': Side)
    requires Does(me, peer, me') && HandsOn(me)
    ensures HandsOn(me')
  {
    var act :| me.end.tx.queue.mtu >= MIN_MTU && CanAct(me, peer, act) && me' == AfterAct(me, peer, act);
    ActHandsOn(me, peer, act);
  }

  /** At every point of every exchange, what either end has handed on is, apart from the
      ordered stream it has released, every frame without an order index that it received,
      in the order in which they came. */
  lemma {:induction false} HandedIsExact(ws: seq<World>, leftMtu: nat, rightMtu: nat, i: nat)
    requires Behaviour(ws, leftMtu, rightMtu) && i < |ws|
    ensures HandsOn(ws[i].left) && HandsOn(ws[i].right)
  {
    if i > 0 {
      HandedIsExact(ws, leftMtu, rightMtu, i - 1);
      assert WorldStep(ws[i - 1], ws[i]);
      if Does(ws[i - 1].left, ws[i - 1].right, ws[i].left) && ws[i].right == ws[i - 1].right {
        DoesHandsOn(ws[i - 1].left, ws[i - 1].right, ws[i].left);
      } else {
        DoesHandsOn(ws[i - 1].right, ws[i - 1].left, ws[i].right);
      }
    }
  }

  lemma CarriesUnordered(l: Link, from: Side, to: Side, f: Frame)
    requires Carries(l, from, to) && HandsOn(to) && !f.reliability.IsSequencedOrOrdered()
    ensures f in to.handed ==> f in from.queued
    ensures Quiescent(from.end.tx.queue) ==> (f in to.handed <==> f in from.queued)
  {
    ReachableInv(l);
    UnorderedHas(to.handed, f);
    UnorderedHas(to.arrived, f);
    assert f in to.arrived <==> f in l.arrived;
    if f in l.given && Quiescent(l.tx.queue) {
      NothingBelow(l.tx.queue.max, f);
      NotQueuedHasArrived(l, f);
    }
  }

  /** A frame without an order index, such as a ping, that is handed on was queued by the
      peer; and once the peer has nothing left to send, every one it queued has been. */
  lemma UnorderedArrive(ws: seq<World>, leftMtu: nat, rightMtu: nat, i: nat, f: Frame)
    requires MIN_MTU <= leftMtu <= MAX_MTU && MIN_MTU <= rightMtu <= MAX_MTU
    requires Behaviour(ws, leftMtu, rightMtu) && i < |ws| && !f.reliability.IsSequencedOrOrdered()
    ensures f in ws[i].right.handed ==> f in ws[i].left.queued
    ensures f in ws[i].left.handed ==> f in ws[i].right.queued
    ensures Quiescent(ws[i].left.end.tx.queue) ==> (f in ws[i].right.handed <==> f in ws[i].left.queued)
    ensures Quiescent(ws[i].right.end.tx.queue) ==> (f in ws[i].left.handed <==> f in ws[i].right.queued)
  {
    HandedIsExact(ws, leftMtu, rightMtu, i);
    BehaviourIsSimulated(ws, leftMtu, rightMtu, i);
    var f', g :| Represents(ws[i].left, ws[i].right, f', g);
    CarriesUnordered(f', ws[i].left, ws[i].right, f);
    CarriesUnordered(g, ws[i].right, ws[i].left, f);
  }

  // ---- What an end can do ----

  /** The counters that an emission puts on the wire fit their 24 bits. */
  ghost predicate CountersFit(s: Sender, now: nat, order: seq<nat>) {
    s.messageIndex <= 0x100_0000 && s.orderIndex <= 0x100_0000 && s.queue.Prepared(now, order).max <= 0x100_0000
  }

  /** `order` is a way to walk the hash table, and the counters fit. */
  ghost predicate RoomFor(s: Sender, now: nat, order: seq<nat>) {
    Enumerates(order, s.queue.CloseBatch(now).Expired(now)) && CountersFit(s, now, order)
  }

  lemma EmissionIsEncodable(l: Link, now: nat, order: seq<nat>)
    requires Reachable(l) && FieldsInv(l.given, l.tx)
    requires Possible(l, Flush(now, order)) && CountersFit(l.tx, now, order)
    ensures l.tx.queue.Prepared(now, order).Valid() && AllEncodable(l.tx.queue.Prepared(now, order).Emission())
  {
    ReachableInv(l);
    FlushKeepsInv(l, now, order);
    PreparedIsValid(l.tx.queue, now, order);
    SetsAreEncodable(Next(l, Flush(now, order)), l.tx, l.tx.queue.Prepared(now, order).Emission());
  }

  lemma SetsAreEncodable(m: Link, s: Sender, sets: seq<FrameSet>)
    requires Inv(m) && FieldsInv(m.given, s) && Elems(sets) <= m.datagrams
    requires s.messageIndex <= 0x100_0000 && s.orderIndex <= 0x100_0000 && m.tx.queue.sendMin <= 0x100_0000
    ensures AllEncodable(sets)
  {
    forall i, j | 0 <= i < |sets| && 0 <= j < |sets[i].datas|
      ensures Encodable(sets[i].datas[j])
    {
      assert sets[i] in Elems(sets);
      DatagramIsFromLog(m, sets[i]);
      FieldsAreEncodable(sets[i].datas[j], s);
    }
    forall i | 0 <= i < |sets|
      ensures sets[i].sequenceNumber < 0x100_0000
    {
      assert sets[i] in Elems(sets);
      DatagramIsFromLog(m, sets[i]);
    }
  }

  lemma CarriesFlush(l: Link, from: Side, to: Side, now: nat, order: seq<nat>)
    requires Carries(l, from, to) && Enumerates(order, from.end.tx.queue.CloseBatch(now).Expired(now))
    requires CountersFit(from.end.tx, now, order)
    ensures CanAct(from, to, DoFlushQueue(now, order))
  {
    EmissionIsEncodable(l, now, order);
  }

  /** At every point of every exchange both ends can flush, in whatever order the hash
      table is walked, as long as their counters fit 24 bits: no bytes that came in from
      the other end have taken anything away that was still to be emitted. */
  lemma BytesNeverBlockAFlush(ws: seq<World>, leftMtu: nat, rightMtu: nat, i: nat, now: nat, order: seq<nat>)
    requires MIN_MTU <= leftMtu <= MAX_MTU && MIN_MTU <= rightMtu <= MAX_MTU
    requires Behaviour(ws, leftMtu, rightMtu) && i < |ws|
    ensures RoomFor(ws[i].left.end.tx, now, order)
      ==> CanAct(ws[i].left, ws[i].right, DoFlushQueue(now, order))
    ensures RoomFor(ws[i].right.end.tx, now, order)
      ==> CanAct(ws[i].right, ws[i].left, DoFlushQueue(now, order))
  {
    BehaviourIsSimulated(ws, leftMtu, rightMtu, i);
    var f, g :| Represents(ws[i].left, ws[i].right, f, g);
    if RoomFor(ws[i].left.end.tx, now, order) {
      CarriesFlush(f, ws[i].left, ws[i].right, now, order);
    }
    if RoomFor(ws[i].right.end.tx, now, order) {
      CarriesFlush(g, ws[i].right, ws[i].left, now, order);
    }
  }

  lemma CarriesReport(l: Link, from: Side, to: Side)
    requires Carries(l, from, to)
    ensures CanAct(to, from, DoFlushAck)
  {
    ReachableInv(l);
    ReportFitsNet(l);
  }

  /** And both can always report: what they report came off the wire, so it fits. */
  lemma ReportsAlwaysFit(ws: seq<World>, leftMtu: nat, rightMtu: nat, i: nat)
    requires MIN_MTU <= leftMtu <= MAX_MTU && MIN_MTU <= rightMtu <= MAX_MTU
    requires Behaviour(ws, leftMtu, rightMtu) && i < |ws|
    ensures CanAct(ws[i].left, ws[i].right, DoFlushAck) && CanAct(ws[i].right, ws[i].left, DoFlushAck)
  {
    BehaviourIsSimulated(ws, leftMtu, rightMtu, i);
    var f, g :| Represents(ws[i].left, ws[i].right, f, g);
    CarriesReport(f, ws[i].left, ws[i].right);
    CarriesReport(g, ws[i].right, ws[i].left);
  }

  // ---- Every exchange can be completed ----

  /** Enough numbers are left to emit everything outstanding once more. */
  ghost predicate HasRoom(s: Sender) {
    && s.messageIndex <= 0x100_0000 && s.orderIndex <= 0x100_0000
    && s.queue.max + 1 + |s.queue.queue| <= 0x100_0000
  }

  lemma {:induction false} SubsetSize<T>(a: set<T>, b: set<T>)
    requires a <= b
    ensures |a| <= |b|
    decreases |a|
  {
    if a != {} {
      var x :| x in a;
      SubsetSize(a - {x}, b - {x});
    }
  }

  lemma RoomSuffices(l: Link, now: nat, order: seq<nat>)
    requires Reachable(l) && Possible(l, Flush(now, order)) && HasRoom(l.tx)
    ensures CountersFit(l.tx, now, order)
  {
    ReachableInv(l);
    var q := l.tx.queue;
    PreparedIsValid(q, now, order);
    OverdueIsOld(q, now, order);
    EnumeratesSize(order, q.Expired(now));
    SubsetSize(q.Expired(now), q.queue.Keys);
    assert |q.queue| == |q.queue.Keys|;
  }

  lemma RoomToFlush(l: Link, from: Side, to: Side, now: nat, order: seq<nat>)
    requires Carries(l, from, to) && Possible(l, Flush(now, order)) && HasRoom(l.tx)
    ensures CanAct(from, to, DoFlushQueue(now, order))
  {
    RoomSuffices(l, now, order);
    CarriesFlush(l, from, to, now, order);
  }

  /** World `w'` follows from `w`, and its left end was given nothing more to send. */
  ghost predicate Quietly(w: World, w': World) {
    WorldStep(w, w') && w'.left.given == w.left.given && w'.left.accepted == w.left.accepted
  }

  /** The left end can flush, and the direction to the right then flushes too. */
  lemma LeftFlushes(w: World, f: Link, g: Link, now: nat, order: seq<nat>) returns (w': World)
    requires Represents(w.left, w.right, f, g) && Possible(f, Flush(now, order)) && HasRoom(f.tx)
    ensures Quietly(w, w')
    ensures Safe(f, Flush(now, order)) && Represents(w'.left, w'.right, Next(f, Flush(now, order)), g)
  {
    RoomToFlush(f, w.left, w.right, now, order);
    ActFlushQueue(w.left, w.right, f, g, now, order);
    w' := World(AfterAct(w.left, w.right, DoFlushQueue(now, order)), w.right);
    assert Does(w.left, w.right, w'.left);
  }

  lemma RightReceives(w: World, f: Link, g: Link, d: FrameSet) returns (w': World)
    requires Represents(w.left, w.right, f, g) && d in f.datagrams && SetEncodable(d)
    ensures Quietly(w, w') && Represents(w'.left, w'.right, Next(f, Deliver(d)), g)
  {
    ActReceiveDatagram(w.right, w.left, g, f, d, 0);
    w' := World(w.left, AfterAct(w.right, w.left, DoReceive(EncodeFrameSet(d), 0)));
    assert Does(w.right, w.left, w'.right);
  }

  lemma RightReports(w: World, f: Link, g: Link) returns (w': World)
    requires Represents(w.left, w.right, f, g)
    ensures Quietly(w, w') && Represents(w'.left, w'.right, Next(f, FlushAck), g)
  {
    CarriesReport(f, w.left, w.right);
    ActFlushAck(w.right, w.left, g, f);
    w' := World(w.left, AfterAct(w.right, w.left, DoFlushAck));
    assert Does(w.right, w.left, w'.right);
  }

  lemma LeftReceives(w: World, f: Link, g: Link, c: Control, now: nat) returns (w': World)
    requires Represents(w.left, w.right, f, g) && c in f.controls && Fits(c)
    ensures Quietly(w, w')
    ensures Safe(f, DeliverControl(c, now)) && Represents(w'.left, w'.right, Next(f, DeliverControl(c, now)), g)
  {
    ActReceiveControl(w.left, w.right, f, g, c, now);
    w' := World(AfterAct(w.left, w.right, DoReceive(PacketOf(c), now)), w.right);
    assert Does(w.left, w.right, w'.left);
  }

  /** Whatever the network can carry between links, it can carry as bytes. */
  lemma BytesFollow(w: World, f: Link, g: Link, step: Step) returns (w': World)
    requires Represents(w.left, w.right, f, g) && Possible(f, step) && Safe(f, step) && OnlyCarries([step])
    ensures Quietly(w, w') && Represents(w'.left, w'.right, Next(f, step), g)
  {
    assert step in [step];
    match step
    case Deliver(d) => w' := RightReceives(w, f, g, d);
    case FlushAck => w' := RightReports(w, f, g);
    case DeliverControl(c, now) => w' := LeftReceives(w, f, g, c, now);
  }

  lemma Joined(w: World, rest: seq<World>)
    requires Exchange(rest) && WorldStep(w, rest[0])
    ensures Exchange([w] + rest)
  {
  }

  lemma OnlyCarriesFront(steps: seq<Step>)
    requires steps != [] && OnlyCarries(steps)
    ensures OnlyCarries([steps[0]]) && OnlyCarries(steps[1..])
  {
    assert steps[0] in steps && forall step :: step in steps[1..] ==> step in steps;
  }

  lemma {:induction false} BytesFollowRun(w: World, f: Link, g: Link, steps: seq<Step>, r: Link)
    returns (ws: seq<World>)
    requires Represents(w.left, w.right, f, g) && OnlyCarries(steps) && Reaches(f, steps, r)
    ensures Exchange(ws) && ws[0] == w
    ensures Represents(ws[|ws| - 1].left, ws[|ws| - 1].right, r, g)
    ensures ws[|ws| - 1].left.given == w.left.given && ws[|ws| - 1].left.accepted == w.left.accepted
    decreases |steps|
  {
    if steps == [] {
      ws := [w];
    } else {
      OnlyCarriesFront(steps);
      var w' := BytesFollow(w, f, g, steps[0]);
      var rest := BytesFollowRun(w', Next(f, steps[0]), g, steps[1..], r);
      Joined(w, rest);
      ws := [w] + rest;
    }
  }

  lemma BytesFollowOn(w: World, f: Link, g: Link, r: Link) returns (ws: seq<World>)
    requires Represents(w.left, w.right, f, g) && Leads(f, r) && Quiescent(r.tx.queue)
    ensures Exchange(ws) && ws[0] == w && Quiescent(ws[|ws| - 1].left.end.tx.queue)
    ensures ws[|ws| - 1].left.given == w.left.given && ws[|ws| - 1].left.accepted == w.left.accepted
  {
    var steps :| OnlyCarries(steps) && Reaches(f, steps, r);
    ws := BytesFollowRun(w, f, g, steps, r);
  }

  lemma LeftCanFinish(w: World) returns (ws: seq<World>)
    requires Simulated(w) && HasRoom(w.left.end.tx)
    ensures Exchange(ws) && ws[0] == w && Quiescent(ws[|ws| - 1].left.end.tx.queue)
    ensures ws[|ws| - 1].left.given == w.left.given && ws[|ws| - 1].left.accepted == w.left.accepted
  {
    var f, g :| Represents(w.left, w.right, f, g);
    var now, order, r := DeliveryCanComplete(f);
    var w' := LeftFlushes(w, f, g, now, order);
    var rest := BytesFollowOn(w', Next(f, Flush(now, order)), g, r);
    Joined(w, rest);
    ws := [w] + rest;
  }

  function Mirror(w: World): World {
    World(w.right, w.left)
  }

  lemma {:induction false} MirrorExchange(ws: seq<World>) returns (vs: seq<World>)
    requires Exchange(ws)
    ensures Exchange(vs) && |vs| == |ws| && vs[0] == Mirror(ws[0]) && vs[|vs| - 1] == Mirror(ws[|ws| - 1])
    decreases |ws|
  {
    if |ws| == 1 {
      vs := [Mirror(ws[0])];
    } else {
      assert forall i :: 0 < i < |ws[1..]| ==> ws[1..][i - 1] == ws[i] && ws[1..][i] == ws[i + 1];
      var rest := MirrorExchange(ws[1..]);
      assert WorldStep(ws[0], ws[1]);
      Joined(Mirror(ws[0]), rest);
      vs := [Mirror(ws[0])] + rest;
    }
  }

  /** No exchange is a dead end: from every point, as long as enough numbers are left, some
      further exchange of bytes, in which the left end is given nothing more to send,
      empties its sending queue. */
  lemma LeftCanComplete(ws: seq<World>, leftMtu: nat, rightMtu: nat, i: nat) returns (more: seq<World>)
    requires MIN_MTU <= leftMtu <= MAX_MTU && MIN_MTU <= rightMtu <= MAX_MTU
    requires Behaviour(ws, leftMtu, rightMtu) && i < |ws| && HasRoom(ws[i].left.end.tx)
    ensures Exchange(more) && more[0] == ws[i]
    ensures Quiescent(more[|more| - 1].left.end.tx.queue) && more[|more| - 1].left.given == ws[i].left.given
  {
    BehaviourIsSimulated(ws, leftMtu, rightMtu, i);
    more := LeftCanFinish(ws[i]);
  }

  /** Likewise for the right end. */
  lemma RightCanComplete(ws: seq<World>, leftMtu: nat, rightMtu: nat, i: nat) returns (more: seq<World>)
    requires MIN_MTU <= leftMtu <= MAX_MTU && MIN_MTU <= rightMtu <= MAX_MTU
    requires Behaviour(ws, leftMtu, rightMtu) && i < |ws| && HasRoom(ws[i].right.end.tx)
    ensures Exchange(more) && more[0] == ws[i]
    ensures Quiescent(more[|more| - 1].right.end.tx.queue) && more[|more| - 1].right.given == ws[i].right.given
  {
    BehaviourIsSimulated(ws, leftMtu, rightMtu, i);
    MirrorIsSimulated(ws[i]);
    more := LeftCanFinish(Mirror(ws[i]));
    more := MirrorExchange(more);
  }

  lemma MirrorIsSimulated(w: World)
    requires Simulated(w)
    ensures Simulated(Mirror(w))
  {
    var f, g :| Represents(w.left, w.right, f, g);
    assert Represents(Mirror(w).left, Mirror(w).right, g, f);
  }
}
