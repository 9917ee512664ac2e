/** What the receiving queue makes of the frames of an honest sender: every ordered
    payload whose frames have all arrived comes out once, whole and in its turn,
    whatever the order of arrival and however often a frame arrives. */
module OrderedDelivery {
  import opened Frames
  import opened ReceiveQueues

  /** The frames that carry one ordered payload: one whole frame, or its fragments in
      order. A payload may also have no frames at all; see module Sessions. */
  type Message = seq<Frame>

  function Payload(m: Message): bytes {
    if m == [] then [] else Payload(m[..|m| - 1]) + m[|m| - 1].data
  }

  predicate IsFragmented(m: Message) {
    m != [] && m[0].split
  }

  ghost predicate IsWhole(m: Message) {
    |m| == 1 && !m[0].split
  }

  ghost predicate IsSplit(m: Message) {
    forall i :: 0 <= i < |m| ==>
      && m[i].split && m[i].splitCount == |m| && m[i].splitIndex == i
      && m[i].splitId == m[0].splitId && m[i].reliability == m[0].reliability
  }

  /** `m` is what a sender produces for its payload number `o`. */
  ghost predicate WellFormed(m: Message, o: nat) {
    && (forall i :: 0 <= i < |m| ==> m[i].orderIndex == o && m[i].reliability.IsSequencedOrOrdered())
    && (IsWhole(m) || IsSplit(m))
  }

  /** Everything a sender has sent, payload by payload. Split ids are used once, and
      those used so far are below `limit`. */
  ghost predicate WellFormedLog(sent: seq<Message>, limit: nat) {
    && (forall o :: 0 <= o < |sent| ==> WellFormed(sent[o], o))
    && (forall o :: 0 <= o < |sent| && IsFragmented(sent[o]) ==> sent[o][0].splitId < limit)
    && (forall o, p :: 0 <= o < p < |sent| && IsFragmented(sent[o]) && IsFragmented(sent[p]) ==>
          sent[o][0].splitId != sent[p][0].splitId)
  }

  /** The frame that a receiver should hand on for payload number `o`. */
  function Result(m: Message, o: nat): Frame
    requires m != []
  {
    if m[0].split then NewFrame(m[0].reliability, Payload(m)).(orderIndex := o) else m[0]
  }

  ghost predicate Complete(m: Message, arrived: set<Frame>) {
    m != [] && forall i :: 0 <= i < |m| ==> m[i] in arrived
  }

  ghost predicate FromLog(f: Frame, sent: seq<Message>) {
    f.reliability.IsSequencedOrOrdered() ==> f.orderIndex < |sent| && f in sent[f.orderIndex]
  }

  /** The collected fragments of payload number `o` are those that have arrived. */
  ghost predicate Collects(p: SplitPacket, m: Message, o: nat, arrived: set<Frame>) {
    && m != [] && p.splitSize == |m| && p.orderIndex == o && p.reliability == m[0].reliability
    && (forall i: nat :: i in p.data <==> i < |m| && m[i] in arrived)
    && (forall i: nat :: i in p.data ==> p.data[i] == m[i])
  }

  /** Split id `id` stands open for an incomplete payload. */
  ghost predicate OpenFor(s: SplitPool, sent: seq<Message>, arrived: set<Frame>, id: nat)
    requires id in s.pool
  {
    var o := s.pool[id].orderIndex;
    && o < |sent| && IsFragmented(sent[o]) && sent[o][0].splitId == id
    && !Complete(sent[o], arrived) && Collects(s.pool[id], sent[o], o, arrived)
  }

  /** Payload number `o` is finished, open, or untouched. */
  ghost predicate Tracked(s: SplitPool, m: Message, arrived: set<Frame>) {
    IsFragmented(m) ==>
      && (Complete(m, arrived) <==> m[0].splitId in s.delete)
      && (m[0].splitId in s.pool || Complete(m, arrived) || forall i :: 0 <= i < |m| ==> m[i] !in arrived)
  }

  ghost predicate PoolMatches(s: SplitPool, sent: seq<Message>, arrived: set<Frame>, limit: nat) {
    && s.Tidy()
    && (forall id :: id in s.pool ==> OpenFor(s, sent, arrived, id))
    && (forall o :: 0 <= o < |sent| ==> Tracked(s, sent[o], arrived))
    && (forall id :: id in s.delete ==> id < limit)
  }

  /** What is held for release is complete and right, and nothing complete is missing. */
  ghost predicate QueueMatches(r: RecvState, sent: seq<Message>, arrived: set<Frame>) {
    && (forall o :: o in r.packetQueue ==>
          o < |sent| && o < r.max && Complete(sent[o], arrived) && r.packetQueue[o] == Result(sent[o], o))
    && (forall o :: r.min <= o < |sent| && Complete(sent[o], arrived) ==> o in r.packetQueue)
  }

  ghost predicate Delivers(released: seq<Frame>, sent: seq<Message>, arrived: set<Frame>) {
    forall o: nat :: o < |released| ==> Delivered(released[o], sent, arrived, o)
  }

  /** Frame `f` is the right one to hand on for payload number `o`. */
  ghost predicate Delivered(f: Frame, sent: seq<Message>, arrived: set<Frame>, o: nat) {
    o < |sent| && Complete(sent[o], arrived) && f == Result(sent[o], o)
  }

  /** The receiver between two frames: it has released the payloads up to the first
      incomplete one. */
  ghost predicate Matches(r: RecvState, released: seq<Frame>, sent: seq<Message>, arrived: set<Frame>, limit: nat) {
    && PoolMatches(r.splits, sent, arrived, limit)
    && QueueMatches(r, sent, arrived)
    && Delivers(released, sent, arrived)
    && r.min == |released|
    && r.min !in r.packetQueue
  }

  lemma {:induction false} JoinedIsPayload(data: map<nat, Frame>, m: Message, n: nat)
    requires n <= |m| && forall i :: 0 <= i < n ==> i in data && data[i] == m[i]
    ensures Joined(data, n) == Payload(m[..n])
  {
    if n > 0 {
      JoinedIsPayload(data, m, n - 1);
      assert m[..n][..n - 1] == m[..n - 1];
    }
  }

  /** Another frame makes a difference to its own payload only. */
  lemma OnlyItsOwn(sent: seq<Message>, arrived: set<Frame>, f: Frame, limit: nat)
    requires WellFormedLog(sent, limit)
    ensures forall o :: 0 <= o < |sent| && o != f.orderIndex ==>
      (Complete(sent[o], arrived + {f}) <==> Complete(sent[o], arrived))
    ensures forall o, i :: 0 <= o < |sent| && o != f.orderIndex && 0 <= i < |sent[o]| ==>
      (sent[o][i] in arrived + {f} <==> sent[o][i] in arrived)
    ensures forall o :: 0 <= o < |sent| && Complete(sent[o], arrived) ==> Complete(sent[o], arrived + {f})
  {
  }

  /** A whole frame has no part in any payload that is sent in fragments. */
  lemma PoolIgnoresWhole(s: SplitPool, sent: seq<Message>, arrived: set<Frame>, f: Frame, limit: nat)
    requires WellFormedLog(sent, limit) && PoolMatches(s, sent, arrived, limit)
    requires FromLog(f, sent) && f.reliability.IsSequencedOrOrdered() && !f.split
    ensures PoolMatches(s, sent, arrived + {f}, limit)
  {
    assert WellFormed(sent[f.orderIndex], f.orderIndex);
    OnlyItsOwn(sent, arrived, f, limit);
    forall p | 0 <= p < |sent|
      ensures Tracked(s, sent[p], arrived + {f})
    {
      assert Tracked(s, sent[p], arrived);
    }
    forall id | id in s.pool
      ensures OpenFor(s, sent, arrived + {f}, id)
    {
      assert OpenFor(s, sent, arrived, id);
    }
  }

  lemma QueueAfterWhole(r: RecvState, sent: seq<Message>, arrived: set<Frame>, f: Frame, limit: nat)
    requires WellFormedLog(sent, limit) && QueueMatches(r, sent, arrived)
    requires forall o :: 0 <= o < r.min && o < |sent| ==> Complete(sent[o], arrived)
    requires FromLog(f, sent) && f.reliability.IsSequencedOrOrdered() && !f.split
    ensures QueueMatches(r.Add(f), sent, arrived + {f})
  {
    var m := sent[f.orderIndex];
    assert WellFormed(m, f.orderIndex);
    assert IsWhole(m) && m[0] == f && Complete(m, arrived + {f});
    OnlyItsOwn(sent, arrived, f, limit);
  }

  lemma AddWhole(r: RecvState, sent: seq<Message>, arrived: set<Frame>, f: Frame, limit: nat)
    requires WellFormedLog(sent, limit) && PoolMatches(r.splits, sent, arrived, limit) && QueueMatches(r, sent, arrived)
    requires forall o :: 0 <= o < r.min && o < |sent| ==> Complete(sent[o], arrived)
    requires FromLog(f, sent) && f.reliability.IsSequencedOrOrdered() && !f.split
    ensures PoolMatches(r.Add(f).splits, sent, arrived + {f}, limit)
    ensures QueueMatches(r.Add(f), sent, arrived + {f})
  {
    PoolIgnoresWhole(r.splits, sent, arrived, f, limit);
    QueueAfterWhole(r, sent, arrived, f, limit);
  }

  /** Where a fragment stands in its payload. */
  lemma FragmentPlace(f: Frame, m: Message, o: nat)
    requires WellFormed(m, o) && f in m && f.split
    ensures IsSplit(m) && IsFragmented(m) && f.splitIndex < |m| && m[f.splitIndex] == f
    ensures f.splitCount == |m| && f.splitId == m[0].splitId && f.reliability == m[0].reliability && f.orderIndex == o
    ensures forall i :: 0 <= i < |m| && m[i] == f ==> i == f.splitIndex
  {
  }

  /** One more fragment joins a packet that collects the arrived ones. */
  lemma CollectOne(p: SplitPacket, m: Message, o: nat, arrived: set<Frame>, f: Frame)
    requires WellFormed(m, o) && f in m && f.split
    requires TidyEntry(p) && Collects(p, m, o, arrived)
    ensures var q := p.Add(f.splitIndex, f);
            && Collects(q, m, o, arrived + {f})
            && (q.full <==> Complete(m, arrived + {f}))
            && (q.full ==> q.GetFrame() == Result(m, o))
            && (!q.full ==> TidyEntry(q))
  {
    FragmentPlace(f, m, o);
    FullMeansAll(p, f.splitIndex, f);
    var q := p.Add(f.splitIndex, f);
    if q.full {
      JoinedIsPayload(q.data, m, |m|);
      assert m[..|m|] == m;
    }
  }

  /** A packet for an unfinished payload collects what has arrived, even one just made. */
  lemma EntryCollects(s: SplitPool, sent: seq<Message>, arrived: set<Frame>, f: Frame, limit: nat)
    requires WellFormedLog(sent, limit) && PoolMatches(s, sent, arrived, limit)
    requires FromLog(f, sent) && f.reliability.IsSequencedOrOrdered() && f.split
    requires !Complete(sent[f.orderIndex], arrived)
    ensures TidyEntry(s.EntryFor(f)) && Collects(s.EntryFor(f), sent[f.orderIndex], f.orderIndex, arrived)
  {
    var o := f.orderIndex;
    assert WellFormed(sent[o], o) && Tracked(s, sent[o], arrived);
    FragmentPlace(f, sent[o], o);
    if f.splitId in s.pool {
      assert OpenFor(s, sent, arrived, f.splitId);
      var p := s.pool[f.splitId].orderIndex;
      assert p == o;
    }
  }

  /** Pools stay matched for all payloads but the one that frame `f` belongs to. */
  lemma OthersStayTracked(s: SplitPool, t: SplitPool, sent: seq<Message>, arrived: set<Frame>, f: Frame, limit: nat)
    requires WellFormedLog(sent, limit) && PoolMatches(s, sent, arrived, limit)
    requires FromLog(f, sent) && f.reliability.IsSequencedOrOrdered() && f.split
    requires forall id :: id != f.splitId ==> (id in t.pool <==> id in s.pool) && (id in t.delete <==> id in s.delete)
    requires forall id :: id != f.splitId && id in t.pool ==> t.pool[id] == s.pool[id]
    ensures forall o :: 0 <= o < |sent| && o != f.orderIndex ==> Tracked(t, sent[o], arrived + {f})
    ensures forall id :: id in t.pool && id != f.splitId ==> OpenFor(t, sent, arrived + {f}, id)
  {
    OnlyItsOwn(sent, arrived, f, limit);
    assert WellFormed(sent[f.orderIndex], f.orderIndex);
    FragmentPlace(f, sent[f.orderIndex], f.orderIndex);
    forall o | 0 <= o < |sent| && o != f.orderIndex
      ensures Tracked(t, sent[o], arrived + {f})
    {
      assert Tracked(s, sent[o], arrived);
      if IsFragmented(sent[o]) { assert sent[o][0].splitId != f.splitId; }
    }
    forall id | id in t.pool && id != f.splitId
      ensures OpenFor(t, sent, arrived + {f}, id)
    {
      assert OpenFor(s, sent, arrived, id);
      assert t.pool[id].orderIndex != f.orderIndex;
    }
  }

  /** The pool after fragment `f` has been added and complete packets swept out. */
  function PoolAfter(s: SplitPool, f: Frame): SplitPool {
    var after := s.Add(f);
    after.Swept(if after.pool[f.splitId].full then [f.splitId] else [])
  }

  lemma OwnPayloadTracked(s: SplitPool, sent: seq<Message>, arrived: set<Frame>, f: Frame, limit: nat)
    requires WellFormedLog(sent, limit) && PoolMatches(s, sent, arrived, limit)
    requires FromLog(f, sent) && f.reliability.IsSequencedOrOrdered() && f.split
    ensures var t := PoolAfter(s, f);
            && Tracked(t, sent[f.orderIndex], arrived + {f})
            && (f.splitId in t.pool ==> OpenFor(t, sent, arrived + {f}, f.splitId))
            && f.splitId < limit
  {
    var o := f.orderIndex;
    var m := sent[o];
    assert WellFormed(m, o) && Tracked(s, m, arrived);
    FragmentPlace(f, m, o);
    if Complete(m, arrived) {
      assert arrived + {f} == arrived;
    } else {
      EntryCollects(s, sent, arrived, f, limit);
      CollectOne(s.EntryFor(f), m, o, arrived, f);
    }
  }

  /** A fragment changes the pool under its own split id only. */
  lemma OnlyOwnEntry(s: SplitPool, f: Frame)
    requires s.Tidy()
    ensures var t := PoolAfter(s, f);
            && t.Tidy()
            && (forall id :: id != f.splitId ==>
                  (id in t.pool <==> id in s.pool) && (id in t.delete <==> id in s.delete))
            && (forall id :: id != f.splitId && id in t.pool ==> t.pool[id] == s.pool[id])
  {
    AddKeepsTidy(s, f);
  }

  lemma PoolAfterFragment(s: SplitPool, sent: seq<Message>, arrived: set<Frame>, f: Frame, limit: nat)
    requires WellFormedLog(sent, limit) && PoolMatches(s, sent, arrived, limit)
    requires FromLog(f, sent) && f.reliability.IsSequencedOrOrdered() && f.split
    ensures PoolMatches(PoolAfter(s, f), sent, arrived + {f}, limit)
  {
    OnlyOwnEntry(s, f);
    OwnPayloadTracked(s, sent, arrived, f, limit);
    OthersStayTracked(s, PoolAfter(s, f), sent, arrived, f, limit);
    PoolMatchesFrom(s, PoolAfter(s, f), sent, arrived, f, limit);
  }

  lemma PoolMatchesFrom(s: SplitPool, t: SplitPool, sent: seq<Message>, arrived: set<Frame>, f: Frame, limit: nat)
    requires t.Tidy() && f.splitId < limit && f.orderIndex < |sent|
    requires forall id :: id in s.delete ==> id < limit
    requires forall id :: id != f.splitId ==> (id in t.delete <==> id in s.delete)
    requires forall o :: 0 <= o < |sent| && o != f.orderIndex ==> Tracked(t, sent[o], arrived + {f})
    requires forall id :: id in t.pool && id != f.splitId ==> OpenFor(t, sent, arrived + {f}, id)
    requires Tracked(t, sent[f.orderIndex], arrived + {f})
    requires f.splitId in t.pool ==> OpenFor(t, sent, arrived + {f}, f.splitId)
    ensures PoolMatches(t, sent, arrived + {f}, limit)
  {
  }

  /** The frame a completed packet yields is the right one, even if a late fragment of a
      one-fragment payload completes it again. */
  lemma CompletedFrame(s: SplitPool, sent: seq<Message>, arrived: set<Frame>, f: Frame, limit: nat)
    requires WellFormedLog(sent, limit) && PoolMatches(s, sent, arrived, limit)
    requires FromLog(f, sent) && f.reliability.IsSequencedOrOrdered() && f.split
    ensures var q := s.EntryFor(f).Add(f.splitIndex, f);
            && (q.full ==>
                  && Complete(sent[f.orderIndex], arrived + {f})
                  && q.GetFrame() == Result(sent[f.orderIndex], f.orderIndex))
            && (Complete(sent[f.orderIndex], arrived + {f}) && !Complete(sent[f.orderIndex], arrived) ==> q.full)
  {
    var o := f.orderIndex;
    var m := sent[o];
    assert WellFormed(m, o) && Tracked(s, m, arrived);
    FragmentPlace(f, m, o);
    if Complete(m, arrived) {
      var entry := FirstEntry(f);
      assert s.EntryFor(f) == entry;
      if entry.Add(f.splitIndex, f).full {
        assert entry.data[f.splitIndex := f] == map[f.splitIndex := f];
        assert |m| == 1 && m == [f];
        JoinedIsPayload(entry.Add(0, f).data, m, 1);
        assert m[..1] == m;
      }
    } else {
      EntryCollects(s, sent, arrived, f, limit);
      CollectOne(s.EntryFor(f), m, o, arrived, f);
    }
  }

  lemma QueueAfterFragment(r: RecvState, sent: seq<Message>, arrived: set<Frame>, f: Frame, limit: nat)
    requires WellFormedLog(sent, limit) && PoolMatches(r.splits, sent, arrived, limit) && QueueMatches(r, sent, arrived)
    requires FromLog(f, sent) && f.reliability.IsSequencedOrOrdered() && f.split
    ensures QueueMatches(r.Add(f), sent, arrived + {f})
  {
    CompletedFrame(r.splits, sent, arrived, f, limit);
    OnlyItsOwn(sent, arrived, f, limit);
  }

  lemma AddFragment(r: RecvState, sent: seq<Message>, arrived: set<Frame>, f: Frame, limit: nat)
    requires WellFormedLog(sent, limit) && PoolMatches(r.splits, sent, arrived, limit) && QueueMatches(r, sent, arrived)
    requires FromLog(f, sent) && f.reliability.IsSequencedOrOrdered() && f.split
    ensures PoolMatches(r.Add(f).splits, sent, arrived + {f}, limit)
    ensures QueueMatches(r.Add(f), sent, arrived + {f})
  {
    PoolAfterFragment(r.splits, sent, arrived, f, limit);
    QueueAfterFragment(r, sent, arrived, f, limit);
  }

  lemma ReleaseMatches(r: RecvState, released: seq<Frame>, sent: seq<Message>, arrived: set<Frame>, limit: nat)
    requires PoolMatches(r.splits, sent, arrived, limit) && QueueMatches(r, sent, arrived)
    requires Delivers(released, sent, arrived) && r.min == |released|
    ensures Matches(r.Released(), released + r.Due(), sent, arrived, limit)
  {
    DueFromIs(r.packetQueue, r.min, r.max);
    var all := released + r.Due();
    forall o | 0 <= o < |all|
      ensures o < |sent| && Complete(sent[o], arrived) && all[o] == Result(sent[o], o)
    {
      if o < r.min {
        assert all[o] == released[o];
      } else {
        assert o in r.packetQueue && r.Due()[o - r.min] == r.packetQueue[o];
      }
    }
  }

  /** What a receiver has released is settled by which frames have arrived: the payloads
      up to the first one that is not complete. */
  lemma ReleaseIsExact(r: RecvState, released: seq<Frame>, sent: seq<Message>, arrived: set<Frame>, limit: nat)
    requires Matches(r, released, sent, arrived, limit)
    ensures |released| <= |sent|
    ensures forall o :: 0 <= o < |released| ==> Complete(sent[o], arrived) && released[o] == Result(sent[o], o)
    ensures |released| < |sent| ==> !Complete(sent[|released|], arrived)
  {
    forall o: nat | o < |released|
      ensures o < |sent| && Complete(sent[o], arrived) && released[o] == Result(sent[o], o)
    {
      assert Delivered(released[o], sent, arrived, o);
    }
    if released != [] { assert Delivered(released[|released| - 1], sent, arrived, |released| - 1); }
  }

  /** One frame arrives. Unordered frames pass the receiving queue by. */
  lemma FrameArrives(r: RecvState, released: seq<Frame>, sent: seq<Message>, arrived: set<Frame>, f: Frame, limit: nat)
    requires WellFormedLog(sent, limit) && Matches(r, released, sent, arrived, limit) && FromLog(f, sent)
    requires f.reliability.IsSequencedOrOrdered()
    ensures Matches(r.Add(f).Released(), released + r.Add(f).Due(), sent, arrived + {f}, limit)
  {
    assert forall o :: 0 <= o < r.min ==> Complete(sent[o], arrived) by {
      ReleaseIsExact(r, released, sent, arrived, limit);
    }
    if f.split {
      AddFragment(r, sent, arrived, f, limit);
    } else {
      AddWhole(r, sent, arrived, f, limit);
    }
    OnlyItsOwn(sent, arrived, f, limit);
    ReleaseMatches(r.Add(f), released, sent, arrived + {f}, limit);
  }

  /** A new payload is sent: nothing of it has arrived yet. */
  lemma LogGrows(r: RecvState, released: seq<Frame>, sent: seq<Message>, arrived: set<Frame>,
                 m: Message, limit: nat, limit': nat)
    requires WellFormedLog(sent, limit) && WellFormedLog(sent + [m], limit') && limit <= limit'
    requires Matches(r, released, sent, arrived, limit)
    requires IsFragmented(m) ==> limit <= m[0].splitId
    requires forall f :: f in arrived ==> FromLog(f, sent)
    ensures Matches(r, released, sent + [m], arrived, limit')
  {
    var sent' := sent + [m];
    assert WellFormed(sent'[|sent|], |sent|);
    forall i | 0 <= i < |m|
      ensures m[i] !in arrived
    {
      assert !FromLog(m[i], sent);
    }
    assert !Complete(m, arrived) by {
      if m != [] { assert m[0] !in arrived; }
    }
    forall o | 0 <= o < |released|
      ensures o < |sent'| && Complete(sent'[o], arrived) && released[o] == Result(sent'[o], o)
    {
      var d := released[o];
      assert o < |sent| && sent'[o] == sent[o];
    }
    forall o | 0 <= o < |sent'|
      ensures Tracked(r.splits, sent'[o], arrived)
    {
      if o < |sent| { assert Tracked(r.splits, sent[o], arrived); }
      if o == |sent| && IsFragmented(m) { assert m[0].splitId !in r.splits.delete; }
    }
    forall id | id in r.splits.pool
      ensures OpenFor(r.splits, sent', arrived, id)
    {
      assert OpenFor(r.splits, sent, arrived, id);
    }
  }

  ghost predicate AllFromLog(frames: seq<Frame>, sent: seq<Message>) {
    forall i :: 0 <= i < |frames| ==> frames[i].reliability.IsSequencedOrOrdered() && FromLog(frames[i], sent)
  }

  lemma FeedMatches(h: History, f: Frame, sent: seq<Message>, arrived: set<Frame>, limit: nat)
    requires WellFormedLog(sent, limit) && Matches(h.state, h.released, sent, arrived, limit)
    requires FromLog(f, sent) && f.reliability.IsSequencedOrOrdered()
    ensures Matches(h.Feed(f).state, h.Feed(f).released, sent, arrived + {f}, limit)
  {
    FrameArrives(h.state, h.released, sent, arrived, f, limit);
  }

  lemma RunSnoc(front: seq<Frame>, f: Frame)
    ensures Run(front + [f]) == Run(front).Feed(f)
    ensures Elems(front + [f]) == Elems(front) + {f}
  {
    assert (front + [f])[..|front|] == front;
  }

  lemma RunMatchesNext(front: seq<Frame>, f: Frame, sent: seq<Message>, limit: nat)
    requires WellFormedLog(sent, limit) && FromLog(f, sent) && f.reliability.IsSequencedOrOrdered()
    requires Matches(Run(front).state, Run(front).released, sent, Elems(front), limit)
    ensures Matches(Run(front + [f]).state, Run(front + [f]).released, sent, Elems(front + [f]), limit)
  {
    FeedMatches(Run(front), f, sent, Elems(front), limit);
    RunSnoc(front, f);
  }

  lemma AllFromLogFront(frames: seq<Frame>, sent: seq<Message>)
    requires frames != [] && AllFromLog(frames, sent)
    ensures AllFromLog(frames[..|frames| - 1], sent)
    ensures var f := frames[|frames| - 1]; f.reliability.IsSequencedOrOrdered() && FromLog(f, sent)
  {
  }

  /** Over any run of an honest sender's frames, in any order and with any repetition,
      the receiver keeps in step with the frames that have arrived. */
  lemma {:induction false} RunMatches(frames: seq<Frame>, sent: seq<Message>, limit: nat)
    requires WellFormedLog(sent, limit) && AllFromLog(frames, sent)
    ensures Matches(Run(frames).state, Run(frames).released, sent, Elems(frames), limit)
  {
    if frames == [] {
      NothingMatches(sent, limit);
    } else {
      var front, f := frames[..|frames| - 1], frames[|frames| - 1];
      AllFromLogFront(frames, sent);
      RunMatches(front, sent, limit);
      RunMatchesNext(front, f, sent, limit);
      assert frames == front + [f];
    }
  }

  lemma NothingMatches(sent: seq<Message>, limit: nat)
    requires WellFormedLog(sent, limit)
    ensures Matches(Run([]).state, Run([]).released, sent, Elems([]), limit)
  {
  }

  /** Fragmentation, duplication and order leave no trace: two runs in which the same
      frames arrive release the same payloads. */
  lemma SameFramesSameRelease(p: seq<Frame>, q: seq<Frame>, sent: seq<Message>, limit: nat)
    requires WellFormedLog(sent, limit) && AllFromLog(p, sent) && AllFromLog(q, sent)
    requires Elems(p) == Elems(q)
    ensures Run(p).released == Run(q).released
  {
    RunMatches(p, sent, limit);
    RunMatches(q, sent, limit);
    ReleaseIsExact(Run(p).state, Run(p).released, sent, Elems(p), limit);
    ReleaseIsExact(Run(q).state, Run(q).released, sent, Elems(q), limit);
    var n, m := |Run(p).released|, |Run(q).released|;
    assert n == m;
  }
}
