/** The receiving queue as the program keeps it, updated in place. */
module ReceivedQueues {
  import opened Frames
  import opened ReceiveQueues

  class SplitPacketQueue {
    var pool: map<nat, SplitPacket>
    var delete: seq<nat>

    function Model(): SplitPool
      reads this
    {
      SplitPool(pool, delete)
    }

    constructor ()
      ensures Model() == SplitPool(map[], [])
    {
      pool, delete := map[], [];
    }

    method Add(frame: Frame)
      modifies this
      ensures Model() == old(Model()).Add(frame)
    {
      if frame.splitId !in pool {
        var newSplit := NewSplitPacket(frame.splitCount, frame.sequenceIndex, frame.reliability);
        newSplit := newSplit.(orderIndex := frame.orderIndex);
        pool := pool[frame.splitId := newSplit];
      }
      pool := pool[frame.splitId := pool[frame.splitId].Add(frame.splitIndex, frame)];
    }

    /** `order` is the order in which the hash table yields the full packets. */
    method GetAndClear() returns (ret: seq<SplitPacket>, ghost order: seq<nat>)
      modifies this
      ensures Enumerates(order, old(Model()).Full())
      ensures |ret| == |order| && forall i :: 0 <= i < |ret| ==> order[i] in old(pool) && ret[i] == old(pool)[order[i]]
      ensures Model() == old(Model()).Swept(order)
    {
      ret, order := [], [];
      var rest := pool.Keys;
      while rest != {}
        invariant pool == old(pool) && rest <= pool.Keys
        invariant delete == old(delete) + order
        invariant Enumerates(order, old(Model()).Full() - rest)
        invariant |ret| == |order| && forall i :: 0 <= i < |ret| ==> order[i] in pool && ret[i] == pool[order[i]]
        decreases rest
      {
        var id :| id in rest;
        if pool[id].full {
          delete := delete + [id];
          ret := ret + [pool[id]];
          order := order + [id];
        }
        rest := rest - {id};
      }
      for i := 0 to |delete|
        invariant delete == old(delete) + order
        invariant pool == map id | id in old(pool) && id !in delete[..i] :: old(pool)[id]
      {
        pool := pool - {delete[i]};
      }
      assert delete[..|delete|] == delete;
    }
  }

  class ReceivedQueue {
    var min: nat
    var max: nat
    var packetQueue: map<nat, Frame>
    const splits: SplitPacketQueue

    function Model(): RecvState
      reads this, splits
    {
      RecvState(min, max, packetQueue, splits.Model())
    }

    constructor ()
      ensures Model() == EmptyReceiver && fresh(splits)
    {
      min, max, packetQueue := 0, 0, map[];
      splits := new SplitPacketQueue();
    }

    method Add(frame: Frame)
      requires splits.Model().Tidy()
      modifies this, splits
      ensures Model() == old(Model()).Add(frame) && splits.Model().Tidy()
    {
      if frame.split {
        AddKeepsTidy(splits.Model(), frame);
        splits.Add(frame);
        ghost var after := splits.Model();
        var done, order := splits.GetAndClear();
        OnlyOrder(order, frame.splitId, after.pool[frame.splitId].full);
        for i := 0 to |done|
          invariant splits.Model() == after.Swept(order) && min == old(min)
          invariant i == 0 ==> max == old(max) && packetQueue == old(packetQueue)
          invariant i == 1 ==>
            Model() == old(Model()).(splits := splits.Model()).Insert(after.pool[frame.splitId].GetFrame())
        {
          var payload := done[i].GetAll();
          var f := NewFrame(done[i].reliability, payload).(orderIndex := done[i].orderIndex);
          if f.orderIndex >= max {
            max := f.orderIndex + 1;
          }
          packetQueue := packetQueue[f.orderIndex := f];
        }
        return;
      }
      if frame.orderIndex < min {
        return;
      }
      if frame.orderIndex in packetQueue {
        return;
      }
      if frame.orderIndex >= max {
        max := frame.orderIndex + 1;
      }
      packetQueue := packetQueue[frame.orderIndex := frame];
    }

    method GetAll() returns (ret: seq<Frame>)
      modifies this
      ensures ret == old(Model()).Due() && Model() == old(Model()).Released()
    {
      ret := [];
      var index := min;
      ghost var due := Model().Due();
      DueFromIs(packetQueue, min, max);
      for o := min to if min <= max then max else min
        invariant index == o && min == old(min) && max == old(max)
        invariant o - min <= |due| && ret == due[..o - min]
        invariant packetQueue == map k | k in old(packetQueue) && !(min <= k < o) :: old(packetQueue)[k]
      {
        if o in packetQueue {
          ret := ret + [packetQueue[o]];
        } else {
          break;
        }
        packetQueue := packetQueue - {o};
        index := index + 1;
      }
      min := index;
      assert ret == due;
    }
  }

  /** A hash table with at most one full packet is walked in only one way. */
  lemma OnlyOrder(order: seq<nat>, id: nat, full: bool)
    requires Enumerates(order, if full then {id} else {})
    ensures order == if full then [id] else []
  {
    EnumeratesSize(order, if full then {id} else {});
    assert full ==> order[0] in order;
  }
}
