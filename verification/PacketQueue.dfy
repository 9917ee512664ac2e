/** The sending queue as the program keeps it, updated in place. */
module PacketQueues {
  import opened Frames
  import opened SendQueues

  class PacketQueue {
    var queue: map<nat, FrameSet>
    var timePassed: map<nat, Stamp>
    var max: nat
    var sendMin: nat
    var resend: seq<nat>
    var setSize: nat
    var setQueue: seq<Frame>
    const mtu: nat

    function Model(): SendQueue
      reads this
    {
      SendQueue(queue, timePassed, max, sendMin, resend, setSize, setQueue, mtu)
    }

    constructor (mtu: nat)
      ensures Model() == EmptyQueue(mtu)
    {
      queue, timePassed := map[], map[];
      max, sendMin := 0, 0;
      resend := [];
      setSize, setQueue := 0, [];
      this.mtu := mtu;
    }

    /** The budget `mtu - 42` is computed in 16 unsigned bits. */
    method AddFrame(frame: Frame, now: nat)
      requires mtu >= 42
      modifies this
      ensures Model() == old(Model()).AddFrame(frame, now)
    {
      if setSize + frame.Length() < mtu - 42 && !frame.split {
        setSize := setSize + frame.Length();
        setQueue := setQueue + [frame];
      } else {
        var header: byte;
        if frame.split {
          header := DATAGRAM_FLAG + NEEDS_B_AND_AS_FLAG + CONTINUOUS_SEND_FLAG;
        } else {
          header := DATAGRAM_FLAG + NEEDS_B_AND_AS_FLAG;
        }
        Add(FrameSet(header, max, [frame]), now);
      }
    }

    method Add(frameSet: FrameSet, now: nat)
      modifies this
      ensures Model() == old(Model()).Add(frameSet, now)
    {
      if frameSet.sequenceNumber == max {
        max := max + 1;
        timePassed := timePassed[frameSet.sequenceNumber := Stamp(now, false)];
        queue := queue[frameSet.sequenceNumber := frameSet];
      }
    }

    method Received(sequence: nat)
      modifies this
      ensures Model() == old(Model()).Received(sequence)
    {
      if sequence in queue {
        queue := queue - {sequence};
        timePassed := timePassed - {sequence};
      }
    }

    method Tick(now: nat) returns (ghost order: seq<nat>)
      modifies this
      ensures Enumerates(order, old(Model()).CloseBatch(now).Expired(now))
      ensures Model() == old(Model()).Tick(now, order)
    {
      if setQueue != [] {
        var set_ := FrameSet(DATAGRAM_FLAG + NEEDS_B_AND_AS_FLAG, max, setQueue);
        Add(set_, now);
        setQueue := [];
        setSize := 0;
      }
      order := [];
      var rest := timePassed.Keys;
      while rest != {}
        invariant rest <= timePassed.Keys
        invariant Enumerates(order, Model().Expired(now) - rest)
        invariant Model() == old(Model()).CloseBatch(now).(resend := old(resend) + order)
        decreases rest
      {
        var k :| k in rest;
        if timePassed[k].sent && now - timePassed[k].at > RESEND_MILLIS {
          resend := resend + [k];
          order := order + [k];
        }
        rest := rest - {k};
      }
    }

    method Readd(now: nat)
      modifies this
      ensures Model() == old(Model()).Readd(now)
    {
      var i := 0;
      while i < |resend|
        invariant i <= |resend| && resend == old(resend)
        invariant Model().RenumberAll(resend[i..], now) == old(Model()).RenumberAll(resend, now)
      {
        var k := resend[i];
        ghost var before := Model();
        if k in queue {
          var added := queue[k].(sequenceNumber := max);
          queue := queue[max := added];
          queue := queue - {k};
          timePassed := timePassed - {k};
          timePassed := timePassed[max := Stamp(now, false)];
          max := max + 1;
        }
        assert resend[i..][1..] == resend[i + 1..];
        i := i + 1;
      }
      assert resend[i..] == [];
      assert Model() == old(Model()).RenumberAll(old(resend), now);
      resend := [];
    }

    /** A stamped entry without a frame set would stop the program here. */
    method Resend(index: nat, now: nat)
      requires index in timePassed ==> index in queue
      modifies this
      ensures Model() == old(Model()).Resend(index, now)
    {
      if index in timePassed {
        var added := queue[index].(sequenceNumber := max);
        queue := queue[max := added];
        queue := queue - {index};
        timePassed := timePassed - {index};
        timePassed := timePassed[max := Stamp(now, false)];
        max := max + 1;
      }
    }

    method GetPacket(now: nat) returns (ret: seq<FrameSet>, ghost order: seq<nat>)
      requires Model().Valid()
      modifies this
      ensures Enumerates(order, old(Model()).CloseBatch(now).Expired(now))
      ensures var prepared := old(Model()).Prepared(now, order);
              && prepared.Valid()
              && ret == prepared.Emission()
              && Model() == prepared.Emitted()
    {
      order := Tick(now);
      Readd(now);
      PreparedIsValid(old(Model()), now, order);
      ret := EmitWindow();
    }

    /** The loop of `GetPacket`. Both lookups succeed because the state is valid. */
    method EmitWindow() returns (ret: seq<FrameSet>)
      requires Model().Valid()
      modifies this
      ensures ret == old(Model()).Emission() && Model() == old(Model()).Emitted()
    {
      ret := [];
      ghost var q := Model();
      assert Marked(q.timePassed, sendMin, sendMin) == q.timePassed;
      for i := sendMin to max
        invariant ret == Slice(q.queue, q.sendMin, i) && timePassed == Marked(q.timePassed, q.sendMin, i)
        invariant Model() == q.(timePassed := timePassed)
      {
        ret := ret + [queue[i]];
        MarkedNext(q.timePassed, sendMin, i);
        timePassed := timePassed[i := timePassed[i].(sent := true)];
      }
      sendMin := max;
    }
  }
}
