/** The server's bookkeeping as the program keeps it, updated in place. */
module Servers {
  import opened Registries

  class SessionWorker {
    var session: map<Address, nat>
    var workers: map<nat, nat>

    function Model(): Allocation
      reads this
    {
      Allocation(session, workers)
    }

    constructor (threads: nat)
      ensures Model() == Empty(threads).registry.allocation
    {
      session, workers := map[], map[];
      new;
      for i := 0 to threads
        invariant session == map[] && workers == Idle(i)
      {
        workers := workers[i := 0];
      }
    }

    /** Without a single worker the program would stop. */
    method Add(address: Address) returns (y: nat)
      requires workers != map[]
      modifies this
      ensures old(Model()).LeastLoaded(y) && Model() == old(Model()).Assign(address, y)
      ensures session == old(session)[address := y] && workers == old(workers)[y := old(workers)[y] + 1]
    {
      var rest := workers.Keys;
      y :| y in workers;
      while rest != {}
        invariant Model() == old(Model()) && rest <= workers.Keys && y in workers
        invariant forall i :: i in workers && i !in rest ==> workers[y] <= workers[i]
        decreases rest
      {
        var i :| i in rest;
        if workers[i] < workers[y] {
          y := i;
        }
        rest := rest - {i};
      }
      workers := workers[y := workers[y] + 1];
      session := session[address := y];
    }

    method Delete(address: Address)
      requires Model().CanRelease(address)
      modifies this
      ensures Model() == old(Model()).Release(address)
    {
      if address in session {
        var i := session[address];
        session := session - {address};
        workers := workers[i := workers[i] - 1];
      }
    }
  }

  /** What becomes of a request to open a connection. */
  datatype Answer = PassedOn | AlreadyConnected | Accepted(worker: nat)

  class RakServer {
    var conns: map<Address, nat>
    var connectedId: seq<nat>
    const sessionWorker: SessionWorker

    function Model(): Registry
      reads this, sessionWorker
    {
      Registry(conns, connectedId, sessionWorker.Model())
    }

    constructor (threads: nat)
      ensures Model() == Empty(threads).registry && fresh(sessionWorker)
    {
      conns, connectedId := map[], [];
      sessionWorker := new SessionWorker(threads);
    }

    /** A packet from a known address goes to its connection, whatever it asks for. */
    method OpenConnectionRequest2(address: Address, guid: nat) returns (answer: Answer)
      requires Model().Agrees() && sessionWorker.workers != map[]
      modifies this, sessionWorker
      ensures Model().Agrees()
      ensures match answer
              case PassedOn => address in old(conns) && Model() == old(Model())
              case AlreadyConnected => address !in old(conns) && guid in old(connectedId) && Model() == old(Model())
              case Accepted(worker) =>
                old(Model()).Admits(address, guid) && old(Model()).allocation.LeastLoaded(worker)
                && Model() == old(Model()).Opened(address, guid, worker)
    {
      if address in conns {
        return PassedOn;
      }
      if guid in connectedId {
        return AlreadyConnected;
      }
      ghost var before := Model();
      var worker := sessionWorker.Add(address);
      conns := conns[address := guid];
      connectedId := connectedId + [guid];
      OpenKeepsAgreement(before, address, guid, worker);
      answer := Accepted(worker);
    }

    method ConnectionEnd(address: Address, guid: nat)
      requires Model().allocation.CanRelease(address)
      modifies this, sessionWorker
      ensures Model() == old(Model()).Ended(address, guid)
    {
      conns := conns - {address};
      sessionWorker.Delete(address);
      if guid in connectedId {
        var index := 0;
        while connectedId[index] != guid
          invariant index < |connectedId| && connectedId == old(connectedId) && conns == old(conns) - {address}
          invariant sessionWorker.Model() == old(sessionWorker.Model()).Release(address)
          invariant forall j :: 0 <= j < index ==> connectedId[j] != guid
          decreases |connectedId| - index
        {
          index := index + 1;
        }
        RemoveFirstAt(connectedId, guid, index);
        connectedId := connectedId[..index] + connectedId[index + 1..];
      } else {
        RemoveFirstAbsent(connectedId, guid);
      }
    }
  }
}
