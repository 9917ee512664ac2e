/** Which connections a server has, and which worker thread serves each. */
module Registries {
  import opened Frames

  datatype Address = Address(ip: bytes, port: nat)

  /** The allocator: the worker of each address, and the load of each worker. */
  datatype Allocation = Allocation(session: map<Address, nat>, workers: map<nat, nat>) {
    function Assign(address: Address, worker: nat): Allocation
      requires worker in workers
    {
      Allocation(session[address := worker], workers[worker := workers[worker] + 1])
    }

    /** A load of zero cannot be lowered: the program would stop. */
    predicate CanRelease(address: Address) {
      address in session ==> session[address] in workers && workers[session[address]] > 0
    }

    function Release(address: Address): Allocation
      requires CanRelease(address)
    {
      if address in session then
        Allocation(session - {address}, workers[session[address] := workers[session[address]] - 1])
      else
        this
    }

    ghost predicate LeastLoaded(worker: nat) {
      worker in workers && forall i :: i in workers ==> workers[worker] <= workers[i]
    }

    /** Each load is the number of addresses the worker serves. */
    ghost predicate Balanced() {
      && (forall a :: a in session ==> session[a] in workers)
      && (forall i :: i in workers ==> workers[i] == |Served(session, i)|)
    }
  }

  ghost function Served(session: map<Address, nat>, worker: nat): set<Address> {
    set a | a in session && session[a] == worker
  }

  /** Without its first occurrence of `g`. */
  function RemoveFirst(s: seq<nat>, g: nat): seq<nat> {
    if s == [] then [] else if s[0] == g then s[1..] else [s[0]] + RemoveFirst(s[1..], g)
  }

  ghost predicate Distinct(s: seq<nat>) {
    forall i, j :: 0 <= i < j < |s| ==> s[i] != s[j]
  }

  /** `conns` gives, for each address, the guid its connection was opened with. */
  datatype Registry = Registry(conns: map<Address, nat>, connectedId: seq<nat>, allocation: Allocation) {
    /** The request to open a connection leads to a new one. */
    predicate Admits(address: Address, guid: nat) {
      address !in conns && guid !in connectedId
    }

    function Opened(address: Address, guid: nat, worker: nat): Registry
      requires worker in allocation.workers
    {
      if Admits(address, guid) then
        Registry(conns[address := guid], connectedId + [guid], allocation.Assign(address, worker))
      else
        this
    }

    function Ended(address: Address, guid: nat): Registry
      requires allocation.CanRelease(address)
    {
      Registry(conns - {address}, RemoveFirst(connectedId, guid), allocation.Release(address))
    }

    /** All four records describe the same connections. */
    ghost predicate Agrees() {
      && conns.Keys == allocation.session.Keys
      && Distinct(connectedId)
      && (forall g :: g in connectedId <==> g in conns.Values)
      && (forall a, b :: a in conns && b in conns && a != b ==> conns[a] != conns[b])
      && allocation.Balanced()
    }
  }

  // ---- The allocator ----

  lemma ServedAfter(session: map<Address, nat>, address: Address, worker: nat, i: nat)
    requires address !in session
    ensures |Served(session[address := worker], i)| == |Served(session, i)| + if i == worker then 1 else 0
  {
    assert Served(session[address := worker], i) == Served(session, i) + if i == worker then {address} else {};
  }

  lemma ServedWithout(session: map<Address, nat>, address: Address, i: nat)
    requires address in session
    ensures |Served(session, i)| == |Served(session - {address}, i)| + if i == session[address] then 1 else 0
  {
    assert Served(session, i) == Served(session - {address}, i) + if i == session[address] then {address} else {};
  }

  /** An assigned address is served by that worker, whose load is one higher; every other
      address and load is as before. */
  lemma AssignIs(a: Allocation, address: Address, worker: nat)
    requires worker in a.workers
    ensures var b := a.Assign(address, worker);
            && b.session.Keys == a.session.Keys + {address} && b.workers.Keys == a.workers.Keys
            && b.session[address] == worker && b.workers[worker] == a.workers[worker] + 1
            && (forall x :: x in a.session && x != address ==> b.session[x] == a.session[x])
            && (forall i :: i in a.workers && i != worker ==> b.workers[i] == a.workers[i])
  {
  }

  /** A released address is served by nobody, and the load of its worker is one lower. */
  lemma ReleaseIs(a: Allocation, address: Address)
    requires a.CanRelease(address)
    ensures var b := a.Release(address);
            && b.session.Keys == a.session.Keys - {address} && b.workers.Keys == a.workers.Keys
            && (address in a.session ==> b.workers[a.session[address]] == a.workers[a.session[address]] - 1)
            && (forall x :: x in a.session && x != address ==> b.session[x] == a.session[x])
            && (forall i :: i in a.workers && (address in a.session ==> i != a.session[address])
                  ==> b.workers[i] == a.workers[i])
  {
  }

  /** No two loads are further apart than `spread`. */
  ghost predicate Even(loads: map<nat, nat>, spread: nat) {
    forall i, j :: i in loads && j in loads ==> loads[i] <= loads[j] + spread
  }

  lemma AssignKeepsEven(a: Allocation, address: Address, worker: nat, spread: nat)
    requires a.LeastLoaded(worker) && spread >= 1 && Even(a.workers, spread)
    ensures Even(a.Assign(address, worker).workers, spread)
  {
    AssignIs(a, address, worker);
  }

  /** Exactly when an assignment is counted right: the address had no worker before. An
      address that had one leaves its old worker with a load too high, for good. */
  lemma AssignIsBalancedIff(a: Allocation, address: Address, worker: nat)
    requires a.Balanced() && worker in a.workers
    ensures a.Assign(address, worker).Balanced() <==> address !in a.session
  {
    if address !in a.session {
      forall i | i in a.workers
        ensures a.Assign(address, worker).workers[i] == |Served(a.session[address := worker], i)|
      {
        ServedAfter(a.session, address, worker, i);
      }
    } else {
      var bare := a.session - {address};
      assert a.session[address := worker] == bare[address := worker];
      ServedWithout(a.session, address, worker);
      ServedAfter(bare, address, worker, worker);
      ServedWithout(a.session, address, a.session[address]);
      ServedAfter(bare, address, worker, a.session[address]);
      assert a.session[address] in a.Assign(address, worker).workers;
    }
  }

  /** The load that is lowered is never zero, and the count stays right. */
  lemma ReleaseIsBalanced(a: Allocation, address: Address)
    requires a.Balanced()
    ensures a.CanRelease(address) && a.Release(address).Balanced()
  {
    if address in a.session {
      forall i | i in a.workers
        ensures |Served(a.session, i)| == |Served(a.session - {address}, i)| + if i == a.session[address] then 1 else 0
      {
        ServedWithout(a.session, address, i);
      }
    }
  }

  /** What is assigned and then released leaves the loads as they were. */
  lemma ReleaseUndoesAssign(a: Allocation, address: Address, worker: nat)
    requires worker in a.workers && address !in a.session
    ensures a.Assign(address, worker).CanRelease(address) && a.Assign(address, worker).Release(address) == a
  {
  }

  // ---- The registry ----

  lemma {:induction false} RemoveFirstIs(s: seq<nat>, g: nat)
    requires Distinct(s)
    ensures Distinct(RemoveFirst(s, g))
    ensures forall x :: x in RemoveFirst(s, g) <==> x in s && x != g
  {
    if s != [] {
      var rest := s[1..];
      assert s == [s[0]] + rest;
      RemoveFirstIs(rest, g);
      assert s[0] !in rest;
    }
  }

  /** Taking out the entry at the first position that holds `g`. */
  lemma {:induction false} RemoveFirstAt(s: seq<nat>, g: nat, i: nat)
    requires i < |s| && s[i] == g && forall j :: 0 <= j < i ==> s[j] != g
    ensures RemoveFirst(s, g) == s[..i] + s[i + 1..]
  {
    if i > 0 {
      RemoveFirstAt(s[1..], g, i - 1);
      assert s[..i] == [s[0]] + s[1..][..i - 1] && s[1..][i..] == s[i + 1..];
    }
  }

  lemma {:induction false} RemoveFirstAbsent(s: seq<nat>, g: nat)
    requires g !in s
    ensures RemoveFirst(s, g) == s
  {
    if s != [] {
      RemoveFirstAbsent(s[1..], g);
      assert s == [s[0]] + s[1..];
    }
  }

  /** A connection is opened exactly for an address and a guid that are both unknown. It is
      then registered under both, and served by that worker; nothing else changes. */
  lemma OpenedIs(r: Registry, address: Address, guid: nat, worker: nat)
    requires worker in r.allocation.workers
    ensures var r' := r.Opened(address, guid, worker);
            if address in r.conns || guid in r.connectedId then r' == r
            else
              && r'.conns.Keys == r.conns.Keys + {address} && r'.conns[address] == guid
              && (forall a :: a in r.conns ==> r'.conns[a] == r.conns[a])
              && (forall g :: g in r'.connectedId <==> g in r.connectedId || g == guid)
              && address in r'.allocation.session && r'.allocation.session[address] == worker
              && r'.allocation.workers == r.allocation.workers[worker := r.allocation.workers[worker] + 1]
  {
  }

  lemma OpenKeepsAgreement(r: Registry, address: Address, guid: nat, worker: nat)
    requires r.Agrees() && worker in r.allocation.workers
    ensures r.Opened(address, guid, worker).Agrees()
  {
    if r.Admits(address, guid) {
      AssignIsBalancedIff(r.allocation, address, worker);
      var r' := r.Opened(address, guid, worker);
      forall g
        ensures g in r'.connectedId <==> g in r'.conns.Values
      {
        ValuesAfter(r.conns, address, guid, g);
      }
    }
  }

  lemma ValuesAfter(conns: map<Address, nat>, address: Address, guid: nat, g: nat)
    requires address !in conns
    ensures g in conns[address := guid].Values <==> g in conns.Values || g == guid
  {
    var after := conns[address := guid];
    assert after[address] == guid;
    if g in conns.Values {
      var a :| a in conns && conns[a] == g;
      assert after[a] == g;
    }
  }

  lemma ValuesWithout(conns: map<Address, nat>, address: Address, g: nat)
    requires forall a, b :: a in conns && b in conns && a != b ==> conns[a] != conns[b]
    ensures g in (conns - {address}).Values <==> g in conns.Values && (address in conns ==> g != conns[address])
  {
    if g in conns.Values && (address in conns ==> g != conns[address]) {
      var a :| a in conns && conns[a] == g;
      assert (conns - {address})[a] == g;
    }
  }

  /** Exactly which reports of an ended connection the registry survives: the one of a
      connection it has, under the guid it was opened with, or one of a connection of
      which it knows neither the address nor the guid. */
  lemma EndKeepsAgreementIff(r: Registry, address: Address, guid: nat)
    requires r.Agrees()
    ensures r.allocation.CanRelease(address)
    ensures r.Ended(address, guid).Agrees() <==>
      if address in r.conns then r.conns[address] == guid else guid !in r.connectedId
  {
    ReleaseIsBalanced(r.allocation, address);
    RemoveFirstIs(r.connectedId, guid);
    var r' := r.Ended(address, guid);
    forall g
      ensures g in r'.conns.Values <==> g in r.conns.Values && (address in r.conns ==> g != r.conns[address])
      ensures g in r'.connectedId <==> g in r.connectedId && g != guid
    {
      ValuesWithout(r.conns, address, g);
    }
    if address in r.conns {
      assert r.conns[address] in r.conns.Values;
    }
  }

  /** Ending what was just opened brings the registry back to where it was. */
  lemma EndUndoesOpen(r: Registry, address: Address, guid: nat, worker: nat)
    requires r.Agrees() && worker in r.allocation.workers && r.Admits(address, guid)
    ensures var r' := r.Opened(address, guid, worker);
            r'.allocation.CanRelease(address) && r'.Ended(address, guid) == r
  {
    ReleaseUndoesAssign(r.allocation, address, worker);
    var ids := r.connectedId + [guid];
    RemoveFirstAt(ids, guid, |r.connectedId|);
    assert ids[..|r.connectedId|] + ids[|r.connectedId| + 1..] == r.connectedId;
    assert r.conns[address := guid] - {address} == r.conns;
  }

  // ---- The server and its connections ----

  datatype Conn = Conn(address: Address, guid: nat)

  /** The registry, the connections that are running, and the reports of ended ones that
      wait to be handled. */
  datatype Server = Server(registry: Registry, running: set<Conn>, mailbox: seq<Conn>)

  datatype Event =
    | Open(address: Address, guid: nat, worker: nat)
    | End(conn: Conn)
    | Fail(conn: Conn)    // the connection stops without a report
    | HandleEnd

  /** So many workers, none of them with any load. */
  function Idle(threads: nat): map<nat, nat> {
    if threads == 0 then map[] else Idle(threads - 1)[threads - 1 := 0]
  }

  function Empty(threads: nat): Server {
    Server(Registry(map[], [], Allocation(map[], Idle(threads))), {}, [])
  }

  ghost predicate CanHappen(s: Server, event: Event) {
    match event
    case Open(_, _, worker) => s.registry.allocation.LeastLoaded(worker)
    case End(conn) => conn in s.running
    case Fail(conn) => conn in s.running
    case HandleEnd => s.mailbox != []
  }

  /** Lowering a load of zero would stop the server. */
  ghost predicate Sound(s: Server, event: Event) {
    event.HandleEnd? && s.mailbox != [] ==> s.registry.allocation.CanRelease(s.mailbox[0].address)
  }

  ghost function After(s: Server, event: Event): Server
    requires CanHappen(s, event) && Sound(s, event)
  {
    match event
    case Open(address, guid, worker) =>
      s.(registry := s.registry.Opened(address, guid, worker),
         running := s.running + if s.registry.Admits(address, guid) then {Conn(address, guid)} else {})
    case End(conn) => s.(running := s.running - {conn}, mailbox := s.mailbox + [conn])
    case Fail(conn) => s.(running := s.running - {conn})
    case HandleEnd =>
      s.(registry := s.registry.Ended(s.mailbox[0].address, s.mailbox[0].guid), mailbox := s.mailbox[1..])
  }

  ghost predicate Leads(s: Server, events: seq<Event>, s': Server)
    decreases |events|
  {
    if events == [] then s == s'
    else CanHappen(s, events[0]) && Sound(s, events[0]) && Leads(After(s, events[0]), events[1..], s')
  }

  ghost predicate Registered(conns: map<Address, nat>, c: Conn) {
    c.address in conns && conns[c.address] == c.guid
  }

  /** Whatever runs or waits to be taken down is registered, and nothing is reported twice. */
  ghost predicate Accounted(conns: map<Address, nat>, running: set<Conn>, mailbox: seq<Conn>) {
    && (forall c :: c in running ==> Registered(conns, c) && c !in mailbox)
    && (forall c :: c in mailbox ==> Registered(conns, c))
    && (forall i, j :: 0 <= i < j < |mailbox| ==> mailbox[i] != mailbox[j])
  }

  ghost predicate ServerInv(s: Server) {
    s.registry.Agrees() && Accounted(s.registry.conns, s.running, s.mailbox)
  }

  lemma EventKeepsInv(s: Server, event: Event)
    requires ServerInv(s) && CanHappen(s, event)
    ensures Sound(s, event) && ServerInv(After(s, event))
  {
    match event
    case Open(address, guid, worker) =>
      OpenKeepsAgreement(s.registry, address, guid, worker);
      OpenIsAccounted(s.registry.conns, s.running, s.mailbox, Conn(address, guid));
    case HandleEnd =>
      EndKeepsAgreementIff(s.registry, s.mailbox[0].address, s.mailbox[0].guid);
      EndIsAccounted(s.registry.conns, s.running, s.mailbox);
    case _ =>
  }

  lemma OpenIsAccounted(conns: map<Address, nat>, running: set<Conn>, mailbox: seq<Conn>, c: Conn)
    requires Accounted(conns, running, mailbox)
    ensures c.address !in conns ==> Accounted(conns[c.address := c.guid], running + {c}, mailbox)
  {
  }

  lemma EndIsAccounted(conns: map<Address, nat>, running: set<Conn>, mailbox: seq<Conn>)
    requires Accounted(conns, running, mailbox) && mailbox != []
    ensures Registered(conns, mailbox[0]) && Accounted(conns - {mailbox[0].address}, running, mailbox[1..])
  {
    var c, rest := mailbox[0], mailbox[1..];
    assert mailbox == [c] + rest && c in mailbox;
    forall d | d in running || d in rest
      ensures Registered(conns - {c.address}, d)
    {
      assert d in running || d in mailbox;
      assert Registered(conns, d);
      assert d != c;
      assert d == Conn(d.address, conns[d.address]) && c == Conn(c.address, conns[c.address]);
    }
  }

  lemma {:induction false} IdleIsIdle(threads: nat)
    ensures forall i :: i in Idle(threads) ==> Idle(threads)[i] == 0
    ensures forall i: nat :: i in Idle(threads) <==> i < threads
  {
    if threads > 0 { IdleIsIdle(threads - 1); }
  }

  lemma EmptyInv(threads: nat)
    ensures ServerInv(Empty(threads))
  {
    IdleIsIdle(threads);
    assert forall i: nat :: Served(map[], i) == {};
  }

  lemma {:induction false} LeadsKeepsInv(s: Server, events: seq<Event>, s': Server)
    requires ServerInv(s) && Leads(s, events, s')
    ensures ServerInv(s')
    decreases |events|
  {
    if events != [] {
      EventKeepsInv(s, events[0]);
      LeadsKeepsInv(After(s, events[0]), events[1..], s');
    }
  }

  /** In every state a server can reach, connections, guids and worker loads agree, and
      every waiting report is about a connection that is still registered under the same
      guid. */
  lemma RegistryAgrees(threads: nat, events: seq<Event>, s: Server)
    requires Leads(Empty(threads), events, s)
    ensures s.registry.Agrees()
    ensures forall c :: c in s.mailbox ==> Registered(s.registry.conns, c)
  {
    EmptyInv(threads);
    LeadsKeepsInv(Empty(threads), events, s);
  }

  /** And no event that can happen lowers a load of zero. */
  lemma NoEventStops(threads: nat, events: seq<Event>, s: Server, event: Event)
    requires Leads(Empty(threads), events, s) && CanHappen(s, event)
    ensures Sound(s, event)
  {
    EmptyInv(threads);
    LeadsKeepsInv(Empty(threads), events, s);
    EventKeepsInv(s, event);
  }

  /** However many connections are opened, the loads stay as even as they were, or within
      one of each other if they were as even as that. */
  lemma {:induction false} OpensKeepEven(s: Server, events: seq<Event>, s': Server, spread: nat)
    requires Leads(s, events, s') && forall e :: e in events ==> e.Open?
    requires spread >= 1 && Even(s.registry.allocation.workers, spread)
    ensures Even(s'.registry.allocation.workers, spread)
    decreases |events|
  {
    if events != [] {
      var e := events[0];
      assert e in events && forall x :: x in events[1..] ==> x in events;
      AssignKeepsEven(s.registry.allocation, e.address, e.worker, spread);
      OpensKeepEven(After(s, e), events[1..], s', spread);
    }
  }

  /** So a server that has only opened connections has spread them evenly over its workers,
      each of which carries the number of addresses it serves. */
  lemma OpensSpreadEvenly(threads: nat, events: seq<Event>, s: Server)
    requires Leads(Empty(threads), events, s) && forall e :: e in events ==> e.Open?
    ensures Even(s.registry.allocation.workers, 1) && s.registry.allocation.Balanced()
  {
    IdleIsIdle(threads);
    OpensKeepEven(Empty(threads), events, s, 1);
    RegistryAgrees(threads, events, s);
  }
}
