/** The client side of the lock service and the messages in flight (src/dc_gspace.c:
    dcg_lock_request, dcgrpc_lock_service, dcg_lock_on_*, dcg_unlock_on_*), common to all
    three lock types.

    Each client sends its requests to the server over a first-in first-out channel and
    receives grants the same way; it asks for one lock at a time and releases only what
    it holds. */
module LockClients {

  datatype Kind = Rd | Wr

  datatype Msg = Get(kind: Kind, num: nat) | Release(kind: Kind, num: nat)

  /** A pending request on the server's wait list. */
  datatype Req = Req(client: nat, kind: Kind, num: nat)

  datatype Pc = Idle | Waiting | Holding

  /** One client: what it is doing, the kind of its current lock, its lock number, the
      messages on their way to the server, and the grants on their way back. */
  datatype Client = Client(pc: Pc, kind: Kind, num: nat, chan: seq<Msg>, inbox: seq<nat>)

  /** All clients, and the server's wait list. */
  datatype Net = Net(clients: seq<Client>, wait: seq<Req>)

  datatype Held = Nothing | Holds(kind: Kind)

  /** The lock a client has as far as the server knows: granted and not yet released. */
  function HeldAt(c: Client): Held {
    if c.inbox != [] || c.pc == Holding then Holds(c.kind)
    else if c.chan != [] && c.chan[0].Release? then Holds(c.chan[0].kind)
    else Nothing
  }

  function Count(cs: seq<Client>, h: Held): nat {
    if cs == [] then 0 else Count(cs[..|cs| - 1], h) + if HeldAt(cs[|cs| - 1]) == h then 1 else 0
  }

  lemma {:induction false} CountUpdate(cs: seq<Client>, i: nat, c: Client, h: Held)
    requires i < |cs|
    ensures Count(cs[i := c], h) + (if HeldAt(cs[i]) == h then 1 else 0)
            == Count(cs, h) + (if HeldAt(c) == h then 1 else 0)
  {
    hide HeldAt;
    if i == |cs| - 1 {
      assert cs[i := c][..|cs| - 1] == cs[..|cs| - 1];
    } else {
      CountUpdate(cs[..|cs| - 1], i, c, h);
      assert cs[i := c][..|cs| - 1] == cs[..|cs| - 1][i := c];
    }
  }

  lemma {:induction false} CountSome(cs: seq<Client>, i: nat, h: Held)
    requires i < |cs| && HeldAt(cs[i]) == h
    ensures Count(cs, h) > 0
  {
    hide HeldAt;
    if i < |cs| - 1 { CountSome(cs[..|cs| - 1], i, h); }
  }

  lemma {:induction false} NobodyHolds(cs: seq<Client>, h: Held)
    requires h != Nothing && forall i :: 0 <= i < |cs| ==> HeldAt(cs[i]) == Nothing
    ensures Count(cs, h) == 0
  {
    hide HeldAt;
    if cs != [] { NobodyHolds(cs[..|cs| - 1], h); }
  }

  /** The client has something to do: start or release a lock, or a message to deliver. */
  predicate CanMove(c: Client) {
    c.pc != Waiting || c.chan != [] || c.inbox != []
  }

  // ---- where a client's request is

  predicate Waits(net: Net, i: nat) {
    exists k :: 0 <= k < |net.wait| && net.wait[k].client == i
  }

  predicate InTransit(c: Client) {
    || (|c.chan| == 1 && c.chan[0] == Get(c.kind, c.num))
    || (|c.chan| == 2 && c.chan[0].Release? && c.chan[1] == Get(c.kind, c.num))
  }

  predicate ClientInv(net: Net, i: nat)
    requires i < |net.clients|
  {
    var c := net.clients[i];
    match c.pc
    case Idle => c.inbox == [] && !Waits(net, i) && (c.chan == [] || (|c.chan| == 1 && c.chan[0].Release?))
    case Waiting =>
      || (c.inbox == [] && !Waits(net, i) && InTransit(c))
      || (c.inbox == [] && c.chan == [] && Waits(net, i))
      || (c.inbox == [c.num + 1] && c.chan == [] && !Waits(net, i))
    case Holding => c.inbox == [] && c.chan == [] && !Waits(net, i)
  }

  predicate WaitInv(net: Net) {
    && (forall k :: 0 <= k < |net.wait| ==>
          var r := net.wait[k];
          r.client < |net.clients| && net.clients[r.client].kind == r.kind && net.clients[r.client].num == r.num)
    && (forall k, l :: 0 <= k < l < |net.wait| ==> net.wait[k].client != net.wait[l].client)
  }

  predicate NetInv(net: Net) {
    (forall i :: 0 <= i < |net.clients| ==> ClientInv(net, i)) && WaitInv(net)
  }

  // ---- the steps of the clients and what the server does with their messages

  /** dcg_lock_on_read / dcg_lock_on_write up to the wait for the grant. */
  function Ask(net: Net, i: nat, kind: Kind): Net
    requires i < |net.clients|
  {
    var c := net.clients[i];
    net.(clients := net.clients[i := c.(pc := Waiting, kind := kind, chan := c.chan + [Get(kind, c.num)])])
  }

  /** dcgrpc_lock_service: the grant arrives and carries the new lock number. */
  function Arrive(net: Net, i: nat): Net
    requires i < |net.clients| && net.clients[i].inbox != []
  {
    var c := net.clients[i];
    net.(clients := net.clients[i := c.(pc := Holding, num := c.inbox[0], inbox := c.inbox[1..])])
  }

  /** dcg_unlock_on_read / dcg_unlock_on_write. */
  function Drop(net: Net, i: nat): Net
    requires i < |net.clients|
  {
    var c := net.clients[i];
    net.(clients := net.clients[i := c.(pc := Idle, chan := c.chan + [Release(c.kind, c.num)])])
  }

  /** The server takes a release off a channel. */
  function TakeRelease(net: Net, i: nat): Net
    requires i < |net.clients| && net.clients[i].chan != []
  {
    var c := net.clients[i];
    net.(clients := net.clients[i := c.(chan := c.chan[1..])])
  }

  /** The server takes a request off a channel and grants it: dsg_lock_grant answers with
      the lock number plus one. */
  function TakeGrant(net: Net, i: nat): Net
    requires i < |net.clients| && net.clients[i].chan != []
  {
    var c := net.clients[i];
    net.(clients := net.clients[i := c.(chan := c.chan[1..], inbox := c.inbox + [c.chan[0].num + 1])])
  }

  /** The server takes a request off a channel and makes it wait. */
  function TakeWait(net: Net, i: nat): Net
    requires i < |net.clients| && net.clients[i].chan != []
  {
    var c := net.clients[i];
    Net(net.clients[i := c.(chan := c.chan[1..])], net.wait + [Req(i, c.chan[0].kind, c.chan[0].num)])
  }

  /** The server grants the k-th waiting request. */
  function WaitGrant(net: Net, k: nat): Net
    requires k < |net.wait|
  {
    var r := net.wait[k];
    Net(if r.client >= |net.clients| then net.clients else
        var c := net.clients[r.client];
        net.clients[r.client := c.(inbox := c.inbox + [r.num + 1])],
        net.wait[..k] + net.wait[k + 1..])
  }

  /** struct dcg_lock, on a client that keeps one lock; its messages are the steps above. */
  class DcgLock {
    var lockNum: nat
    var ack: bool
    var req: bool
    ghost var pc: Pc
    ghost var kind: Kind

    /** The wait for the lock ends exactly when the grant is there. */
    ghost predicate Valid()
      reads this
    {
      (pc == Waiting ==> !ack && req) && (pc == Holding ==> ack && !req)
    }

    /** The client, with nothing on its way. */
    ghost function Local(): Client
      reads this
    {
      Client(pc, kind, lockNum, [], [])
    }

    constructor ()
      ensures Valid() && Local() == Client(Idle, Rd, 0, [], [])
    {
      lockNum, ack, req, pc, kind := 0, false, false, Idle, Rd;
    }

    /** dcg_lock_request for a lock. */
    method Lock(k: Kind) returns (msg: Msg)
      requires Valid() && pc == Idle
      modifies this
      ensures Valid()
      ensures Local().(chan := [] + [msg]) == Ask(Net([old(Local())], []), 0, k).clients[0]
    {
      msg := Get(k, lockNum);
      ack, req := false, true;
      pc, kind := Waiting, k;
    }

    /** dcgrpc_lock_service */
    method Service(num: nat)
      requires Valid() && pc == Waiting
      modifies this
      ensures Valid()
      ensures Local().(inbox := [num][1..]) == Arrive(Net([old(Local()).(inbox := [num])], []), 0).clients[0]
    {
      lockNum, ack, req := num, true, false;
      pc := Holding;
    }

    /** dcg_lock_request for a release. */
    method Unlock(k: Kind) returns (msg: Msg)
      requires Valid() && pc == Holding && kind == k
      modifies this
      ensures Valid()
      ensures Local().(chan := [] + [msg]) == Drop(Net([old(Local())], []), 0).clients[0]
    {
      msg := Release(k, lockNum);
      ack, req := false, true;
      pc := Idle;
    }
  }

  // ---- each step keeps the invariant and moves one held lock at most

  /** Client i changed from c to c', nobody else did. */
  predicate Moved(net: Net, net': Net, i: nat) {
    && i < |net.clients| == |net'.clients|
    && forall j :: 0 <= j < |net.clients| && j != i ==> net'.clients[j] == net.clients[j]
  }

  lemma {:induction false} Others(net: Net, net': Net, i: nat)
    requires NetInv(net) && Moved(net, net', i)
    requires forall j: nat :: j != i ==> (Waits(net', j) <==> Waits(net, j))
    requires ClientInv(net', i) && WaitInv(net')
    ensures NetInv(net')
  {
    hide InTransit, Waits, WaitInv;
    forall j | 0 <= j < |net'.clients| ensures ClientInv(net', j) {
      if j != i { assert ClientInv(net, j); }
    }
  }

  lemma {:induction false} AskKeeps(net: Net, i: nat, kind: Kind)
    requires NetInv(net) && i < |net.clients| && net.clients[i].pc == Idle
    ensures NetInv(Ask(net, i, kind))
    ensures forall h :: Count(Ask(net, i, kind).clients, h) == Count(net.clients, h)
    ensures HeldAt(Ask(net, i, kind).clients[i]) == HeldAt(net.clients[i])
  {
    hide Count;
    var net' := Ask(net, i, kind);
    assert ClientInv(net, i);
    forall h ensures Count(net'.clients, h) == Count(net.clients, h) { CountUpdate(net.clients, i, net'.clients[i], h); }
    assert forall j: nat :: Waits(net', j) <==> Waits(net, j);
    assert WaitInv(net') by { assert forall k :: 0 <= k < |net.wait| ==> net.wait[k].client != i; }
    Others(net, net', i);
  }

  lemma {:induction false} ArriveKeeps(net: Net, i: nat)
    requires NetInv(net) && i < |net.clients| && net.clients[i].inbox != []
    ensures NetInv(Arrive(net, i))
    ensures forall h :: Count(Arrive(net, i).clients, h) == Count(net.clients, h)
    ensures net.clients[i].pc == Waiting && Arrive(net, i).clients[i].num == net.clients[i].num + 1
  {
    hide Count;
    var net' := Arrive(net, i);
    assert ClientInv(net, i);
    forall h ensures Count(net'.clients, h) == Count(net.clients, h) { CountUpdate(net.clients, i, net'.clients[i], h); }
    assert forall j: nat :: Waits(net', j) <==> Waits(net, j);
    assert WaitInv(net') by { assert forall k :: 0 <= k < |net.wait| ==> net.wait[k].client != i; }
    Others(net, net', i);
  }

  lemma {:induction false} DropKeeps(net: Net, i: nat)
    requires NetInv(net) && i < |net.clients| && net.clients[i].pc == Holding
    ensures NetInv(Drop(net, i))
    ensures forall h :: Count(Drop(net, i).clients, h) == Count(net.clients, h)
  {
    hide Count;
    var net' := Drop(net, i);
    assert ClientInv(net, i);
    forall h ensures Count(net'.clients, h) == Count(net.clients, h) { CountUpdate(net.clients, i, net'.clients[i], h); }
    assert forall j: nat :: Waits(net', j) <==> Waits(net, j);
    assert WaitInv(net');
    Others(net, net', i);
  }

  lemma {:induction false} TakeReleaseKeeps(net: Net, i: nat)
    requires NetInv(net) && i < |net.clients| && net.clients[i].chan != [] && net.clients[i].chan[0].Release?
    ensures NetInv(TakeRelease(net, i))
    ensures HeldAt(net.clients[i]) == Holds(net.clients[i].chan[0].kind) && HeldAt(TakeRelease(net, i).clients[i]) == Nothing
    ensures forall h :: h != Nothing ==>
              (Count(TakeRelease(net, i).clients, h) ==
               Count(net.clients, h) - if h == Holds(net.clients[i].chan[0].kind) then 1 else 0)
  {
    hide Count;
    var net' := TakeRelease(net, i);
    assert ClientInv(net, i);
    forall h | h != Nothing ensures Count(net'.clients, h) ==
              Count(net.clients, h) - if h == Holds(net.clients[i].chan[0].kind) then 1 else 0
    {
      CountUpdate(net.clients, i, net'.clients[i], h);
    }
    assert forall j: nat :: Waits(net', j) <==> Waits(net, j);
    assert WaitInv(net');
    Others(net, net', i);
  }

  /** What the server knows when a request arrives. */
  lemma RequestFacts(net: Net, i: nat)
    requires NetInv(net) && i < |net.clients| && net.clients[i].chan != [] && net.clients[i].chan[0].Get?
    ensures var c := net.clients[i];
            c.pc == Waiting && c.chan == [Get(c.kind, c.num)] && c.inbox == [] && !Waits(net, i) && HeldAt(c) == Nothing
  {
    assert ClientInv(net, i);
  }

  lemma {:induction false} TakeGrantKeeps(net: Net, i: nat)
    requires NetInv(net) && i < |net.clients| && net.clients[i].chan != [] && net.clients[i].chan[0].Get?
    ensures NetInv(TakeGrant(net, i))
    ensures HeldAt(net.clients[i]) == Nothing && HeldAt(TakeGrant(net, i).clients[i]) == Holds(net.clients[i].kind)
    ensures forall h :: h != Nothing ==>
              (Count(TakeGrant(net, i).clients, h) ==
               Count(net.clients, h) + if h == Holds(net.clients[i].kind) then 1 else 0)
  {
    hide Count;
    var net' := TakeGrant(net, i);
    RequestFacts(net, i);
    forall h | h != Nothing ensures Count(net'.clients, h) ==
              Count(net.clients, h) + if h == Holds(net.clients[i].kind) then 1 else 0
    {
      CountUpdate(net.clients, i, net'.clients[i], h);
    }
    assert forall j: nat :: Waits(net', j) <==> Waits(net, j);
    assert WaitInv(net');
    Others(net, net', i);
  }

  lemma {:induction false} TakeWaitKeeps(net: Net, i: nat)
    requires NetInv(net) && i < |net.clients| && net.clients[i].chan != [] && net.clients[i].chan[0].Get?
    ensures NetInv(TakeWait(net, i))
    ensures forall h :: Count(TakeWait(net, i).clients, h) == Count(net.clients, h)
  {
    hide Count;
    var net' := TakeWait(net, i);
    RequestFacts(net, i);
    forall h ensures Count(net'.clients, h) == Count(net.clients, h) { CountUpdate(net.clients, i, net'.clients[i], h); }
    assert net'.wait[|net.wait|].client == i;
    forall j: nat | j != i ensures Waits(net', j) <==> Waits(net, j) {
      if Waits(net, j) {
        var k :| 0 <= k < |net.wait| && net.wait[k].client == j;
        assert net'.wait[k].client == j;
      }
    }
    assert WaitInv(net');
    Others(net, net', i);
  }

  lemma {:induction false} WaitGrantKeeps(net: Net, k: nat)
    requires NetInv(net) && k < |net.wait|
    ensures var r := net.wait[k];
            r.client < |net.clients| && NetInv(WaitGrant(net, k))
            && HeldAt(net.clients[r.client]) == Nothing
            && net.clients[r.client].pc == Waiting && net.clients[r.client].inbox == []
            && net.clients[r.client].kind == r.kind && net.clients[r.client].num == r.num
            && HeldAt(WaitGrant(net, k).clients[r.client]) == Holds(r.kind)
            && forall h :: h != Nothing ==>
                 (Count(WaitGrant(net, k).clients, h) == Count(net.clients, h) + if h == Holds(r.kind) then 1 else 0)
  {
    hide Count;
    var r := net.wait[k];
    assert r.client < |net.clients| by { assert WaitInv(net); }
    var i := r.client;
    assert ClientInv(net, i) && Waits(net, i);
    var net' := WaitGrant(net, k);
    forall h | h != Nothing ensures Count(net'.clients, h) == Count(net.clients, h) + if h == Holds(r.kind) then 1 else 0 {
      CountUpdate(net.clients, i, net'.clients[i], h);
    }
    WaitRemoved(net, k);
    Others(net, net', i);
  }

  /** The list without its k-th request. */
  lemma GrantedAt(net: Net, k: nat, l: nat)
    requires k < |net.wait|
    ensures |WaitGrant(net, k).wait| == |net.wait| - 1
    ensures l < |net.wait| - 1 ==> WaitGrant(net, k).wait[l] == net.wait[if l < k then l else l + 1]
  {}

  lemma GrantedClients(net: Net, k: nat)
    requires k < |net.wait|
    ensures |WaitGrant(net, k).clients| == |net.clients|
    ensures forall j :: 0 <= j < |net.clients| ==>
              (WaitGrant(net, k).clients[j].kind == net.clients[j].kind && WaitGrant(net, k).clients[j].num == net.clients[j].num)
  {}

  lemma {:induction false} WaitRemoved(net: Net, k: nat)
    requires WaitInv(net) && k < |net.wait|
    ensures var i := net.wait[k].client;
            i < |net.clients| && WaitInv(WaitGrant(net, k)) && !Waits(WaitGrant(net, k), i)
            && forall j: nat :: j != i ==> (Waits(WaitGrant(net, k), j) <==> Waits(net, j))
  {
    hide WaitGrant;
    GrantedAt(net, k, 0);
    GrantedClients(net, k);
    var i, net' := net.wait[k].client, WaitGrant(net, k);
    forall l | 0 <= l < |net'.wait|
      ensures var r := net'.wait[l];
              r.client < |net'.clients| && r.client != i
              && net'.clients[r.client].kind == r.kind && net'.clients[r.client].num == r.num
    {
      GrantedAt(net, k, l);
    }
    forall l, m | 0 <= l < m < |net'.wait| ensures net'.wait[l].client != net'.wait[m].client {
      GrantedAt(net, k, l);
      GrantedAt(net, k, m);
    }
    forall j: nat | j != i ensures Waits(net', j) <==> Waits(net, j) { WaitsStill(net, k, j); }
  }

  lemma {:induction false} WaitsStill(net: Net, k: nat, j: nat)
    requires k < |net.wait| && j != net.wait[k].client
    ensures Waits(WaitGrant(net, k), j) <==> Waits(net, j)
  {
    hide WaitGrant;
    GrantedAt(net, k, 0);
    var net' := WaitGrant(net, k);
    if Waits(net, j) {
      var l :| 0 <= l < |net.wait| && net.wait[l].client == j;
      var m := if l < k then l else l - 1;
      GrantedAt(net, k, m);
      assert net'.wait[m].client == j;
    }
    if Waits(net', j) {
      var l :| 0 <= l < |net'.wait| && net'.wait[l].client == j;
      GrantedAt(net, k, l);
    }
  }
}
