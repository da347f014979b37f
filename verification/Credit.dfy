/** Credit flow control of the Gemini transport (dart/gni/dart_rpc_gni.c: SENDCREDIT,
    RECVCREDIT, peer_process_send_list, rpc_credit_return, rpc_process_ack and the receive
    branch of __process_event), between two nodes that both send and receive over
    first-in first-out channels, with sends that succeed. */
module Credit {
  import opened Words

  function SendCredit(numBuf: nat): int { numBuf / 2 - 2 }

  function RecvCredit(numBuf: nat): int { numBuf / 2 - 4 }

  /** What travels: a message, or the command cn_ack_credit. */
  datatype Wire = Data(id: nat) | Ack

  /** What a node keeps about its peer: num_msg_at_peer, num_msg_recv and req_list; and the
      messages handed to it and received by it so far. */
  datatype Peer = Peer(credits: int, recv: int, queue: seq<nat>, submitted: seq<nat>, received: seq<nat>)

  /** One turn of the loop of peer_process_send_list that sends. */
  function Sent(p: Peer): Peer
    requires p.queue != []
  {
    p.(credits := p.credits - 1, queue := p.queue[1..])
  }

  /** Receiving w, and whether a credit return is sent. */
  function Received(p: Peer, w: Wire, numBuf: nat): (Peer, bool) {
    var recv := if w.Data? then p.recv + 1 else p.recv;
    var ack := recv == RecvCredit(numBuf);
    var credits := if w.Data? then p.credits
                   else if p.credits + RecvCredit(numBuf) > SendCredit(numBuf) then SendCredit(numBuf)
                   else p.credits + RecvCredit(numBuf);
    (p.(credits := credits, recv := if ack then 0 else recv,
        received := if w.Data? then p.received + [w.id] else p.received), ack)
  }

  lemma NothingPosted(ids: seq<nat>)
    ensures [] + ids == ids
  {}

  lemma OnePosted(ids: seq<nat>, posted: seq<nat>, rest: seq<nat>)
    requires posted + rest == ids && rest != []
    ensures (posted + [rest[0]]) + rest[1..] == ids
  {
    assert rest == [rest[0]] + rest[1..];
  }

  /** The peer record of one node. */
  class Node {
    const numBuf: nat
    var numMsgAtPeer: int
    var numMsgRecv: int
    var reqList: seq<nat>
    ghost var submitted: seq<nat>
    ghost var received: seq<nat>

    ghost function State(): Peer
      reads this
    {
      Peer(numMsgAtPeer, numMsgRecv, reqList, submitted, received)
    }

    constructor (numBuf: nat)
      ensures this.numBuf == numBuf && State() == Fresh(numBuf)
    {
      this.numBuf := numBuf;
      numMsgAtPeer := numBuf / 2 - 2;
      numMsgRecv := 0;
      reqList, submitted, received := [], [], [];
    }

    /** peer_process_send_list on a server: sends from the front of the queue, a credit for
        each message, until the queue or the credits run out. */
    method ProcessSendList() returns (posted: seq<nat>)
      modifies this
      ensures posted + reqList == old(reqList)
      ensures State() == old(State()).(credits := old(numMsgAtPeer) - |posted|, queue := reqList)
      ensures reqList == [] || numMsgAtPeer == 0
      ensures old(numMsgAtPeer) < 0 || |posted| <= old(numMsgAtPeer)
    {
      posted := [];
      ghost var was := reqList;
      NothingPosted(was);
      while reqList != []
        invariant posted + reqList == was && numMsgAtPeer == old(numMsgAtPeer) - |posted|
        invariant numMsgRecv == old(numMsgRecv) && submitted == old(submitted) && received == old(received)
        invariant old(numMsgAtPeer) < 0 || |posted| <= old(numMsgAtPeer)
        decreases |reqList|
      {
        if numMsgAtPeer == 0 { break; }
        OnePosted(was, posted, reqList);
        posted := posted + [reqList[0]];
        numMsgAtPeer := numMsgAtPeer - 1;
        reqList := reqList[1..];
      }
    }

    /** The receive branch of __process_event with rpc_credit_return and rpc_process_ack. */
    method Receive(w: Wire) returns (ack: bool)
      modifies this
      ensures (State(), ack) == Received(old(State()), w, numBuf)
    {
      if w.Data? {
        numMsgRecv := numMsgRecv + 1;
        received := received + [w.id];
      }
      ack := numMsgRecv == numBuf / 2 - 4;
      if ack { numMsgRecv := 0; }
      if w.Ack? {
        numMsgAtPeer := numMsgAtPeer + (numBuf / 2 - 4);
        if numMsgAtPeer > numBuf / 2 - 2 { numMsgAtPeer := numBuf / 2 - 2; }
      }
    }
  }

  function Fresh(numBuf: nat): Peer {
    Peer(SendCredit(numBuf), 0, [], [], [])
  }

  // ---- two nodes

  /** Nodes a and b, and the wires from each to the other. */
  datatype Sys = Sys(a: Peer, b: Peer, ab: seq<Wire>, ba: seq<Wire>)

  function Flip(s: Sys): Sys {
    Sys(s.b, s.a, s.ba, s.ab)
  }

  /** Node a is handed a message. */
  function Submit(s: Sys, id: nat): Sys {
    s.(a := s.a.(queue := s.a.queue + [id], submitted := s.a.submitted + [id]))
  }

  predicate CanSend(s: Sys) {
    s.a.queue != [] && s.a.credits != 0
  }

  function Send(s: Sys): Sys
    requires CanSend(s)
  {
    s.(a := Sent(s.a), ab := s.ab + [Data(s.a.queue[0])])
  }

  /** Node a takes the first thing off the wire from b. */
  function Take(s: Sys, numBuf: nat): Sys
    requires s.ba != []
  {
    var (a, ack) := Received(s.a, s.ba[0], numBuf);
    s.(a := a, ba := s.ba[1..], ab := if ack then s.ab + [Ack] else s.ab)
  }

  ghost predicate NextA(s: Sys, s': Sys, numBuf: nat) {
    || (exists id :: s' == Submit(s, id))
    || (CanSend(s) && s' == Send(s))
    || (s.ba != [] && s' == Take(s, numBuf))
  }

  ghost predicate Next(s: Sys, s': Sys, numBuf: nat) {
    NextA(s, s', numBuf) || NextA(Flip(s), Flip(s'), numBuf)
  }

  function Init(numBuf: nat): Sys {
    Sys(Fresh(numBuf), Fresh(numBuf), [], [])
  }

  ghost predicate IsRun(run: seq<Sys>, numBuf: nat) {
    run != [] && run[0] == Init(numBuf) && forall t :: 0 <= t < |run| - 1 ==> Next(run[t], run[t + 1], numBuf)
  }

  // ---- conservation

  /** The messages, and the number of credit returns, on a wire. */
  function Datas(ws: seq<Wire>): seq<nat> {
    if ws == [] then [] else
    Datas(ws[..|ws| - 1]) + if ws[|ws| - 1].Data? then [ws[|ws| - 1].id] else []
  }

  function Acks(ws: seq<Wire>): nat {
    if ws == [] then 0 else Acks(ws[..|ws| - 1]) + if ws[|ws| - 1].Ack? then 1 else 0
  }

  lemma {:induction false} WireSnoc(ws: seq<Wire>, w: Wire)
    ensures Datas(ws + [w]) == Datas(ws) + if w.Data? then [w.id] else []
    ensures Acks(ws + [w]) == Acks(ws) + if w.Ack? then 1 else 0
  {
    assert (ws + [w])[..|ws|] == ws;
  }

  lemma {:induction false} WireHead(ws: seq<Wire>)
    requires ws != []
    ensures Datas(ws) == (if ws[0].Data? then [ws[0].id] else []) + Datas(ws[1..])
    ensures Acks(ws) == (if ws[0].Ack? then 1 else 0) + Acks(ws[1..])
  {
    if |ws| > 1 {
      WireHead(ws[..|ws| - 1]);
      assert ws[..|ws| - 1][1..] == ws[1..][..|ws| - 2];
    }
  }

  lemma {:induction false} WireLength(ws: seq<Wire>)
    ensures |ws| == |Datas(ws)| + Acks(ws)
  {
    if ws != [] { WireLength(ws[..|ws| - 1]); }
  }

  /** From a to b: credits, messages under way, messages received since the last credit
      return, and credits being returned always add up; messages arrive in order, none lost. */
  predicate Balanced(s: Sys, numBuf: nat)
    requires numBuf >= 10
  {
    && s.a.credits + |Datas(s.ab)| + s.b.recv + Mul(Acks(s.ba), RecvCredit(numBuf)) == SendCredit(numBuf)
    && 0 <= s.a.credits && 0 <= s.b.recv < RecvCredit(numBuf)
    && s.b.received + Datas(s.ab) + s.a.queue == s.a.submitted
  }

  predicate Inv(s: Sys, numBuf: nat)
    requires numBuf >= 10
  {
    Balanced(s, numBuf) && Balanced(Flip(s), numBuf)
  }

  lemma {:induction false} SendKeeps(s: Sys, numBuf: nat)
    requires numBuf >= 10 && Inv(s, numBuf) && CanSend(s)
    ensures Inv(Send(s), numBuf)
  {
    hide Datas, Acks, Mul;
    var w := Data(s.a.queue[0]);
    WireSnoc(s.ab, w);
    assert s.b.received + (Datas(s.ab) + [w.id]) + s.a.queue[1..] == s.b.received + Datas(s.ab) + s.a.queue;
  }

  lemma {:induction false} SubmitKeeps(s: Sys, id: nat, numBuf: nat)
    requires numBuf >= 10 && Inv(s, numBuf)
    ensures Inv(Submit(s, id), numBuf)
  {
    hide Datas, Acks, Mul;
    assert s.b.received + Datas(s.ab) + (s.a.queue + [id]) == (s.b.received + Datas(s.ab) + s.a.queue) + [id];
  }

  lemma {:induction false} AckMul(k: nat, n: nat)
    ensures Mul(k + 1, n) == Mul(k, n) + n
  {}

  /** A credit return never takes a sender over the limit. */
  lemma {:induction false} CapIdle(s: Sys, numBuf: nat)
    requires numBuf >= 10 && Inv(s, numBuf) && s.ba != [] && s.ba[0].Ack?
    ensures s.a.credits + RecvCredit(numBuf) <= SendCredit(numBuf)
  {
    hide Datas, Acks, Mul;
    WireHead(s.ba);
    AckMul(Acks(s.ba[1..]), RecvCredit(numBuf));
  }

  lemma {:induction false} TakeKeeps(s: Sys, numBuf: nat)
    requires numBuf >= 10 && Inv(s, numBuf) && s.ba != []
    ensures Inv(Take(s, numBuf), numBuf)
  {
    hide Datas, Acks, Mul;
    var w, r := s.ba[0], RecvCredit(numBuf);
    WireHead(s.ba);
    WireSnoc(s.ab, Ack);
    AckMul(Acks(s.ab), r);
    if w.Ack? {
      CapIdle(s, numBuf);
      AckMul(Acks(s.ba[1..]), r);
    }
    assert s.a.received + Datas(s.ba) + s.b.queue == (s.a.received + (if w.Data? then [w.id] else [])) + Datas(s.ba[1..]) + s.b.queue;
    assert Datas(s.ab) + [] == Datas(s.ab);
  }

  lemma {:induction false} StepKeeps(s: Sys, s': Sys, numBuf: nat)
    requires numBuf >= 10 && Inv(s, numBuf) && Next(s, s', numBuf)
    ensures Inv(s', numBuf)
  {
    hide Datas, Acks, Mul, Balanced, Received;
    if NextA(s, s', numBuf) { StepAKeeps(s, s', numBuf); } else { StepAKeeps(Flip(s), Flip(s'), numBuf); }
  }

  lemma {:induction false} StepAKeeps(s: Sys, s': Sys, numBuf: nat)
    requires numBuf >= 10 && Inv(s, numBuf) && NextA(s, s', numBuf)
    ensures Inv(s', numBuf)
  {
    hide Datas, Acks, Mul, Balanced, Received;
    if id :| s' == Submit(s, id) {
      SubmitKeeps(s, id, numBuf);
    } else if CanSend(s) && s' == Send(s) {
      SendKeeps(s, numBuf);
    } else {
      TakeKeeps(s, numBuf);
    }
  }

  lemma {:induction false} RunInv(run: seq<Sys>, numBuf: nat, t: nat)
    requires numBuf >= 10 && IsRun(run, numBuf) && t < |run|
    ensures Inv(run[t], numBuf)
  {
    hide Balanced, Next;
    if t == 0 {
      InitBalanced(numBuf);
    } else {
      RunInv(run, numBuf, t - 1);
      assert Next(run[t - 1], run[t - 1 + 1], numBuf);
      StepKeeps(run[t - 1], run[t], numBuf);
    }
  }

  lemma InitBalanced(numBuf: nat)
    requires numBuf >= 10
    ensures Balanced(Init(numBuf), numBuf)
  {}

  lemma {:induction false} FewAcks(k: nat, r: nat)
    requires r > 0 && Mul(k, r) <= r + 2
    ensures k <= 3
  {
    hide Mul;
    MulIsProduct(4, r);
    if k > 4 { MulStep(4, k, r); }
  }

  /** The wire from a to b fits the mailbox of num_buf messages. */
  lemma {:induction false} Fits(s: Sys, numBuf: nat)
    requires numBuf >= 10 && Inv(s, numBuf)
    ensures |s.ab| <= numBuf
  {
    hide Datas, Acks, Mul;
    WireLength(s.ab);
    FewAcks(Acks(s.ab), RecvCredit(numBuf));
  }

  /** A sender without credits has a message or a credit return under way. */
  lemma {:induction false} NotStalled(s: Sys, numBuf: nat)
    requires numBuf >= 10 && Inv(s, numBuf) && s.a.credits == 0
    ensures (exists w :: w in s.ab && w.Data?) || Ack in s.ba
  {
    hide Acks, Mul;
    if Datas(s.ab) != [] {
      SomeData(s.ab);
    } else {
      SomeAck(s.ba);
      MulSmall(RecvCredit(numBuf));
    }
  }

  lemma {:induction false} SomeData(ws: seq<Wire>)
    requires Datas(ws) != []
    ensures exists w :: w in ws && w.Data?
  {
    if ws[|ws| - 1].Data? { assert ws[|ws| - 1] in ws; } else { SomeData(ws[..|ws| - 1]); }
  }

  lemma {:induction false} SomeAck(ws: seq<Wire>)
    ensures Acks(ws) > 0 ==> Ack in ws
  {
    if ws != [] { SomeAck(ws[..|ws| - 1]); }
  }

  /** In every reachable state of two nodes with at least ten buffers both directions
      balance, neither mailbox overflows, the cap on returned credits changes nothing, and
      who has no credit left will get one back. */
  lemma {:induction false} RunSafe(run: seq<Sys>, numBuf: nat, t: nat)
    requires numBuf >= 10 && IsRun(run, numBuf) && t < |run|
    ensures Inv(run[t], numBuf) && |run[t].ab| <= numBuf && |run[t].ba| <= numBuf
    ensures run[t].ba != [] && run[t].ba[0].Ack? ==> run[t].a.credits + RecvCredit(numBuf) <= SendCredit(numBuf)
    ensures run[t].ab != [] && run[t].ab[0].Ack? ==> run[t].b.credits + RecvCredit(numBuf) <= SendCredit(numBuf)
    ensures run[t].a.credits == 0 ==> (exists w :: w in run[t].ab && w.Data?) || Ack in run[t].ba
    ensures run[t].b.credits == 0 ==> (exists w :: w in run[t].ba && w.Data?) || Ack in run[t].ab
  {
    hide IsRun, Balanced;
    RunInv(run, numBuf, t);
    Fits(run[t], numBuf);
    Fits(Flip(run[t]), numBuf);
    if run[t].ba != [] && run[t].ba[0].Ack? { CapIdle(run[t], numBuf); }
    if run[t].ab != [] && run[t].ab[0].Ack? { CapIdle(Flip(run[t]), numBuf); }
    if run[t].a.credits == 0 { NotStalled(run[t], numBuf); }
    if run[t].b.credits == 0 { NotStalled(Flip(run[t]), numBuf); }
  }

  // ---- a pass over the queue

  /** Messages as they go on the wire. */
  function Wires(ids: seq<nat>): (ws: seq<Wire>)
    ensures |ws| == |ids| && forall i :: 0 <= i < |ids| ==> ws[i] == Data(ids[i])
  {
    seq(|ids|, i requires 0 <= i < |ids| => Data(ids[i]))
  }

  /** A sequence of steps. */
  ghost predicate Steps(run: seq<Sys>, numBuf: nat) {
    run != [] && forall t :: 0 <= t < |run| - 1 ==> Next(run[t], run[t + 1], numBuf)
  }

  /** A pass that posts k messages is k steps of the runs. */
  lemma {:induction false} PassIsSends(s: Sys, k: nat, numBuf: nat) returns (run: seq<Sys>)
    requires k <= |s.a.queue| && (s.a.credits < 0 || k <= s.a.credits)
    ensures Steps(run, numBuf) && |run| == k + 1 && run[0] == s
    ensures run[k] == s.(a := s.a.(credits := s.a.credits - k, queue := s.a.queue[k..]), ab := s.ab + Wires(s.a.queue[..k]))
  {
    hide Next;
    if k == 0 {
      run := [s];
      assert s.ab + [] == s.ab && s.a.queue[0..] == s.a.queue;
      assert Wires(s.a.queue[..0]) == [];
    } else {
      run := PassIsSends(s, k - 1, numBuf);
      var u := run[k - 1];
      var u' := Send(u);
      SendNext(u, numBuf);
      assert u.a.queue[0] == s.a.queue[k - 1] && u.a.queue[1..] == s.a.queue[k..];
      assert Wires(s.a.queue[..k]) == Wires(s.a.queue[..k - 1]) + [Data(s.a.queue[k - 1])];
      assert u'.ab == s.ab + Wires(s.a.queue[..k]);
      run := run + [u'];
    }
  }

  lemma SendNext(s: Sys, numBuf: nat)
    requires CanSend(s)
    ensures Next(s, Send(s), numBuf)
  {}

  // ---- fewer than ten buffers

  ghost predicate Reaches(s: Sys, numBuf: nat) {
    exists run :: IsRun(run, numBuf) && run[|run| - 1] == s
  }

  lemma {:induction false} Extend(s: Sys, s': Sys, numBuf: nat)
    requires Reaches(s, numBuf) && Next(s, s', numBuf)
    ensures Reaches(s', numBuf)
  {
    hide Next;
    var run :| IsRun(run, numBuf) && run[|run| - 1] == s;
    assert IsRun(run + [s'], numBuf);
    assert (run + [s'])[|run|] == s';
  }

  /** Node a has sent k messages and b has received m of them. */
  function Flight(numBuf: nat, k: nat, m: nat): Sys
    requires m <= k
  {
    var ids := seq(k, _ => 0);
    Sys(Peer(SendCredit(numBuf) - k, 0, [], ids, []), Peer(SendCredit(numBuf), m, [], [], ids[..m]),
        seq(k - m, _ => Data(0)), [])
  }

  lemma {:induction false} FlightReached(numBuf: nat, k: nat, m: nat)
    requires numBuf < 10 && m <= k && (k <= SendCredit(numBuf) || SendCredit(numBuf) < 0)
    requires m > 0 ==> SendCredit(numBuf) >= 0
    ensures Reaches(Flight(numBuf, k, m), numBuf)
    decreases k + m
  {
    hide Reaches, IsRun;
    var s' := Flight(numBuf, k, m);
    if k == 0 {
      FlightStart(numBuf);
    } else if m == 0 {
      var s := Flight(numBuf, k - 1, 0);
      FlightReached(numBuf, k - 1, 0);
      Extend(s, Submit(s, 0), numBuf);
      assert s'.a.submitted == s.a.submitted + [0] && s'.ab == s.ab + [Data(0)];
      assert Send(Submit(s, 0)) == s';
      Extend(Submit(s, 0), s', numBuf);
    } else {
      var s := Flight(numBuf, k, m - 1);
      FlightReached(numBuf, k, m - 1);
      assert s'.b.received == s.b.received + [0] && s'.ab == s.ab[1..];
      assert Take(Flip(s), numBuf) == Flip(s');
      Extend(s, s', numBuf);
    }
  }

  lemma FlightStart(numBuf: nat)
    ensures Reaches(Flight(numBuf, 0, 0), numBuf)
  {
    assert Flight(numBuf, 0, 0) == Init(numBuf);
    assert IsRun([Init(numBuf)], numBuf);
  }

  /** Node a has no credit and nothing that could bring one back exists. */
  predicate Dead(s: Sys) {
    s.a.credits == 0 && s.ab == [] && Ack !in s.ba && s.a.recv >= 0 && s.b.recv >= 0
  }

  lemma {:induction false} DeadStays(s: Sys, s': Sys, numBuf: nat)
    requires numBuf < 10 && Dead(s) && Next(s, s', numBuf)
    ensures Dead(s')
  {
    if NextA(s, s', numBuf) {
      if s.ba != [] && s' == Take(s, numBuf) { assert s.ba[0] in s.ba; }
    } else {
      assert s' == Flip(Flip(s'));
    }
  }

  lemma {:induction false} DeadForever(run: seq<Sys>, numBuf: nat, t: nat)
    requires numBuf < 10 && Steps(run, numBuf) && Dead(run[0]) && t < |run|
    ensures Dead(run[t])
  {
    hide Next, Dead;
    if t > 0 {
      DeadForever(run, numBuf, t - 1);
      assert Next(run[t - 1], run[t - 1 + 1], numBuf);
      DeadStays(run[t - 1], run[t], numBuf);
    }
  }

  /** With four to nine buffers a sender can run out of credits for good: from some
      reachable state on it never has a credit and nothing of its queue is sent ... */
  lemma {:induction false} Stalls(numBuf: nat)
    requires 4 <= numBuf < 10
    ensures exists s :: Reaches(s, numBuf) && Dead(s)
                        && forall run, t :: Steps(run, numBuf) && run[0] == s && 0 <= t < |run| ==> Dead(run[t])
  {
    hide Reaches, Next;
    var n := SendCredit(numBuf);
    FlightReached(numBuf, n, n);
    var s := Flight(numBuf, n, n);
    assert Dead(s);
    forall run, t | Steps(run, numBuf) && run[0] == s && 0 <= t < |run| ensures Dead(run[t]) { DeadForever(run, numBuf, t); }
  }

  /** ... and with fewer, nothing stops it from overrunning the mailbox. */
  lemma {:induction false} Overflows(numBuf: nat)
    requires numBuf < 4
    ensures exists s :: Reaches(s, numBuf) && |s.ab| > numBuf
  {
    hide Reaches;
    FlightReached(numBuf, numBuf + 1, 0);
    assert |Flight(numBuf, numBuf + 1, 0).ab| > numBuf;
  }
}
