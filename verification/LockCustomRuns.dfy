/** Whole runs of the custom lock: any number of clients, any interleaving. */
module LockCustomRuns {
  import opened Words
  import opened LockClients
  import opened LockCustom

  /** A grant: to whom, of which kind, in which round, and how many releases of each kind
      the server had received by then. */
  datatype Ev = Ev(client: nat, kind: Kind, epoch: nat, wrRel: nat, rdRel: nat)

  /** The server's counters, the clients and messages, and the history. */
  datatype Sys = Sys(sem: Sem, net: Net, log: seq<Ev>, wrRel: nat, rdRel: nat)

  function Event(s: Sys, client: nat, kind: Kind): Ev {
    Ev(client, kind, Epoch(s.sem, kind), s.wrRel, s.rdRel)
  }

  // ---- steps

  /** One pass over the wait list. */
  function DrainSys(s: Sys, k: nat): Sys
    requires k <= |s.net.wait|
    decreases |s.net.wait| - k
  {
    if k == |s.net.wait| then s else
    var r := s.net.wait[k];
    if Grantable(s.sem, r.kind, r.num) then
      DrainSys(s.(sem := Granted(s.sem, r.kind), net := WaitGrant(s.net, k), log := s.log + [Event(s, r.client, r.kind)]), k)
    else DrainSys(s, k + 1)
  }

  /** The server receives the first message of client i. */
  function ServeSys(s: Sys, i: nat): Sys
    requires i < |s.net.clients| && s.net.clients[i].chan != []
  {
    var msg := s.net.clients[i].chan[0];
    match msg
    case Get(kind, num) =>
      if Grantable(s.sem, kind, num) then
        s.(sem := Granted(s.sem, kind), net := TakeGrant(s.net, i), log := s.log + [Event(s, i, kind)])
      else s.(net := TakeWait(s.net, i))
    case Release(kind, _) =>
      var s' := Freed(s, i);
      if Released(s.sem, kind).1 then DrainSys(s', 0) else s'
  }

  /** After a release has been counted, before the wait list is looked at. */
  function Freed(s: Sys, i: nat): Sys
    requires i < |s.net.clients| && s.net.clients[i].chan != []
  {
    var kind := s.net.clients[i].chan[0].kind;
    Sys(Released(s.sem, kind).0, TakeRelease(s.net, i), s.log,
        s.wrRel + (if kind == Wr then 1 else 0), s.rdRel + if kind == Rd then 1 else 0)
  }

  /** The log grows by the granted requests, in order. */
  predicate Logged(log: seq<Ev>, log': seq<Ev>, granted: seq<Req>) {
    && |log'| == |log| + |granted| && log'[..|log|] == log
    && forall j :: 0 <= j < |granted| ==>
         var ev := log'[|log| + j];
         ev.client == granted[j].client && ev.kind == granted[j].kind && ev.epoch == granted[j].num
  }

  /** The requests granted by a pass, as the server object reports them. */
  lemma {:induction false} DrainAgrees(s: Sys, k: nat)
    requires k <= |s.net.wait|
    ensures var d := Drain(s.sem, s.net.wait, k);
            DrainSys(s, k).sem == d.0 && DrainSys(s, k).net.wait == d.1
            && Logged(s.log, DrainSys(s, k).log, d.2)
    decreases |s.net.wait| - k
  {
    if k < |s.net.wait| {
      var r := s.net.wait[k];
      if Grantable(s.sem, r.kind, r.num) {
        var s' := s.(sem := Granted(s.sem, r.kind), net := WaitGrant(s.net, k), log := s.log + [Event(s, r.client, r.kind)]);
        DrainAgrees(s', k);
        LoggedMore(s.log, Event(s, r.client, r.kind), DrainSys(s', k).log, r, Drain(s'.sem, s'.net.wait, k).2);
      } else {
        DrainAgrees(s, k + 1);
      }
    }
  }

  lemma LoggedMore(log: seq<Ev>, ev: Ev, log': seq<Ev>, r: Req, granted: seq<Req>)
    requires Logged(log + [ev], log', granted)
    requires ev.client == r.client && ev.kind == r.kind && ev.epoch == r.num
    ensures Logged(log, log', [r] + granted)
  {
    assert log'[..|log| + 1][|log|] == ev;
    assert log'[..|log| + 1][..|log|] == log'[..|log|];
    forall j | 0 <= j < |[r] + granted|
      ensures var e := log'[|log| + j];
              e.client == ([r] + granted)[j].client && e.kind == ([r] + granted)[j].kind && e.epoch == ([r] + granted)[j].num
    {
      if j > 0 { assert log'[|log + [ev]| + (j - 1)] == log'[|log| + j]; }
    }
  }

  /** The system's server is the lock object's `Service`. */
  lemma {:induction false} ServeAgrees(s: Sys, i: nat)
    requires i < |s.net.clients| && s.net.clients[i].chan != []
    ensures var d := Serve(s.sem, s.net.wait, i, s.net.clients[i].chan[0]);
            ServeSys(s, i).sem == d.0 && ServeSys(s, i).net.wait == d.1
            && Logged(s.log, ServeSys(s, i).log, d.2)
  {
    hide DrainSys, Drain;
    var msg := s.net.clients[i].chan[0];
    if msg.Release? && Released(s.sem, msg.kind).1 {
      DrainAgrees(Freed(s, i), 0);
    }
  }

  lemma NetInvWait(net: Net)
    requires NetInv(net)
    ensures WaitInv(net)
  {}

  predicate Next(s: Sys, s': Sys) {
    || (exists i, kind :: 0 <= i < |s.net.clients| && s.net.clients[i].pc == Idle && s' == s.(net := Ask(s.net, i, kind)))
    || (exists i :: 0 <= i < |s.net.clients| && s.net.clients[i].inbox != [] && s' == s.(net := Arrive(s.net, i)))
    || (exists i :: 0 <= i < |s.net.clients| && s.net.clients[i].pc == Holding && s' == s.(net := Drop(s.net, i)))
    || (exists i :: 0 <= i < |s.net.clients| && s.net.clients[i].chan != [] && s' == ServeSys(s, i))
  }

  function Init(maxReaders: nat, n: nat): Sys {
    Sys(SemInit(maxReaders), Net(seq(n, _ => Client(Idle, Rd, 0, [], [])), []), [], 0, 0)
  }

  // ---- the invariant

  predicate WritePhase(s: Sys) {
    && s.sem.wrEpoch == s.sem.rdEpoch && s.sem.rdCnt == 0 && s.sem.rdNotify == 0
    && Count(s.net.clients, Holds(Rd)) == 0
    && s.sem.wrCnt + Count(s.net.clients, Holds(Wr)) == 1
  }

  /** Tokens, readers that hold the lock and releases of the round add up to rd_max. */
  predicate ReadPhase(s: Sys) {
    && s.sem.wrEpoch == s.sem.rdEpoch + 1 && s.sem.wrCnt == 0 && s.sem.rdNotify < s.sem.rdMax
    && Count(s.net.clients, Holds(Wr)) == 0
    && s.sem.rdCnt + Count(s.net.clients, Holds(Rd)) + s.sem.rdNotify == s.sem.rdMax
  }

  /** The lock number a client will have once its messages have arrived. */
  function TrueNum(c: Client): nat {
    if c.inbox != [] then c.inbox[0] else c.num
  }

  predicate RoundsInv(s: Sys) {
    && s.sem.wrMax == 1 && s.sem.rdMax > 0 && s.sem.wrNotify == 0
    && (WritePhase(s) || ReadPhase(s))
    && s.wrRel == s.sem.wrEpoch && s.rdRel == Mul(s.sem.rdEpoch, s.sem.rdMax) + s.sem.rdNotify
  }

  /** Round e reads are granted after exactly e + 1 write releases; round e writes after
      exactly e write releases and all rd_max releases of each earlier round. */
  predicate EvInv(s: Sys, ev: Ev) {
    && ev.client < |s.net.clients| && ev.epoch < TrueNum(s.net.clients[ev.client])
    && (ev.kind == Rd ==> ev.wrRel == ev.epoch + 1)
    && (ev.kind == Wr ==> ev.wrRel == ev.epoch && ev.rdRel == Mul(ev.epoch, s.sem.rdMax))
  }

  /** Each client is granted at most once per round. */
  predicate LogInv(s: Sys) {
    && (forall a :: 0 <= a < |s.log| ==> EvInv(s, s.log[a]))
    && (forall a, b :: 0 <= a < b < |s.log| && s.log[a].client == s.log[b].client ==> s.log[a].epoch < s.log[b].epoch)
  }

  predicate Inv(s: Sys) {
    NetInv(s.net) && RoundsInv(s) && LogInv(s)
  }

  /** No waiting request could be granted: no wake-up is lost. */
  predicate NoneGrantable(s: Sys) {
    forall k :: 0 <= k < |s.net.wait| ==> !Grantable(s.sem, s.net.wait[k].kind, s.net.wait[k].num)
  }

  // ---- every step keeps it

  /** Steps that change neither the counters nor what is held. */
  lemma {:induction false} QuietStep(s: Sys, net': Net)
    requires RoundsInv(s) && LogInv(s) && |net'.clients| == |s.net.clients|
    requires Count(net'.clients, Holds(Rd)) == Count(s.net.clients, Holds(Rd))
    requires Count(net'.clients, Holds(Wr)) == Count(s.net.clients, Holds(Wr))
    requires forall j :: 0 <= j < |net'.clients| ==> TrueNum(net'.clients[j]) == TrueNum(s.net.clients[j])
    ensures RoundsInv(s.(net := net')) && LogInv(s.(net := net'))
  {
    hide Count, Mul;
    var s' := s.(net := net');
    forall a | 0 <= a < |s.log| ensures EvInv(s', s.log[a]) { assert EvInv(s, s.log[a]); }
  }

  /** A grant to client i, whose lock number is the current round. */
  lemma {:induction false} GrantStep(s: Sys, net': Net, i: nat, kind: Kind)
    requires RoundsInv(s) && LogInv(s) && Moved(s.net, net', i) && Cnt(s.sem, kind) > 0
    requires Count(net'.clients, Holds(kind)) == Count(s.net.clients, Holds(kind)) + 1
    requires var o := if kind == Rd then Wr else Rd; Count(net'.clients, Holds(o)) == Count(s.net.clients, Holds(o))
    requires TrueNum(s.net.clients[i]) == Epoch(s.sem, kind) && TrueNum(net'.clients[i]) == Epoch(s.sem, kind) + 1
    ensures var s' := s.(sem := Granted(s.sem, kind), net := net', log := s.log + [Event(s, i, kind)]);
            RoundsInv(s') && LogInv(s')
  {
    hide Count, Mul;
    var s' := s.(sem := Granted(s.sem, kind), net := net', log := s.log + [Event(s, i, kind)]);
    forall a | 0 <= a < |s'.log| ensures EvInv(s', s'.log[a]) {
      if a < |s.log| { assert EvInv(s, s.log[a]); }
    }
    forall a | 0 <= a < |s.log| && s.log[a].client == i ensures s.log[a].epoch < Epoch(s.sem, kind) {
      assert EvInv(s, s.log[a]);
    }
  }

  lemma {:induction false} WaitGrantStep(s: Sys, k: nat)
    requires Inv(s) && k < |s.net.wait| && Grantable(s.sem, s.net.wait[k].kind, s.net.wait[k].num)
    ensures s.net.wait[k].client < |s.net.clients|
    ensures var r := s.net.wait[k];
            Inv(s.(sem := Granted(s.sem, r.kind), net := WaitGrant(s.net, k), log := s.log + [Event(s, r.client, r.kind)]))
  {
    hide Count, RoundsInv, LogInv, NetInv;
    var r := s.net.wait[k];
    WaitGrantKeeps(s.net, k);
    GrantStep(s, WaitGrant(s.net, k), r.client, r.kind);
  }

  lemma {:induction false} DrainKeeps(s: Sys, k: nat)
    requires Inv(s) && k <= |s.net.wait|
    requires forall j :: 0 <= j < k ==> !Grantable(s.sem, s.net.wait[j].kind, s.net.wait[j].num)
    ensures Inv(DrainSys(s, k)) && NoneGrantable(DrainSys(s, k))
    ensures DrainSys(s, k).sem.rdMax == s.sem.rdMax && |DrainSys(s, k).net.clients| == |s.net.clients|
    decreases |s.net.wait| - k
  {
    hide RoundsInv, LogInv, NetInv;
    NetInvWait(s.net);
    if k < |s.net.wait| {
      var r := s.net.wait[k];
      if Grantable(s.sem, r.kind, r.num) {
        WaitGrantStep(s, k);
        WaitRemoved(s.net, k);
        DrainKeeps(s.(sem := Granted(s.sem, r.kind), net := WaitGrant(s.net, k), log := s.log + [Event(s, r.client, r.kind)]), k);
      } else {
        DrainKeeps(s, k + 1);
      }
    }
  }

  lemma {:induction false} FreedStep(s: Sys, i: nat)
    requires Inv(s) && i < |s.net.clients| && s.net.clients[i].chan != [] && s.net.clients[i].chan[0].Release?
    ensures Inv(Freed(s, i))
    ensures !Released(s.sem, s.net.clients[i].chan[0].kind).1 && NoneGrantable(s) ==> NoneGrantable(Freed(s, i))
  {
    hide Count, NetInv;
    TakeReleaseKeeps(s.net, i);
    var kind := s.net.clients[i].chan[0].kind;
    CountSome(s.net.clients, i, Holds(kind));
    FreedRounds(s, i);
    var s' := Freed(s, i);
    assert LogInv(s') by {
      hide Mul;
      forall a | 0 <= a < |s.log| ensures EvInv(s', s.log[a]) { assert EvInv(s, s.log[a]); }
    }
  }

  lemma {:induction false} FreedRounds(s: Sys, i: nat)
    requires RoundsInv(s) && i < |s.net.clients| && s.net.clients[i].chan != []
    requires var kind := s.net.clients[i].chan[0].kind;
             && Count(s.net.clients, Holds(kind)) > 0
             && Count(TakeRelease(s.net, i).clients, Holds(kind)) == Count(s.net.clients, Holds(kind)) - 1
             && var o := if kind == Rd then Wr else Rd;
                Count(TakeRelease(s.net, i).clients, Holds(o)) == Count(s.net.clients, Holds(o))
    ensures RoundsInv(Freed(s, i))
  {
    hide Count, Mul;
    MulAdd(s.sem.rdEpoch, 1, s.sem.rdMax);
    MulSmall(s.sem.rdMax);
  }

  /** Every step keeps the invariant and loses no wake-up. */
  lemma {:induction false} StepKeeps(s: Sys, s': Sys)
    requires Inv(s) && NoneGrantable(s) && Next(s, s')
    ensures Inv(s') && NoneGrantable(s')
    ensures s'.sem.rdMax == s.sem.rdMax && |s'.net.clients| == |s.net.clients|
  {
    hide Count, NetInv, RoundsInv, LogInv, Ask, Arrive, Drop, ServeSys, Grantable;
    if i, kind :| 0 <= i < |s.net.clients| && s.net.clients[i].pc == Idle && s' == s.(net := Ask(s.net, i, kind)) {
      AskStep(s, i, kind);
    } else if i :| 0 <= i < |s.net.clients| && s.net.clients[i].inbox != [] && s' == s.(net := Arrive(s.net, i)) {
      ArriveStep(s, i);
    } else if i :| 0 <= i < |s.net.clients| && s.net.clients[i].pc == Holding && s' == s.(net := Drop(s.net, i)) {
      DropStep(s, i);
    } else {
      var i :| 0 <= i < |s.net.clients| && s.net.clients[i].chan != [] && s' == ServeSys(s, i);
      ServeStep(s, i);
    }
  }

  lemma {:induction false} AskStep(s: Sys, i: nat, kind: Kind)
    requires Inv(s) && NoneGrantable(s) && i < |s.net.clients| && s.net.clients[i].pc == Idle
    ensures Inv(s.(net := Ask(s.net, i, kind))) && NoneGrantable(s.(net := Ask(s.net, i, kind)))
    ensures |Ask(s.net, i, kind).clients| == |s.net.clients|
  {
    hide Count, NetInv, RoundsInv, LogInv, Grantable;
    AskKeeps(s.net, i, kind);
    QuietStep(s, Ask(s.net, i, kind));
  }

  lemma {:induction false} ArriveStep(s: Sys, i: nat)
    requires Inv(s) && NoneGrantable(s) && i < |s.net.clients| && s.net.clients[i].inbox != []
    ensures Inv(s.(net := Arrive(s.net, i))) && NoneGrantable(s.(net := Arrive(s.net, i)))
    ensures |Arrive(s.net, i).clients| == |s.net.clients|
  {
    hide Count, RoundsInv, LogInv, Grantable, Waits, InTransit;
    ArriveKeeps(s.net, i);
    assert ClientInv(s.net, i);
    QuietStep(s, Arrive(s.net, i));
  }

  lemma {:induction false} DropStep(s: Sys, i: nat)
    requires Inv(s) && NoneGrantable(s) && i < |s.net.clients| && s.net.clients[i].pc == Holding
    ensures Inv(s.(net := Drop(s.net, i))) && NoneGrantable(s.(net := Drop(s.net, i)))
    ensures |Drop(s.net, i).clients| == |s.net.clients|
  {
    hide Count, NetInv, RoundsInv, LogInv, Grantable;
    DropKeeps(s.net, i);
    QuietStep(s, Drop(s.net, i));
  }

  lemma {:induction false} ServeStep(s: Sys, i: nat)
    requires Inv(s) && NoneGrantable(s) && i < |s.net.clients| && s.net.clients[i].chan != []
    ensures Inv(ServeSys(s, i)) && NoneGrantable(ServeSys(s, i))
    ensures ServeSys(s, i).sem.rdMax == s.sem.rdMax && |ServeSys(s, i).net.clients| == |s.net.clients|
  {
    hide Count, NetInv, RoundsInv, LogInv, DrainSys, TrueNum;
    var msg := s.net.clients[i].chan[0];
    if msg.Get? {
      RequestFacts(s.net, i);
      if Grantable(s.sem, msg.kind, msg.num) {
        TakeGrantKeeps(s.net, i);
        TrueNums(s.net.clients[i], TakeGrant(s.net, i).clients[i]);
        GrantStep(s, TakeGrant(s.net, i), i, msg.kind);
      } else {
        TakeWaitKeeps(s.net, i);
        TrueNumSame(s.net.clients[i], TakeWait(s.net, i).clients[i]);
        QuietStep(s, TakeWait(s.net, i));
      }
    } else {
      FreedStep(s, i);
      if Released(s.sem, msg.kind).1 { DrainKeeps(Freed(s, i), 0); }
    }
  }

  lemma TrueNums(c: Client, c': Client)
    requires c.inbox == [] && c'.inbox == [c.num + 1]
    ensures TrueNum(c) == c.num && TrueNum(c') == c.num + 1
  {}

  lemma TrueNumSame(c: Client, c': Client)
    requires c.inbox == c'.inbox && c.num == c'.num
    ensures TrueNum(c) == TrueNum(c')
  {}

  // ---- whole runs

  ghost predicate IsRun(run: seq<Sys>, maxReaders: nat, n: nat) {
    && run != [] && run[0] == Init(maxReaders, n)
    && forall t :: 0 <= t < |run| - 1 ==> Next(run[t], run[t + 1])
  }

  lemma {:induction false} InitInv(maxReaders: nat, n: nat)
    requires maxReaders > 0
    ensures Inv(Init(maxReaders, n)) && NoneGrantable(Init(maxReaders, n))
  {
    var s := Init(maxReaders, n);
    NobodyHolds(s.net.clients, Holds(Rd));
    NobodyHolds(s.net.clients, Holds(Wr));
  }

  /** In every reachable state: never a reader and a writer, nor two writers; in the read
      phase tokens, holders and releases add up to rd_max; read grants of a round follow
      its write release, the next write grant follows all rd_max read releases, and no
      client is granted twice in a round; a request waits only for its turn. */
  lemma {:induction false} RunSafe(run: seq<Sys>, maxReaders: nat, n: nat, t: nat)
    requires IsRun(run, maxReaders, n) && maxReaders > 0 && t < |run|
    ensures Inv(run[t]) && NoneGrantable(run[t])
    ensures run[t].sem.rdMax == maxReaders && |run[t].net.clients| == n
    ensures Count(run[t].net.clients, Holds(Wr)) <= 1
    ensures Count(run[t].net.clients, Holds(Wr)) > 0 ==> Count(run[t].net.clients, Holds(Rd)) == 0
    ensures forall k :: 0 <= k < |run[t].net.wait| ==> WaitsForTurn(run[t], run[t].net.wait[k])
  {
    hide NetInv, LogInv, NoneGrantable, Next, Count, WaitsForTurn;
    if t == 0 {
      InitInv(maxReaders, n);
    } else {
      RunSafe(run, maxReaders, n, t - 1);
      assert Next(run[t - 1], run[t - 1 + 1]);
      StepKeeps(run[t - 1], run[t]);
    }
    forall k | 0 <= k < |run[t].net.wait| ensures WaitsForTurn(run[t], run[t].net.wait[k]) { WaitsOnly(run[t], k); }
  }

  /** A request waits because its round is not on, or because the lock is taken: for
      reading by rd_max readers of the round, for writing by a writer. */
  predicate WaitsForTurn(s: Sys, r: Req) {
    if r.kind == Rd then
      s.sem.wrEpoch != r.num + 1 || s.sem.rdEpoch != r.num || Count(s.net.clients, Holds(Rd)) + s.sem.rdNotify == s.sem.rdMax
    else
      s.sem.wrEpoch != r.num || s.sem.rdEpoch != r.num || Count(s.net.clients, Holds(Wr)) == 1
  }

  lemma {:induction false} WaitsOnly(s: Sys, k: nat)
    requires RoundsInv(s) && NoneGrantable(s) && k < |s.net.wait|
    ensures WaitsForTurn(s, s.net.wait[k])
  {
    hide Count, Mul;
    var r := s.net.wait[k];
    assert !Grantable(s.sem, r.kind, r.num);
  }

  // ---- one writer and exactly rd_max readers: no deadlock

  function Role(i: nat): Kind { if i == 0 then Wr else Rd }

  predicate KindOk(c: Client, kind: Kind) {
    c.kind == kind && forall j :: 0 <= j < |c.chan| ==> c.chan[j].kind == kind
  }

  predicate Roles(s: Sys) {
    |s.net.clients| == s.sem.rdMax + 1 && forall i :: 0 <= i < |s.net.clients| ==> KindOk(s.net.clients[i], Role(i))
  }

  /** The readers that have been granted the current round. */
  function Ahead(cs: seq<Client>, e: nat): nat {
    if |cs| <= 1 then 0
    else Ahead(cs[..|cs| - 1], e) + if TrueNum(cs[|cs| - 1]) == e + 1 then 1 else 0
  }

  predicate Numbers(s: Sys) {
    && |s.net.clients| > 0
    && TrueNum(s.net.clients[0]) == s.sem.wrEpoch + Count(s.net.clients, Holds(Wr))
    && (forall i :: 1 <= i < |s.net.clients| ==> s.sem.rdEpoch <= TrueNum(s.net.clients[i]) <= s.sem.rdEpoch + 1)
    && Ahead(s.net.clients, s.sem.rdEpoch) + s.sem.rdCnt == if ReadPhase(s) then s.sem.rdMax else 0
  }

  lemma {:induction false} AheadUpdate(cs: seq<Client>, i: nat, c: Client, e: nat)
    requires 1 <= i < |cs|
    ensures Ahead(cs[i := c], e) + (if TrueNum(cs[i]) == e + 1 then 1 else 0)
            == Ahead(cs, e) + (if TrueNum(c) == e + 1 then 1 else 0)
  {
    hide TrueNum;
    if i == |cs| - 1 {
      assert cs[i := c][..|cs| - 1] == cs[..|cs| - 1];
    } else {
      AheadUpdate(cs[..|cs| - 1], i, c, e);
      assert cs[i := c][..|cs| - 1] == cs[..|cs| - 1][i := c];
    }
  }

  lemma {:induction false} AheadSame(cs: seq<Client>, cs': seq<Client>, e: nat)
    requires |cs'| == |cs| && forall j :: 1 <= j < |cs| ==> TrueNum(cs'[j]) == TrueNum(cs[j])
    ensures Ahead(cs', e) == Ahead(cs, e)
  {
    hide TrueNum;
    if |cs| > 1 { AheadSame(cs[..|cs| - 1], cs'[..|cs| - 1], e); }
  }

  lemma {:induction false} AheadBound(cs: seq<Client>, e: nat)
    requires |cs| > 0
    ensures Ahead(cs, e) <= |cs| - 1
    ensures Ahead(cs, e) == |cs| - 1 ==> forall j :: 1 <= j < |cs| ==> TrueNum(cs[j]) == e + 1
    ensures (forall j :: 1 <= j < |cs| ==> TrueNum(cs[j]) != e + 1) ==> Ahead(cs, e) == 0
    ensures Ahead(cs, e) < |cs| - 1 ==> exists j :: 1 <= j < |cs| && TrueNum(cs[j]) != e + 1
  {
    hide TrueNum;
    if |cs| > 1 {
      var init := cs[..|cs| - 1];
      AheadBound(init, e);
      if Ahead(cs, e) < |cs| - 1 && TrueNum(cs[|cs| - 1]) == e + 1 {
        var j :| 1 <= j < |init| && TrueNum(init[j]) != e + 1;
        assert TrueNum(cs[j]) != e + 1;
      }
      if Ahead(cs, e) == |cs| - 1 {
        forall j | 1 <= j < |cs| ensures TrueNum(cs[j]) == e + 1 {
          if j < |init| { assert TrueNum(init[j]) == e + 1; }
        }
      }
      if forall j :: 1 <= j < |cs| ==> TrueNum(cs[j]) != e + 1 {
        assert forall j :: 1 <= j < |init| ==> TrueNum(init[j]) != e + 1;
      }
    }
  }

  lemma {:induction false} QuietNumbers(s: Sys, net': Net)
    requires Numbers(s) && |net'.clients| == |s.net.clients|
    requires Count(net'.clients, Holds(Rd)) == Count(s.net.clients, Holds(Rd))
    requires Count(net'.clients, Holds(Wr)) == Count(s.net.clients, Holds(Wr))
    requires forall j :: 0 <= j < |net'.clients| ==> TrueNum(net'.clients[j]) == TrueNum(s.net.clients[j])
    ensures Numbers(s.(net := net'))
  {
    hide Count, TrueNum, Ahead;
    AheadSame(s.net.clients, net'.clients, s.sem.rdEpoch);
  }

  lemma {:induction false} GrantNumbers(s: Sys, net': Net, i: nat, kind: Kind)
    requires RoundsInv(s) && Numbers(s) && Moved(s.net, net', i) && Cnt(s.sem, kind) > 0 && kind == Role(i)
    requires Count(net'.clients, Holds(kind)) == Count(s.net.clients, Holds(kind)) + 1
    requires var o := if kind == Rd then Wr else Rd; Count(net'.clients, Holds(o)) == Count(s.net.clients, Holds(o))
    requires TrueNum(s.net.clients[i]) == Epoch(s.sem, kind) && TrueNum(net'.clients[i]) == Epoch(s.sem, kind) + 1
    ensures Numbers(s.(sem := Granted(s.sem, kind), net := net', log := s.log + [Event(s, i, kind)]))
  {
    hide Count, TrueNum, Ahead, Mul;
    var e := s.sem.rdEpoch;
    if kind == Rd {
      AheadUpdate(s.net.clients, i, net'.clients[i], e);
      assert net'.clients == s.net.clients[i := net'.clients[i]];
    } else {
      AheadSame(s.net.clients, net'.clients, e);
    }
  }

  /** The last read release of a round finds every reader granted; then all start anew. */
  lemma {:induction false} FreedNumbers(s: Sys, i: nat)
    requires Inv(s) && Roles(s) && Numbers(s)
    requires i < |s.net.clients| && s.net.clients[i].chan != [] && s.net.clients[i].chan[0].Release?
    ensures Numbers(Freed(s, i)) && Roles(Freed(s, i))
  {
    hide Count, Ahead, NetInv, LogInv, Mul;
    TakeReleaseKeeps(s.net, i);
    var kind := s.net.clients[i].chan[0].kind;
    assert KindOk(s.net.clients[i], Role(i));
    CountSome(s.net.clients, i, Holds(kind));
    FreedRounds(s, i);
    var s' := Freed(s, i);
    TrueNumSame(s.net.clients[i], s'.net.clients[i]);
    AheadSame(s.net.clients, s'.net.clients, s.sem.rdEpoch);
    AheadBound(s.net.clients, s.sem.rdEpoch);
    AheadBound(s'.net.clients, s'.sem.rdEpoch);
    forall j | 0 <= j < |s'.net.clients| ensures KindOk(s'.net.clients[j], Role(j)) { assert KindOk(s.net.clients[j], Role(j)); }
  }

  lemma {:induction false} WaitGrantNumbers(s: Sys, k: nat)
    requires Inv(s) && Roles(s) && Numbers(s)
    requires k < |s.net.wait| && Grantable(s.sem, s.net.wait[k].kind, s.net.wait[k].num)
    ensures var r := s.net.wait[k];
            var s' := s.(sem := Granted(s.sem, r.kind), net := WaitGrant(s.net, k), log := s.log + [Event(s, r.client, r.kind)]);
            Roles(s') && Numbers(s')
  {
    hide RoundsInv, LogInv, NetInv, Numbers, Count, TrueNum;
    var r := s.net.wait[k];
    WaitGrantKeeps(s.net, k);
    RolesAt(s, r.client);
    TrueNums(s.net.clients[r.client], WaitGrant(s.net, k).clients[r.client]);
    GrantNumbers(s, WaitGrant(s.net, k), r.client, r.kind);
    var net' := WaitGrant(s.net, k);
    forall j | 0 <= j < |net'.clients| ensures KindOk(net'.clients[j], Role(j)) { RolesAt(s, j); }
  }

  lemma {:induction false} DrainNumbers(s: Sys, k: nat)
    requires Inv(s) && Roles(s) && Numbers(s) && k <= |s.net.wait|
    ensures Roles(DrainSys(s, k)) && Numbers(DrainSys(s, k))
    decreases |s.net.wait| - k
  {
    hide RoundsInv, LogInv, NetInv, Numbers, Roles, Count;
    NetInvWait(s.net);
    if k < |s.net.wait| {
      var r := s.net.wait[k];
      if Grantable(s.sem, r.kind, r.num) {
        WaitGrantStep(s, k);
        WaitGrantNumbers(s, k);
        var s' := s.(sem := Granted(s.sem, r.kind), net := WaitGrant(s.net, k), log := s.log + [Event(s, r.client, r.kind)]);
        DrainNumbers(s', k);
      } else {
        DrainNumbers(s, k + 1);
      }
    }
  }

  lemma {:induction false} ServeNumbers(s: Sys, i: nat)
    requires Inv(s) && Roles(s) && Numbers(s) && i < |s.net.clients| && s.net.clients[i].chan != []
    ensures Roles(ServeSys(s, i)) && Numbers(ServeSys(s, i))
  {
    hide Count, NetInv, RoundsInv, LogInv, DrainSys, TrueNum, Numbers;
    var msg := s.net.clients[i].chan[0];
    assert KindOk(s.net.clients[i], Role(i));
    if msg.Get? {
      RequestFacts(s.net, i);
      var net' := if Grantable(s.sem, msg.kind, msg.num) then TakeGrant(s.net, i) else TakeWait(s.net, i);
      forall j | 0 <= j < |net'.clients| ensures KindOk(net'.clients[j], Role(j)) { assert KindOk(s.net.clients[j], Role(j)); }
      if Grantable(s.sem, msg.kind, msg.num) {
        TakeGrantKeeps(s.net, i);
        TrueNums(s.net.clients[i], net'.clients[i]);
        GrantNumbers(s, net', i, msg.kind);
      } else {
        TakeWaitKeeps(s.net, i);
        TrueNumSame(s.net.clients[i], net'.clients[i]);
        QuietNumbers(s, net');
      }
    } else {
      FreedStep(s, i);
      FreedNumbers(s, i);
      if Released(s.sem, msg.kind).1 { DrainNumbers(Freed(s, i), 0); }
    }
  }

  /** Steps of clients that keep to their roles. */
  predicate RoleNext(s: Sys, s': Sys) {
    || (exists i :: 0 <= i < |s.net.clients| && s.net.clients[i].pc == Idle && s' == s.(net := Ask(s.net, i, Role(i))))
    || (exists i :: 0 <= i < |s.net.clients| && s.net.clients[i].inbox != [] && s' == s.(net := Arrive(s.net, i)))
    || (exists i :: 0 <= i < |s.net.clients| && s.net.clients[i].pc == Holding && s' == s.(net := Drop(s.net, i)))
    || (exists i :: 0 <= i < |s.net.clients| && s.net.clients[i].chan != [] && s' == ServeSys(s, i))
  }

  lemma {:induction false} QuietRoles(s: Sys, net': Net, i: nat)
    requires Roles(s) && Moved(s.net, net', i) && KindOk(net'.clients[i], Role(i))
    ensures Roles(s.(net := net'))
  {
    hide KindOk;
    forall j | 0 <= j < |net'.clients| ensures KindOk(net'.clients[j], Role(j)) { assert KindOk(s.net.clients[j], Role(j)); }
  }

  lemma {:induction false} RoleStep(s: Sys, s': Sys)
    requires Inv(s) && NoneGrantable(s) && Roles(s) && Numbers(s) && RoleNext(s, s')
    ensures Inv(s') && NoneGrantable(s') && Roles(s') && Numbers(s')
  {
    hide Count, NetInv, RoundsInv, LogInv, ServeSys, Grantable, Numbers, Roles, Waits, InTransit;
    if i :| 0 <= i < |s.net.clients| && s.net.clients[i].pc == Idle && s' == s.(net := Ask(s.net, i, Role(i))) {
      AskStep(s, i, Role(i));
      AskKeeps(s.net, i, Role(i));
      RolesAt(s, i);
      QuietNumbers(s, s'.net);
      QuietRoles(s, s'.net, i);
    } else if i :| 0 <= i < |s.net.clients| && s.net.clients[i].inbox != [] && s' == s.(net := Arrive(s.net, i)) {
      ArriveStep(s, i);
      ArriveKeeps(s.net, i);
      ArriveNum(s.net, i);
      RolesAt(s, i);
      QuietNumbers(s, s'.net);
      QuietRoles(s, s'.net, i);
    } else if i :| 0 <= i < |s.net.clients| && s.net.clients[i].pc == Holding && s' == s.(net := Drop(s.net, i)) {
      DropStep(s, i);
      DropKeeps(s.net, i);
      RolesAt(s, i);
      QuietNumbers(s, s'.net);
      QuietRoles(s, s'.net, i);
    } else {
      var i :| 0 <= i < |s.net.clients| && s.net.clients[i].chan != [] && s' == ServeSys(s, i);
      ServeStep(s, i);
      ServeNumbers(s, i);
    }
  }

  lemma RolesAt(s: Sys, i: nat)
    requires Roles(s) && i < |s.net.clients|
    ensures KindOk(s.net.clients[i], Role(i))
  {}

  lemma ArriveNum(net: Net, i: nat)
    requires NetInv(net) && i < |net.clients| && net.clients[i].inbox != []
    ensures TrueNum(Arrive(net, i).clients[i]) == TrueNum(net.clients[i])
  {
    assert ClientInv(net, i);
  }

  function InitRoles(maxReaders: nat): Sys {
    Sys(SemInit(maxReaders), Net(seq(maxReaders + 1, i requires 0 <= i => Client(Idle, Role(i), 0, [], [])), []), [], 0, 0)
  }

  ghost predicate IsRoleRun(run: seq<Sys>, maxReaders: nat) {
    && run != [] && run[0] == InitRoles(maxReaders)
    && forall t :: 0 <= t < |run| - 1 ==> RoleNext(run[t], run[t + 1])
  }

  lemma {:induction false} RoleRunInv(run: seq<Sys>, maxReaders: nat, t: nat)
    requires IsRoleRun(run, maxReaders) && maxReaders > 0 && t < |run|
    ensures Inv(run[t]) && NoneGrantable(run[t]) && Roles(run[t]) && Numbers(run[t])
  {
    hide NetInv, RoundsInv, LogInv, NoneGrantable, RoleNext, Roles, Numbers;
    if t == 0 {
      InitRolesInv(maxReaders);
    } else {
      RoleRunInv(run, maxReaders, t - 1);
      assert RoleNext(run[t - 1], run[t - 1 + 1]);
      RoleStep(run[t - 1], run[t]);
    }
  }

  lemma {:induction false} InitRolesInv(maxReaders: nat)
    requires maxReaders > 0
    ensures var s := InitRoles(maxReaders); Inv(s) && NoneGrantable(s) && Roles(s) && Numbers(s)
  {
    var s := InitRoles(maxReaders);
    NobodyHolds(s.net.clients, Holds(Rd));
    NobodyHolds(s.net.clients, Holds(Wr));
    AheadBound(s.net.clients, 0);
  }

  /** In every reachable state some client can proceed. */
  lemma {:induction false} NoDeadlock(run: seq<Sys>, maxReaders: nat, t: nat)
    requires IsRoleRun(run, maxReaders) && maxReaders > 0 && t < |run|
    ensures exists i :: 0 <= i < |run[t].net.clients| && CanMove(run[t].net.clients[i])
  {
    hide IsRoleRun, Inv, Roles, Numbers, NoneGrantable, CanMove;
    RoleRunInv(run, maxReaders, t);
    var s := run[t];
    if forall i :: 0 <= i < |s.net.clients| ==> !CanMove(s.net.clients[i]) {
      NotStuck(s);
    }
  }

  lemma {:induction false} NotStuck(s: Sys)
    requires Inv(s) && NoneGrantable(s) && Roles(s) && Numbers(s)
    ensures exists i :: 0 <= i < |s.net.clients| && CanMove(s.net.clients[i])
  {
    hide Count, Ahead, LogInv, Mul, NoneGrantable;
    var cs := s.net.clients;
    if forall i :: 0 <= i < |cs| ==> !CanMove(cs[i]) {
      forall i | 0 <= i < |cs| ensures HeldAt(cs[i]) == Nothing && TrueNum(cs[i]) == cs[i].num && Waits(s.net, i) {
        assert !CanMove(cs[i]);
        assert ClientInv(s.net, i);
      }
      NobodyHolds(cs, Holds(Rd));
      NobodyHolds(cs, Holds(Wr));
      if WritePhase(s) {
        WaitingAt(s, 0);
      } else {
        AheadBound(cs, s.sem.rdEpoch);
        var j :| 1 <= j < |cs| && TrueNum(cs[j]) != s.sem.rdEpoch + 1;
        WaitingAt(s, j);
      }
    }
  }

  /** A waiting request of the current round with a token left would be grantable. */
  lemma {:induction false} WaitingAt(s: Sys, i: nat)
    requires NetInv(s.net) && NoneGrantable(s) && Roles(s) && i < |s.net.clients| && Waits(s.net, i)
    ensures !Grantable(s.sem, Role(i), s.net.clients[i].num)
  {
    hide ClientInv;
    var k :| 0 <= k < |s.net.wait| && s.net.wait[k].client == i;
    assert KindOk(s.net.clients[i], Role(i));
    assert !Grantable(s.sem, s.net.wait[k].kind, s.net.wait[k].num);
  }
}
