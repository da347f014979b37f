/** Whole runs of the generic lock and of its third version. */
module LockGenericRuns {
  import opened LockClients
  import opened LockGeneric

  /** The lock, the clients and messages, and the requests in order of arrival at the server
      and in order of grant, and the number of write releases it received. */
  datatype Sys = Sys(lk: Lk, net: Net, arrived: seq<Req>, granted: seq<Req>, wrRel: nat)

  // ---- steps

  /** The first waiting request is granted. */
  function Woken(s: Sys): Sys
    requires s.net.wait != []
  {
    s.(lk := Granted(s.lk, s.net.wait[0].kind), net := WaitGrant(s.net, 0), granted := s.granted + [s.net.wait[0]])
  }

  function DrainSys(s: Sys): Sys
    decreases |s.net.wait|
  {
    if s.net.wait == [] || !Grantable(s.lk, s.net.wait[0].kind, true) then s
    else DrainSys(Woken(s))
  }

  /** After a release has been counted, before the wait list is looked at. */
  function Freed(s: Sys, i: nat): Sys
    requires i < |s.net.clients| && s.net.clients[i].chan != []
  {
    var kind := s.net.clients[i].chan[0].kind;
    s.(lk := Released(s.lk, kind).0, net := TakeRelease(s.net, i), wrRel := s.wrRel + if kind == Wr then 1 else 0)
  }

  /** The server receives the first message of client i. */
  function ServeSys(s: Sys, i: nat): Sys
    requires i < |s.net.clients| && s.net.clients[i].chan != []
  {
    var msg := s.net.clients[i].chan[0];
    match msg
    case Get(kind, num) =>
      var r := Req(i, kind, num);
      if Grantable(s.lk, kind, s.net.wait == []) then
        Sys(Granted(s.lk, kind), TakeGrant(s.net, i), s.arrived + [r], s.granted + [r], s.wrRel)
      else s.(net := TakeWait(s.net, i), arrived := s.arrived + [r])
    case Release(kind, _) =>
      if Released(s.lk, kind).1 then DrainSys(Freed(s, i)) else Freed(s, i)
  }

  lemma {:induction false} DrainAgrees(s: Sys)
    ensures var d := Drain(s.lk, s.net.wait);
            DrainSys(s).lk == d.0 && DrainSys(s).net.wait == d.1 && DrainSys(s).granted == s.granted + d.2
    decreases |s.net.wait|
  {
    if s.net.wait == [] || !Grantable(s.lk, s.net.wait[0].kind, true) {
      assert s.granted + [] == s.granted;
    } else {
      DrainAgrees(Woken(s));
      assert s.net.wait[..0] + s.net.wait[1..] == s.net.wait[1..];
    }
  }

  /** The system's server is the lock object's `Service`. */
  lemma {:induction false} ServeAgrees(s: Sys, i: nat)
    requires i < |s.net.clients| && s.net.clients[i].chan != []
    ensures var d := Serve(s.lk, s.net.wait, i, s.net.clients[i].chan[0]);
            ServeSys(s, i).lk == d.0 && ServeSys(s, i).net.wait == d.1 && ServeSys(s, i).granted == s.granted + d.2
  {
    hide DrainSys, Drain;
    assert s.granted + [] == s.granted;
    DrainAgrees(Freed(s, i));
  }

  predicate Next(s: Sys, s': Sys) {
    || (exists i, kind :: 0 <= i < |s.net.clients| && s.net.clients[i].pc == Idle && s' == s.(net := Ask(s.net, i, kind)))
    || (exists i :: 0 <= i < |s.net.clients| && s.net.clients[i].inbox != [] && s' == s.(net := Arrive(s.net, i)))
    || (exists i :: 0 <= i < |s.net.clients| && s.net.clients[i].pc == Holding && s' == s.(net := Drop(s.net, i)))
    || (exists i :: 0 <= i < |s.net.clients| && s.net.clients[i].chan != [] && s' == ServeSys(s, i))
  }

  function Init(v3: bool, n: nat): Sys {
    Sys(LkInit(v3), Net(seq(n, _ => Client(Idle, Rd, 0, [], [])), []), [], [], 0)
  }

  // ---- the invariant

  /** The counters count the holders; a writer is alone. */
  predicate Exclusive(s: Sys) {
    && s.lk.rdCnt == Count(s.net.clients, Holds(Rd)) && s.lk.wrCnt == Count(s.net.clients, Holds(Wr))
    && (s.lk.rdLocked <==> s.lk.rdCnt > 0) && (s.lk.wrLocked <==> s.lk.wrCnt > 0)
    && s.lk.wrCnt <= 1 && (s.lk.wrCnt > 0 ==> s.lk.rdCnt == 0)
  }

  /** Version 3 grants no read before the first write release. */
  predicate WriteFirst(s: Sys) {
    s.lk.v3 && s.lk.wrEpoch == 0 ==> s.lk.rdCnt == 0 && Select(s.granted, Rd) == []
  }

  /** The requests of one kind. */
  function Select(rs: seq<Req>, kind: Kind): seq<Req> {
    if rs == [] then [] else
    Select(rs[..|rs| - 1], kind) + if rs[|rs| - 1].kind == kind then [rs[|rs| - 1]] else []
  }

  /** The generic lock serves in order of arrival, version 3 does so within each kind. */
  predicate InOrder(s: Sys) {
    && (!s.lk.v3 ==> s.arrived == s.granted + s.net.wait)
    && forall kind :: Select(s.arrived, kind) == Select(s.granted, kind) + Select(s.net.wait, kind)
  }

  predicate Inv(s: Sys) {
    && NetInv(s.net) && Exclusive(s) && WriteFirst(s) && InOrder(s)
    && s.lk.wrEpoch == if s.lk.v3 then s.wrRel else 0
  }

  /** The head of the wait list cannot be granted; before the first write release of
      version 3, writers wait only for a writer. */
  predicate HeadBlocked(s: Sys) {
    && (s.net.wait != [] ==> !Grantable(s.lk, s.net.wait[0].kind, true))
    && (s.lk.v3 && s.lk.wrEpoch == 0 && s.lk.wrCnt == 0 ==> Select(s.net.wait, Wr) == [])
  }

  lemma SelectSnoc(rs: seq<Req>, r: Req, kind: Kind)
    ensures Select(rs + [r], kind) == Select(rs, kind) + if r.kind == kind then [r] else []
  {
    assert (rs + [r])[..|rs|] == rs;
  }

  lemma {:induction false} SelectHead(rs: seq<Req>, kind: Kind)
    requires rs != []
    ensures Select(rs, kind) == (if rs[0].kind == kind then [rs[0]] else []) + Select(rs[1..], kind)
  {
    if |rs| > 1 {
      var init := rs[..|rs| - 1];
      SelectHead(init, kind);
      assert init[1..] == rs[1..][..|rs| - 2];
    }
  }

  lemma {:induction false} SelectNone(rs: seq<Req>, kind: Kind, k: nat)
    requires k < |rs| && rs[k].kind == kind
    ensures Select(rs, kind) != []
  {
    if k < |rs| - 1 { SelectNone(rs[..|rs| - 1], kind, k); }
  }

  // ---- every step keeps it

  lemma {:induction false} WokenInOrder(s: Sys)
    requires InOrder(s) && s.net.wait != []
    ensures InOrder(Woken(s))
  {
    hide Select;
    var s' := Woken(s);
    assert s'.net.wait == s.net.wait[1..];
    assert s.granted + s.net.wait == s'.granted + s'.net.wait;
    forall kind ensures Select(s'.arrived, kind) == Select(s'.granted, kind) + Select(s'.net.wait, kind) {
      SelectHead(s.net.wait, kind);
      SelectSnoc(s.granted, s.net.wait[0], kind);
    }
  }

  /** A grant from the head of the wait list. */
  lemma {:induction false} WokenKeeps(s: Sys)
    requires Inv(s) && s.net.wait != [] && Grantable(s.lk, s.net.wait[0].kind, true)
    requires s.lk.v3 ==> s.lk.wrEpoch > 0
    ensures Inv(Woken(s))
  {
    hide Count, NetInv, Select, HeldAt, InOrder, WaitGrant;
    WokenInOrder(s);
    WaitGrantKeeps(s.net, 0);
  }

  lemma {:induction false} DrainKeeps(s: Sys)
    requires Inv(s) && (s.lk.v3 ==> s.lk.wrEpoch > 0)
    ensures Inv(DrainSys(s)) && HeadBlocked(DrainSys(s))
    ensures DrainSys(s).lk.v3 == s.lk.v3 && |DrainSys(s).net.clients| == |s.net.clients|
    ensures DrainSys(s).lk.wrEpoch == s.lk.wrEpoch
    decreases |s.net.wait|
  {
    hide Inv, Select;
    if s.net.wait != [] && Grantable(s.lk, s.net.wait[0].kind, true) {
      WokenKeeps(s);
      DrainKeeps(Woken(s));
    }
  }

  lemma {:induction false} FreedKeeps(s: Sys, i: nat)
    requires Inv(s) && HeadBlocked(s)
    requires i < |s.net.clients| && s.net.clients[i].chan != [] && s.net.clients[i].chan[0].Release?
    ensures Inv(Freed(s, i))
    ensures Released(s.lk, s.net.clients[i].chan[0].kind).1 && s.lk.v3 ==> Freed(s, i).lk.wrEpoch > 0
    ensures !Released(s.lk, s.net.clients[i].chan[0].kind).1 ==> HeadBlocked(Freed(s, i))
  {
    hide Count, NetInv, Select, HeldAt;
    TakeReleaseKeeps(s.net, i);
    CountSome(s.net.clients, i, Holds(s.net.clients[i].chan[0].kind));
  }

  lemma SelectEmpty(kind: Kind)
    ensures Select([], kind) == []
  {}

  /** Who is granted on arrival overtakes nobody of the same kind. */
  lemma {:induction false} Overtakes(s: Sys, kind: Kind)
    requires Exclusive(s) && HeadBlocked(s) && Grantable(s.lk, kind, s.net.wait == [])
    ensures s.net.wait == [] || (kind == Wr && s.lk.v3 && s.lk.wrEpoch == 0)
    ensures Select(s.net.wait, kind) == []
  {
    hide Count, Select;
    SelectEmpty(kind);
  }

  lemma {:induction false} GrantKeeps(s: Sys, i: nat)
    requires Inv(s) && HeadBlocked(s)
    requires i < |s.net.clients| && s.net.clients[i].chan != [] && s.net.clients[i].chan[0].Get?
    requires Grantable(s.lk, s.net.clients[i].chan[0].kind, s.net.wait == [])
    ensures Inv(ServeSys(s, i)) && HeadBlocked(ServeSys(s, i))
  {
    hide Count, NetInv, Select, HeldAt, DrainSys;
    var msg := s.net.clients[i].chan[0];
    var r, s' := Req(i, msg.kind, msg.num), ServeSys(s, i);
    RequestFacts(s.net, i);
    TakeGrantKeeps(s.net, i);
    Overtakes(s, msg.kind);
    assert !s.lk.v3 ==> s.granted + [] == s.granted && s'.granted + [] == s'.granted;
    forall kind ensures Select(s'.arrived, kind) == Select(s'.granted, kind) + Select(s'.net.wait, kind) {
      SelectSnoc(s.granted, r, kind);
      SelectSnoc(s.arrived, r, kind);
    }
    SelectEmpty(Wr);
    SelectSnoc(s.granted, r, Rd);
  }

  lemma {:induction false} WaitKeeps(s: Sys, i: nat)
    requires Inv(s) && HeadBlocked(s)
    requires i < |s.net.clients| && s.net.clients[i].chan != [] && s.net.clients[i].chan[0].Get?
    requires !Grantable(s.lk, s.net.clients[i].chan[0].kind, s.net.wait == [])
    ensures Inv(ServeSys(s, i)) && HeadBlocked(ServeSys(s, i))
  {
    hide Count, NetInv, Select, HeldAt, DrainSys;
    var msg := s.net.clients[i].chan[0];
    var r, s' := Req(i, msg.kind, msg.num), ServeSys(s, i);
    TakeWaitKeeps(s.net, i);
    assert !s.lk.v3 ==> s.arrived + [r] == s.granted + (s.net.wait + [r]);
    forall kind ensures Select(s'.arrived, kind) == Select(s'.granted, kind) + Select(s'.net.wait, kind) {
      SelectSnoc(s.net.wait, r, kind);
      SelectSnoc(s.arrived, r, kind);
    }
    SelectSnoc(s.net.wait, r, Wr);
  }

  lemma {:induction false} QuietKeeps(s: Sys, net': Net)
    requires Inv(s) && HeadBlocked(s) && NetInv(net') && net'.wait == s.net.wait
    requires forall h :: Count(net'.clients, h) == Count(s.net.clients, h)
    ensures Inv(s.(net := net')) && HeadBlocked(s.(net := net'))
  {
    hide Count, NetInv, Select;
  }

  /** Every step keeps the invariant and loses no wake-up. */
  lemma {:induction false} StepKeeps(s: Sys, s': Sys)
    requires Inv(s) && HeadBlocked(s) && Next(s, s')
    ensures Inv(s') && HeadBlocked(s')
    ensures s'.lk.v3 == s.lk.v3 && |s'.net.clients| == |s.net.clients|
  {
    hide Count, NetInv, Exclusive, WriteFirst, InOrder, HeadBlocked, HeldAt, DrainSys, Select;
    if i, kind :| 0 <= i < |s.net.clients| && s.net.clients[i].pc == Idle && s' == s.(net := Ask(s.net, i, kind)) {
      AskKeeps(s.net, i, kind);
      QuietKeeps(s, s'.net);
    } else if i :| 0 <= i < |s.net.clients| && s.net.clients[i].inbox != [] && s' == s.(net := Arrive(s.net, i)) {
      ArriveKeeps(s.net, i);
      QuietKeeps(s, s'.net);
    } else if i :| 0 <= i < |s.net.clients| && s.net.clients[i].pc == Holding && s' == s.(net := Drop(s.net, i)) {
      DropKeeps(s.net, i);
      QuietKeeps(s, s'.net);
    } else {
      var i :| 0 <= i < |s.net.clients| && s.net.clients[i].chan != [] && s' == ServeSys(s, i);
      var msg := s.net.clients[i].chan[0];
      if msg.Release? {
        FreedKeeps(s, i);
        if Released(s.lk, msg.kind).1 { DrainKeeps(Freed(s, i)); }
      } else if Grantable(s.lk, msg.kind, s.net.wait == []) {
        GrantKeeps(s, i);
      } else {
        WaitKeeps(s, i);
      }
    }
  }

  // ---- whole runs

  ghost predicate IsRun(run: seq<Sys>, v3: bool, n: nat) {
    && run != [] && run[0] == Init(v3, n)
    && forall t :: 0 <= t < |run| - 1 ==> Next(run[t], run[t + 1])
  }

  lemma {:induction false} RunInv(run: seq<Sys>, v3: bool, n: nat, t: nat)
    requires IsRun(run, v3, n) && t < |run|
    ensures Inv(run[t]) && HeadBlocked(run[t]) && run[t].lk.v3 == v3 && |run[t].net.clients| == n
  {
    hide NetInv, Exclusive, WriteFirst, InOrder, HeadBlocked, Next;
    if t == 0 {
      InitInv(v3, n);
    } else {
      RunInv(run, v3, n, t - 1);
      assert Next(run[t - 1], run[t - 1 + 1]);
      StepKeeps(run[t - 1], run[t]);
    }
  }

  lemma {:induction false} InitInv(v3: bool, n: nat)
    ensures Inv(Init(v3, n)) && HeadBlocked(Init(v3, n))
  {
    var s := Init(v3, n);
    NobodyHolds(s.net.clients, Holds(Rd));
    NobodyHolds(s.net.clients, Holds(Wr));
  }

  /** In every reachable state: never a reader and a writer, nor two writers; a request
      waits only while the lock is held (in version 3, once a write has been released);
      a read at the head of the wait list waits for a writer, never for other readers;
      the generic lock grants in order of arrival, version 3 in that order within each
      kind and no read before the first write release. */
  lemma {:induction false} RunSafe(run: seq<Sys>, v3: bool, n: nat, t: nat)
    requires IsRun(run, v3, n) && t < |run|
    ensures var cs := run[t].net.clients;
            && Count(cs, Holds(Wr)) <= 1
            && (Count(cs, Holds(Wr)) > 0 ==> Count(cs, Holds(Rd)) == 0)
            && (run[t].net.wait != [] && (v3 ==> run[t].wrRel > 0) ==> Count(cs, Holds(Rd)) + Count(cs, Holds(Wr)) > 0)
    ensures var cs, wait := run[t].net.clients, run[t].net.wait;
            && (wait != [] && wait[0].kind == Rd ==> Count(cs, Holds(Wr)) > 0 || (v3 && run[t].wrRel == 0))
            && (wait != [] && wait[0].kind == Wr ==> Count(cs, Holds(Rd)) + Count(cs, Holds(Wr)) > 0)
    ensures InOrder(run[t])
    ensures v3 && run[t].wrRel == 0 ==> Select(run[t].granted, Rd) == []
  {
    hide Count, NetInv, InOrder, Select, IsRun;
    RunInv(run, v3, n, t);
  }

  // ---- readers share the lock

  /** A read that arrives with nobody waiting and no writer is granted, whoever reads. */
  lemma {:induction false} ReadShared(s: Sys, i: nat)
    requires Inv(s) && i < |s.net.clients| && s.net.clients[i].chan != []
    requires s.net.clients[i].chan[0].Get? && s.net.clients[i].chan[0].kind == Rd
    requires s.net.wait == [] && Count(s.net.clients, Holds(Wr)) == 0 && (s.lk.v3 ==> s.wrRel > 0)
    ensures var s' := ServeSys(s, i);
            && i < |s'.net.clients| && HeldAt(s'.net.clients[i]) == Holds(Rd)
            && Count(s'.net.clients, Holds(Rd)) == Count(s.net.clients, Holds(Rd)) + 1
  {
    hide Count, NetInv, HeldAt, InOrder, WriteFirst, DrainSys;
    RequestFacts(s.net, i);
    TakeGrantKeeps(s.net, i);
  }

  /** The first j of n clients of the generic lock hold it for reading. */
  function Sharing(n: nat, j: nat): Sys
    requires j <= n
  {
    var reqs := seq(j, i requires 0 <= i => Req(i, Rd, 0));
    Sys(Lk(false, j > 0, false, j, 0, 0),
        Net(seq(n, i => if i < j then Client(Holding, Rd, 1, [], []) else Client(Idle, Rd, 0, [], [])), []), reqs, reqs, 0)
  }

  lemma {:induction false} SharingReached(n: nat, j: nat)
    requires j <= n
    ensures Reaches(Sharing(n, j), false, n)
  {
    hide Reaches, IsRun, Next;
    if j == 0 {
      SharingStart(n);
    } else {
      SharingReached(n, j - 1);
      var s, s' := Sharing(n, j - 1), Sharing(n, j);
      var i: nat := j - 1;
      var asked := s.(net := Ask(s.net, i, Rd));
      AskNext(s, i, Rd);
      Extend(s, asked, false, n);
      assert asked.net.clients[i] == Client(Waiting, Rd, 0, [Get(Rd, 0)], []);
      var served := ServeSys(asked, i);
      ServeNext(asked, i);
      Extend(asked, served, false, n);
      assert [Get(Rd, 0)][1..] == [] && [1][1..] == [];
      assert served.net.clients[i] == Client(Waiting, Rd, 0, [], [1]);
      assert s'.arrived == s.arrived + [Req(i, Rd, 0)];
      var arrived := served.(net := Arrive(served.net, i));
      ArriveNext(served, i);
      Extend(served, arrived, false, n);
      forall x | 0 <= x < n ensures s'.net.clients[x] == arrived.net.clients[x] {}
      assert s'.net.clients == arrived.net.clients;
      assert arrived == s';
    }
  }

  lemma SharingStart(n: nat)
    ensures Reaches(Sharing(n, 0), false, n)
  {
    assert Sharing(n, 0) == Init(false, n);
    assert IsRun([Init(false, n)], false, n);
  }

  lemma ArriveNext(s: Sys, i: nat)
    requires i < |s.net.clients| && s.net.clients[i].inbox != []
    ensures Next(s, s.(net := Arrive(s.net, i)))
  {
    hide Arrive;
  }

  /** Any number of clients can hold the generic lock for reading at once. */
  lemma {:induction false} AllRead(n: nat)
    ensures exists s :: Reaches(s, false, n) && |s.net.clients| == n
                        && forall i :: 0 <= i < n ==> s.net.clients[i].pc == Holding && s.net.clients[i].kind == Rd
  {
    hide Reaches;
    SharingReached(n, n);
    var s := Sharing(n, n);
    assert forall i :: 0 <= i < n ==> s.net.clients[i].pc == Holding && s.net.clients[i].kind == Rd;
  }

  /** Client i waits on the server for a read lock. */
  predicate WaitsToRead(net: Net, i: nat)
    requires i < |net.clients|
  {
    net.clients[i].kind == Rd && Waits(net, i)
  }

  /** Nobody can move exactly if all clients of version 3 wait to read what nobody wrote;
      the generic lock always lets somebody move. */
  lemma {:induction false} NoDeadlock(run: seq<Sys>, v3: bool, n: nat, t: nat)
    requires IsRun(run, v3, n) && t < |run| && n > 0
    ensures var s := run[t];
            (forall i :: 0 <= i < |s.net.clients| ==> !CanMove(s.net.clients[i])) <==>
            v3 && s.wrRel == 0 && forall i :: 0 <= i < |s.net.clients| ==> WaitsToRead(s.net, i)
  {
    hide Inv, HeadBlocked, IsRun, CanMove;
    RunInv(run, v3, n, t);
    var s := run[t];
    if forall i :: 0 <= i < |s.net.clients| ==> !CanMove(s.net.clients[i]) { Stuck(s); }
    if forall i :: 0 <= i < |s.net.clients| ==> WaitsToRead(s.net, i) {
      forall i | 0 <= i < |s.net.clients| ensures !CanMove(s.net.clients[i]) { WaiterIdle(s, i); }
    }
  }

  lemma WaiterIdle(s: Sys, i: nat)
    requires Inv(s) && i < |s.net.clients| && WaitsToRead(s.net, i)
    ensures !CanMove(s.net.clients[i])
  {
    hide Exclusive, WriteFirst, InOrder, Waits;
    assert ClientInv(s.net, i);
  }

  lemma {:induction false} Stuck(s: Sys)
    requires Inv(s) && HeadBlocked(s) && s.net.clients != []
    requires forall i :: 0 <= i < |s.net.clients| ==> !CanMove(s.net.clients[i])
    ensures s.lk.v3 && s.wrRel == 0 && forall i :: 0 <= i < |s.net.clients| ==> WaitsToRead(s.net, i)
  {
    hide Count, InOrder, Select, WriteFirst;
    forall i | 0 <= i < |s.net.clients| ensures HeldAt(s.net.clients[i]) == Nothing && Waits(s.net, i) {
      assert ClientInv(s.net, i);
    }
    NobodyHolds(s.net.clients, Holds(Rd));
    NobodyHolds(s.net.clients, Holds(Wr));
    assert Waits(s.net, 0);
    forall i | 0 <= i < |s.net.clients| ensures s.net.clients[i].kind == Rd {
      assert Waits(s.net, i);
      var k :| 0 <= k < |s.net.wait| && s.net.wait[k].client == i;
      if s.net.wait[k].kind == Wr { SelectNone(s.net.wait, Wr, k); }
    }
  }

  // ---- version 3 does get stuck

  /** The first j of n clients have asked to read and wait. */
  function Readers(n: nat, j: nat): Sys
    requires j <= n
  {
    var reqs := seq(j, i requires 0 <= i => Req(i, Rd, 0));
    Sys(LkInit(true), Net(seq(n, i => Client(if i < j then Waiting else Idle, Rd, 0, [], [])), reqs), reqs, [], 0)
  }

  ghost predicate Reaches(s: Sys, v3: bool, n: nat) {
    exists run :: IsRun(run, v3, n) && run[|run| - 1] == s
  }

  lemma {:induction false} Extend(s: Sys, s': Sys, v3: bool, n: nat)
    requires Reaches(s, v3, n) && Next(s, s')
    ensures Reaches(s', v3, n)
  {
    hide Next, Init;
    var run :| IsRun(run, v3, n) && run[|run| - 1] == s;
    assert IsRun(run + [s'], v3, n);
    assert (run + [s'])[|run|] == s';
  }

  lemma AskNext(s: Sys, i: nat, kind: Kind)
    requires i < |s.net.clients| && s.net.clients[i].pc == Idle
    ensures Next(s, s.(net := Ask(s.net, i, kind)))
  {
    hide Ask;
  }

  lemma ServeNext(s: Sys, i: nat)
    requires i < |s.net.clients| && s.net.clients[i].chan != []
    ensures Next(s, ServeSys(s, i))
  {
    hide ServeSys;
  }

  lemma {:induction false} ReadersReached(n: nat, j: nat)
    requires j <= n
    ensures Reaches(Readers(n, j), true, n)
  {
    hide Reaches, IsRun, Next;
    if j == 0 {
      ReadersStart(n);
    } else {
      ReadersReached(n, j - 1);
      var s, s' := Readers(n, j - 1), Readers(n, j);
      var i: nat := j - 1;
      var asked := s.(net := Ask(s.net, i, Rd));
      AskNext(s, i, Rd);
      Extend(s, asked, true, n);
      assert asked.net.clients[i] == Client(Waiting, Rd, 0, [Get(Rd, 0)], []);
      assert [Get(Rd, 0)][1..] == [];
      forall x | 0 <= x < n ensures s'.net.clients[x] == TakeWait(asked.net, i).clients[x] {}
      assert s'.net.clients == TakeWait(asked.net, i).clients;
      assert s'.net.wait == s.net.wait + [Req(i, Rd, 0)];
      assert ServeSys(asked, i) == s';
      ServeNext(asked, i);
      Extend(asked, s', true, n);
    }
  }

  lemma ReadersStart(n: nat)
    ensures Reaches(Readers(n, 0), true, n)
  {
    assert Readers(n, 0) == Init(true, n);
    assert IsRun([Init(true, n)], true, n);
  }

  /** Version 3 with any number of clients: when all ask to read first, nobody can move. */
  lemma {:induction false} StuckRun(n: nat)
    ensures exists s :: Reaches(s, true, n) && |s.net.clients| == n
                        && forall i :: 0 <= i < n ==> !CanMove(s.net.clients[i])
  {
    hide Reaches;
    ReadersReached(n, n);
    var s := Readers(n, n);
    assert forall i :: 0 <= i < n ==> !CanMove(s.net.clients[i]);
  }
}
