/** The dissemination barrier of the InfiniBand transport (dart/ib/dart_rpc_ib.c:
    log2_ceil, sys_bar_arrive, sys_bar_send, rpc_barrier), run by any number of ranks over
    first-in first-out channels, any number of times. */
module Barrier {
  import opened Bits
  import opened Words

  // ---- the number of rounds

  lemma DoublePow2(e: nat)
    requires e < 31
    ensures ShlW(Pow2(e), 1, 32) == Pow2(e + 1)
  {
    hide *;
    ShlMul(Pow2(e), 1);
    PowOne();
    PowStep(e);
    Pow2Strict(e + 1, 32);
    LowOfSmall(Pow2(e + 1), 32);
    ShlWDef(Pow2(e), 1, 32);
  }

  lemma ShlWDef(x: nat, s: nat, w: nat)
    ensures ShlW(x, s, w) == Low(Shl(x, s), w)
  {}

  /** log2_ceil, for non-negative arguments of type int. */
  method Log2Ceil(n: nat) returns (k: int)
    requires n < Pow2(31)
    ensures n == 0 ==> k == -1
    ensures n > 0 ==> k == CeilLog2(n)
  {
    hide *;
    var i: nat := Pow2(31);
    ghost var e: int := 31;
    while i != 0 && And(i, n) == 0
      invariant -1 <= e <= 31 && i == (if e < 0 then 0 else Pow2(e))
      invariant n < if e < 0 then 1 else 2 * Pow2(e)
      decreases e
    {
      Pow2Half(e);
      TestBit(n, e);
      i := Shr(i, 1);
      e := e - 1;
    }
    if e >= 0 { TestBit(n, e); }
    assert e >= 0 ==> e < 31 && Pow2(e) <= n < 2 * Pow2(e);
    assert e < 0 ==> n == 0;
    if i != n {
      DoublePow2(e);
      PowStep(e);
      i := ShlW(i, 1, 32);
      e := e + 1;
    }
    if n > 0 {
      Pow2Half(e);
      CeilLog2Is(n, e);
    }
    k := -1;
    ghost var f := e;
    while i != 0
      invariant -1 <= f <= e && i == (if f < 0 then 0 else Pow2(f)) && k == e - f - 1
      decreases f
    {
      Pow2Half(f);
      k := k + 1;
      i := Shr(i, 1);
      f := f - 1;
    }
  }

  // ---- one rank

  datatype Pc = Out | Sending(round: nat) | Waiting(round: nat)

  /** The barrier fields of struct rpc_server, and where the rank is in rpc_barrier. */
  datatype Local = Local(barNum: nat, barTab: seq<nat>, pc: Pc)

  function NextOf(p: nat, me: nat, round: nat): (next: nat)
    requires p > 0
    ensures next < p
  {
    (me + Pow2(round)) % p
  }

  function PrevOf(p: nat, me: nat, round: nat): (prev: nat)
    requires p > 0
    ensures prev < p
  {
    (p + me - Pow2(round)) % p
  }

  function Begin(l: Local, p: nat): Local
    requires p > 0
  {
    l.(barNum := (l.barNum + 1) % 256, pc := if CeilLog2(p) == 0 then Out else Sending(0))
  }

  function Sent(l: Local): Local
    requires l.pc.Sending?
  {
    l.(pc := Waiting(l.pc.round))
  }

  /** The condition of SYS_WAIT_COMPLETION. */
  predicate Ready(l: Local, me: nat, p: nat)
    requires p > 0 && l.pc.Waiting?
  {
    var prev := PrevOf(p, me, l.pc.round);
    prev < |l.barTab| && (l.barTab[prev] == l.barNum || l.barTab[prev] == (l.barNum + 1) % 256)
  }

  function Passed(l: Local, p: nat): Local
    requires p > 0 && l.pc.Waiting?
  {
    l.(pc := if l.pc.round + 1 < CeilLog2(p) then Sending(l.pc.round + 1) else Out)
  }

  function Arrived(l: Local, from: nat, num: nat): Local {
    l.(barTab := Put(l.barTab, from, num))
  }

  function Put<T>(q: seq<T>, i: nat, v: T): seq<T> {
    if i < |q| then q[i := v] else q
  }

  /** The steps of rpc_barrier and sys_bar_arrive on one server. */
  class RpcServer {
    const rank: nat
    const appNumPeers: nat
    var barNum: nat
    var barTab: array<nat>
    var np: int
    var round: int
    var waiting: bool

    predicate Valid()
      reads this
    {
      rank < appNumPeers < Pow2(31) && barTab.Length == appNumPeers && np == CeilLog2(appNumPeers) && -1 <= round < np && (waiting ==> round >= 0)
    }

    function State(): Local
      requires Valid()
      reads this, barTab
    {
      Local(barNum, barTab[..],
            if round == -1 then Out else if waiting then Waiting(round) else Sending(round))
    }

    constructor (rank: nat, appNumPeers: nat)
      requires rank < appNumPeers < Pow2(31)
      ensures Valid() && fresh(barTab) && this.appNumPeers == appNumPeers && this.rank == rank
      ensures State() == Local(0, seq(appNumPeers, _ => 0), Out)
    {
      hide Pow2, CeilLog2;
      this.rank, this.appNumPeers := rank, appNumPeers;
      barNum, round, waiting := 0, -1, false;
      barTab := new nat[appNumPeers](_ => 0);
      np := CeilLog2(appNumPeers);
      new;
      assert barTab[..] == seq(appNumPeers, _ => 0);
    }

    /** Entering the barrier. */
    method Enter()
      requires Valid() && State().pc == Out
      modifies this
      ensures Valid() && barTab == old(barTab) && State() == Begin(old(State()), appNumPeers)
    {
      hide Pow2, CeilLog2;
      np := Log2Ceil(appNumPeers);
      barNum := (barNum + 1) % 256;
      waiting := false;
      round := if np > 0 then 0 else -1;
    }

    /** sys_bar_send of the current round: to whom, and the number sent. */
    method SendRound() returns (next: nat, num: nat)
      requires Valid() && State().pc.Sending?
      modifies this
      ensures Valid() && barTab == old(barTab) && State() == Sent(old(State()))
      ensures next == NextOf(appNumPeers, rank, old(State()).pc.round) && num == old(barNum)
    {
      hide Pow2, CeilLog2, NextOf;
      next := NextOf(appNumPeers, rank, round);
      num := barNum;
      waiting := true;
    }

    /** One look at SYS_WAIT_COMPLETION. */
    method Poll() returns (done: bool)
      requires Valid() && State().pc.Waiting?
      modifies this
      ensures Valid() && barTab == old(barTab) && done == Ready(old(State()), rank, appNumPeers)
      ensures State() == if done then Passed(old(State()), appNumPeers) else old(State())
    {
      hide Pow2, CeilLog2, PrevOf;
      var prev := PrevOf(appNumPeers, rank, round);
      done := barTab[prev] == barNum || barTab[prev] == (barNum + 1) % 256;
      if done {
        waiting := false;
        round := if round + 1 < np then round + 1 else -1;
      }
    }

    /** sys_bar_arrive */
    method Arrive(sysId: nat, num: nat)
      requires Valid() && sysId < appNumPeers
      modifies barTab
      ensures Valid() && State() == Arrived(old(State()), sysId, num)
    {
      barTab[sysId] := num;
    }
  }
}
