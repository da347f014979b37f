/** The custom lock (src/ds_gspace.c: sem_init, sem_process_request,
    sem_process_wait_list, sem_service): one write, then rd_max reads, in rounds. */
module LockCustom {
  import opened LockClients

  /** The counters of struct dsg_lock. */
  datatype Sem = Sem(rdMax: nat, wrMax: nat, rdCnt: nat, wrCnt: nat,
                     rdNotify: nat, wrNotify: nat, rdEpoch: nat, wrEpoch: nat)

  datatype Action = Nil | Wait | Grant | Notify

  /** sem_init */
  function SemInit(maxReaders: nat): Sem {
    Sem(maxReaders, 1, 0, 1, 0, 0, 0, 0)
  }

  function Cnt(s: Sem, k: Kind): nat { if k == Rd then s.rdCnt else s.wrCnt }
  function Epoch(s: Sem, k: Kind): nat { if k == Rd then s.rdEpoch else s.wrEpoch }

  /** A request of this kind and number can be granted now. */
  predicate Grantable(s: Sem, k: Kind, num: nat) {
    Cnt(s, k) > 0 && num == Epoch(s, k)
  }

  function Granted(s: Sem, k: Kind): Sem
    requires Cnt(s, k) > 0
  {
    if k == Rd then s.(rdCnt := s.rdCnt - 1) else s.(wrCnt := s.wrCnt - 1)
  }

  /** A release: the last one of a round hands the lock over to the other side. */
  function Released(s: Sem, k: Kind): (r: (Sem, bool)) {
    if k == Rd then
      if s.rdNotify + 1 == s.rdMax then (s.(rdNotify := 0, wrCnt := s.wrMax, rdEpoch := s.rdEpoch + 1), true)
      else (s.(rdNotify := s.rdNotify + 1), false)
    else
      if s.wrNotify + 1 == s.wrMax then (s.(wrNotify := 0, rdCnt := s.rdMax, wrEpoch := s.wrEpoch + 1), true)
      else (s.(wrNotify := s.wrNotify + 1), false)
  }

  /** What processing the wait list from position k leaves: the counters, the requests
      still waiting, and the requests granted, in order. */
  function Drain(s: Sem, wait: seq<Req>, k: nat): (r: (Sem, seq<Req>, seq<Req>))
    requires k <= |wait|
    decreases |wait| - k
  {
    if k == |wait| then (s, wait, [])
    else if Grantable(s, wait[k].kind, wait[k].num) then
      var (s', w', g) := Drain(Granted(s, wait[k].kind), wait[..k] + wait[k + 1..], k);
      (s', w', [wait[k]] + g)
    else Drain(s, wait, k + 1)
  }

  /** Of two waiting requests of one kind and round, the earlier is granted first. */
  lemma {:induction false} DrainFifo(s: Sem, wait: seq<Req>, k: nat, i: nat, j: nat)
    requires k <= i < j < |wait| && wait[i].kind == wait[j].kind && wait[i].num == wait[j].num
    requires forall a, b :: 0 <= a < b < |wait| ==> wait[a] != wait[b]
    ensures wait[j] in Drain(s, wait, k).2 ==> wait[i] in Drain(s, wait, k).2
    decreases |wait| - k
  {
    if !Grantable(s, wait[k].kind, wait[k].num) {
      if k < i { DrainFifo(s, wait, k + 1, i, j); } else { DrainNever(s, wait, k + 1, wait[j]); }
    } else if k < i {
      var rest := wait[..k] + wait[k + 1..];
      assert forall a :: 0 <= a < |rest| ==> rest[a] == wait[if a < k then a else a + 1];
      DrainFifo(Granted(s, wait[k].kind), rest, k, i - 1, j - 1);
    }
  }

  /** A pass never grants what could not be granted at its start. */
  lemma {:induction false} DrainNever(s: Sem, wait: seq<Req>, k: nat, r: Req)
    requires k <= |wait| && !Grantable(s, r.kind, r.num)
    ensures r !in Drain(s, wait, k).2
    decreases |wait| - k
  {
    if k < |wait| {
      if Grantable(s, wait[k].kind, wait[k].num) {
        DrainNever(Granted(s, wait[k].kind), wait[..k] + wait[k + 1..], k, r);
      } else {
        DrainNever(s, wait, k + 1, r);
      }
    }
  }

  // ---- the server's lock object

  class SemLock {
    var rdNotifyCnt: nat
    var wrNotifyCnt: nat
    var rdMax: nat
    var wrMax: nat
    var rdEpoch: nat
    var wrEpoch: nat
    var rdCnt: nat
    var wrCnt: nat
    var waitList: seq<Req>

    function State(): Sem
      reads this
    {
      Sem(rdMax, wrMax, rdCnt, wrCnt, rdNotifyCnt, wrNotifyCnt, rdEpoch, wrEpoch)
    }

    constructor (maxReaders: nat)
      ensures State() == SemInit(maxReaders) && waitList == []
    {
      wrMax, rdMax := 1, maxReaders;
      wrCnt, rdCnt := 1, 0;
      wrNotifyCnt, rdNotifyCnt := 0, 0;
      rdEpoch, wrEpoch := 0, 0;
      waitList := [];
    }

    /** sem_process_request */
    method ProcessRequest(msg: Msg) returns (action: Action)
      modifies this
      ensures waitList == old(waitList)
      ensures msg.Get? && Grantable(old(State()), msg.kind, msg.num) ==>
                action == Grant && State() == Granted(old(State()), msg.kind)
      ensures msg.Get? && !Grantable(old(State()), msg.kind, msg.num) ==> action == Wait && State() == old(State())
      ensures msg.Release? ==> State() == Released(old(State()), msg.kind).0
      ensures msg.Release? ==> action == if Released(old(State()), msg.kind).1 then Notify else Nil
    {
      match msg {
        case Get(Rd, num) =>
          action := Wait;
          if rdCnt > 0 && num == rdEpoch { rdCnt := rdCnt - 1; action := Grant; }
        case Release(Rd, _) =>
          rdNotifyCnt := rdNotifyCnt + 1;
          action := Nil;
          if rdNotifyCnt == rdMax {
            rdNotifyCnt := 0;
            wrCnt := wrMax;
            action := Notify;
            rdEpoch := rdEpoch + 1;
          }
        case Get(Wr, num) =>
          action := Wait;
          if wrCnt > 0 && num == wrEpoch { wrCnt := wrCnt - 1; action := Grant; }
        case Release(Wr, _) =>
          wrNotifyCnt := wrNotifyCnt + 1;
          action := Nil;
          if wrNotifyCnt == wrMax {
            wrNotifyCnt := 0;
            rdCnt := rdMax;
            action := Notify;
            wrEpoch := wrEpoch + 1;
          }
      }
    }

    /** sem_process_wait_list: one pass over the list, granting what can be granted. */
    method ProcessWaitList() returns (granted: seq<Req>)
      modifies this
      ensures (State(), waitList, granted) == Drain(old(State()), old(waitList), 0)
    {
      granted := [];
      var k := 0;
      ghost var all := Drain(State(), waitList, 0);
      assert [] + all.2 == all.2;
      while k < |waitList|
        invariant 0 <= k <= |waitList|
        invariant var d := Drain(State(), waitList, k); all.0 == d.0 && all.1 == d.1 && all.2 == granted + d.2
        decreases |waitList| - k
      {
        var r := waitList[k];
        ghost var rest := Drain(State(), waitList, k).2;
        var action := ProcessRequest(Get(r.kind, r.num));
        if action == Grant {
          waitList := waitList[..k] + waitList[k + 1..];
          ghost var rest' := Drain(State(), waitList, k).2;
          assert granted + ([r] + rest') == (granted + [r]) + rest';
          granted := granted + [r];
        } else {
          k := k + 1;
        }
      }
      assert granted + [] == granted;
    }

    /** sem_service: one message; the requests granted because of it, in order. */
    method Service(client: nat, msg: Msg) returns (granted: seq<Req>)
      modifies this
      ensures (State(), waitList, granted) == Serve(old(State()), old(waitList), client, msg)
    {
      var action := ProcessRequest(msg);
      granted := [];
      match action {
        case Wait => waitList := waitList + [Req(client, msg.kind, msg.num)];
        case Notify => granted := ProcessWaitList();
        case Grant => granted := [Req(client, msg.kind, msg.num)];
        case Nil =>
      }
    }
  }

  /** What sem_service does with a message. */
  function Serve(s: Sem, wait: seq<Req>, client: nat, msg: Msg): (r: (Sem, seq<Req>, seq<Req>)) {
    match msg
    case Get(kind, num) =>
      if Grantable(s, kind, num) then (Granted(s, kind), wait, [Req(client, kind, num)])
      else (s, wait + [Req(client, kind, num)], [])
    case Release(kind, num) =>
      var (s', notify) := Released(s, kind);
      if notify then Drain(s', wait, 0) else (s', wait, [])
  }
}
