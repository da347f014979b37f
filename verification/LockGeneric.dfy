/** The generic lock and its third version (src/ds_gspace.c: lock_init,
    lock_process_request, lock_process_wait_list, lock_service, and the `_v3` functions,
    which differ only in the write epoch): many readers or one writer, in arrival order. */
module LockGeneric {
  import opened LockClients

  /** The lock states and counters of struct dsg_lock. */
  datatype Lk = Lk(v3: bool, rdLocked: bool, wrLocked: bool, rdCnt: int, wrCnt: int, wrEpoch: nat)

  datatype Action = Nil | Wait | Grant | Notify

  /** lock_init / lock_init_v3 */
  function LkInit(v3: bool): Lk {
    Lk(v3, false, false, 0, 0, 0)
  }

  /** The test of process_request; only reads look at mayGrant. */
  predicate Grantable(s: Lk, kind: Kind, mayGrant: bool) {
    if kind == Rd then !s.wrLocked && (s.v3 ==> s.wrEpoch > 0) && mayGrant
    else !s.rdLocked && s.wrCnt == 0
  }

  function Granted(s: Lk, kind: Kind): Lk {
    if kind == Rd then s.(rdLocked := true, rdCnt := s.rdCnt + 1)
    else s.(wrLocked := true, wrCnt := s.wrCnt + 1)
  }

  function Released(s: Lk, kind: Kind): (Lk, bool) {
    if kind == Rd then
      if s.rdCnt == 1 then (s.(rdCnt := 0, rdLocked := false), true) else (s.(rdCnt := s.rdCnt - 1), false)
    else
      if s.wrCnt == 1 then (s.(wrCnt := 0, wrLocked := false, wrEpoch := if s.v3 then s.wrEpoch + 1 else s.wrEpoch), true)
      else (s.(wrCnt := s.wrCnt - 1), false)
  }

  /** Granting from the front of the wait list until one request has to wait. */
  function Drain(s: Lk, wait: seq<Req>): (Lk, seq<Req>, seq<Req>)
    decreases |wait|
  {
    if wait == [] || !Grantable(s, wait[0].kind, true) then (s, wait, [])
    else
      var (s', w', g) := Drain(Granted(s, wait[0].kind), wait[1..]);
      (s', w', [wait[0]] + g)
  }

  /** What lock_service does with a message. */
  function Serve(s: Lk, wait: seq<Req>, client: nat, msg: Msg): (Lk, seq<Req>, seq<Req>) {
    match msg
    case Get(kind, num) =>
      if Grantable(s, kind, wait == []) then (Granted(s, kind), wait, [Req(client, kind, num)])
      else (s, wait + [Req(client, kind, num)], [])
    case Release(kind, num) =>
      var (s', notify) := Released(s, kind);
      if notify then Drain(s', wait) else (s', wait, [])
  }

  class GenericLock {
    const v3: bool
    var rdLocked: bool
    var wrLocked: bool
    var rdCnt: int
    var wrCnt: int
    var wrEpoch: nat
    var waitList: seq<Req>

    function State(): Lk
      reads this
    {
      Lk(v3, rdLocked, wrLocked, rdCnt, wrCnt, wrEpoch)
    }

    constructor (third: bool)
      ensures State() == LkInit(third) && waitList == []
    {
      v3 := third;
      rdLocked, wrLocked := false, false;
      rdCnt, wrCnt, wrEpoch := 0, 0, 0;
      waitList := [];
    }

    /** lock_process_request / lock_process_request_v3 */
    method ProcessRequest(msg: Msg, mayGrant: bool) returns (action: Action)
      modifies this
      ensures waitList == old(waitList)
      ensures msg.Get? && Grantable(old(State()), msg.kind, mayGrant) ==>
                action == Grant && State() == Granted(old(State()), msg.kind)
      ensures msg.Get? && !Grantable(old(State()), msg.kind, mayGrant) ==> action == Wait && State() == old(State())
      ensures msg.Release? ==> State() == Released(old(State()), msg.kind).0
      ensures msg.Release? ==> action == if Released(old(State()), msg.kind).1 then Notify else Nil
    {
      action := Nil;
      match msg {
        case Get(Rd, _) =>
          if !wrLocked && (!v3 || wrEpoch > 0) && mayGrant {
            rdLocked := true;
            rdCnt := rdCnt + 1;
            action := Grant;
          } else {
            action := Wait;
          }
        case Release(Rd, _) =>
          rdCnt := rdCnt - 1;
          if rdCnt == 0 {
            rdLocked := false;
            action := Notify;
          }
        case Get(Wr, _) =>
          if !rdLocked && wrCnt == 0 {
            wrLocked := true;
            wrCnt := wrCnt + 1;
            action := Grant;
          } else {
            action := Wait;
          }
        case Release(Wr, _) =>
          wrCnt := wrCnt - 1;
          if wrCnt == 0 {
            wrLocked := false;
            if v3 { wrEpoch := wrEpoch + 1; }
            action := Notify;
          }
      }
    }

    /** lock_process_wait_list / lock_process_wait_list_v3 */
    method ProcessWaitList() returns (granted: seq<Req>)
      modifies this
      ensures (State(), waitList, granted) == Drain(old(State()), old(waitList))
    {
      granted := [];
      ghost var all := Drain(State(), waitList);
      assert [] + all.2 == all.2;
      while |waitList| > 0
        invariant var d := Drain(State(), waitList); all.0 == d.0 && all.1 == d.1 && all.2 == granted + d.2
        decreases |waitList|
      {
        var r := waitList[0];
        var action := ProcessRequest(Get(r.kind, r.num), true);
        if action == Wait {
          assert granted + [] == granted;
          return;
        }
        waitList := waitList[1..];
        ghost var rest := Drain(State(), waitList).2;
        assert granted + ([r] + rest) == (granted + [r]) + rest;
        granted := granted + [r];
      }
      assert granted + [] == granted;
    }

    /** lock_service / lock_service_v3 */
    method Service(client: nat, msg: Msg) returns (granted: seq<Req>)
      modifies this
      ensures (State(), waitList, granted) == Serve(old(State()), old(waitList), client, msg)
    {
      var action := ProcessRequest(msg, waitList == []);
      granted := [];
      match action {
        case Wait => waitList := waitList + [Req(client, msg.kind, msg.num)];
        case Notify => granted := ProcessWaitList();
        case Grant => granted := [Req(client, msg.kind, msg.num)];
        case Nil =>
      }
    }
  }
}
