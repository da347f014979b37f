/** Whole runs of the barrier: any number of ranks, any interleaving. */
module BarrierRuns {
  import opened Bits
  import opened Words
  import opened Barrier

  // ---- all ranks

  /** A rank, the number of barriers it entered, and from each peer the number of barrier
      messages that arrived and those still on their way. */
  datatype Rank = Rank(local: Local, entered: nat, got: seq<nat>, inq: seq<seq<nat>>)

  function DoEnter(s: seq<Rank>, i: nat): seq<Rank>
    requires i < |s|
  {
    s[i := s[i].(local := Begin(s[i].local, |s|), entered := s[i].entered + 1)]
  }

  function DoSend(s: seq<Rank>, i: nat): seq<Rank>
    requires i < |s| && s[i].local.pc.Sending?
  {
    var to := NextOf(|s|, i, s[i].local.pc.round);
    var num := s[i].local.barNum;
    var s1 := s[i := s[i].(local := Sent(s[i].local))];
    if i < |s1[to].inq| then s1[to := s1[to].(inq := s1[to].inq[i := s1[to].inq[i] + [num]])] else s1
  }

  function DoPass(s: seq<Rank>, i: nat): seq<Rank>
    requires i < |s| && s[i].local.pc.Waiting?
  {
    s[i := s[i].(local := Passed(s[i].local, |s|))]
  }

  predicate Pending(s: seq<Rank>, i: nat, from: nat) {
    i < |s| && from < |s[i].inq| && s[i].inq[from] != []
  }

  function DoArrive(s: seq<Rank>, i: nat, from: nat): seq<Rank>
    requires Pending(s, i, from)
  {
    var a := s[i];
    s[i := Rank(Arrived(a.local, from, a.inq[from][0]), a.entered,
                if from < |a.got| then a.got[from := a.got[from] + 1] else a.got,
                a.inq[from := a.inq[from][1..]])]
  }

  /** Rank i, or a message on its way to it, can take a step inside the barrier. */
  ghost predicate CanStep(s: seq<Rank>, i: nat) {
    && i < |s|
    && (s[i].local.pc.Sending? || (s[i].local.pc.Waiting? && Ready(s[i].local, i, |s|))
        || exists from :: Pending(s, i, from))
  }

  /** A step inside the barrier. */
  ghost predicate Inner(s: seq<Rank>, s': seq<Rank>) {
    || (exists i :: 0 <= i < |s| && s[i].local.pc.Sending? && s' == DoSend(s, i))
    || (exists i :: 0 <= i < |s| && s[i].local.pc.Waiting? && Ready(s[i].local, i, |s|) && s' == DoPass(s, i))
    || (exists i: nat, from: nat :: Pending(s, i, from) && s' == DoArrive(s, i, from))
  }

  ghost predicate Next(s: seq<Rank>, s': seq<Rank>) {
    || (exists i :: 0 <= i < |s| && s[i].local.pc == Out && s' == DoEnter(s, i))
    || Inner(s, s')
  }

  function Init(p: nat): seq<Rank> {
    seq(p, _ => Rank(Local(0, seq(p, _ => 0), Out), 0, seq(p, _ => 0), seq(p, _ => [])))
  }

  // ---- who sends to whom

  lemma ModSmall(x: nat, p: nat)
    requires 0 < p && x < 2 * p
    ensures x % p == if x < p then x else x - p
  {
    hide *;
    QuoRemIsDivMod(x, p);
    QuoRemUnfold(x, p);
    if x >= p { QuoRemUnfold(x - p, p); }
  }

  /** Counting back from rank i. */
  function Back(p: nat, i: nat, d: nat): nat
    requires i < p && d < p
  {
    if d <= i then i - d else p + i - d
  }

  lemma RoundStep(p: nat, r: nat)
    requires p >= 1 && r < CeilLog2(p)
    ensures 0 < Pow2(r) < p
  {
    hide *;
    Pow2Mono(r, CeilLog2(p) - 1);
  }

  lemma {:induction false} Partners(p: nat, i: nat, r: nat)
    requires i < p && r < CeilLog2(p)
    ensures 0 < Pow2(r) < p
    ensures PrevOf(p, i, r) == Back(p, i, Pow2(r)) && NextOf(p, i, r) < p && NextOf(p, i, r) != i
    ensures NextOf(p, PrevOf(p, i, r), r) == i && PrevOf(p, NextOf(p, i, r), r) == i
  {
    hide Pow2, CeilLog2;
    RoundStep(p, r);
    ModSmall(i + Pow2(r), p);
    ModSmall(p + i - Pow2(r), p);
    ModSmall(PrevOf(p, i, r) + Pow2(r), p);
    ModSmall(p + NextOf(p, i, r) - Pow2(r), p);
  }

  /** A rank sends to a different peer in each round. */
  lemma {:induction false} NextDiffers(p: nat, i: nat, r: nat, q: nat)
    requires i < p && r < q < CeilLog2(p)
    ensures NextOf(p, i, r) != NextOf(p, i, q)
  {
    hide Pow2, CeilLog2;
    RoundStep(p, r);
    RoundStep(p, q);
    Pow2Strict(r, q);
    ModSmall(i + Pow2(r), p);
    ModSmall(i + Pow2(q), p);
  }

  // ---- the invariant

  /** How often rank a has sent, and has passed, round r. */
  function SentIn(a: Rank, r: nat): int {
    match a.local.pc
    case Out => a.entered
    case Sending(q) => if r < q then a.entered else a.entered - 1
    case Waiting(q) => if r <= q then a.entered else a.entered - 1
  }

  function PassedIn(a: Rank, r: nat): int {
    match a.local.pc
    case Out => a.entered
    case Sending(q) => if r < q then a.entered else a.entered - 1
    case Waiting(q) => if r < q then a.entered else a.entered - 1
  }

  predicate Shape(a: Rank, p: nat)
    requires p >= 1
  {
    && |a.local.barTab| == |a.got| == |a.inq| == p
    && a.local.barNum == a.entered % 256
    && (a.local.pc != Out ==> a.entered >= 1 && a.local.pc.round < CeilLog2(p))
  }

  /** The channel from rank a to its round r partner b holds the numbers b has not seen. */
  predicate Channel(a: Rank, i: nat, b: Rank, r: nat) {
    && i < |b.inq| && i < |b.got| && i < |b.local.barTab|
    && b.got[i] + |b.inq[i]| == SentIn(a, r)
    && b.local.barTab[i] == b.got[i] % 256
    && (forall k :: 0 <= k < |b.inq[i]| ==> b.inq[i][k] == (b.got[i] + 1 + k) % 256)
    && PassedIn(b, r) <= b.got[i]
  }

  predicate ChannelAt(s: seq<Rank>, i: nat, r: nat)
    requires i < |s|
  {
    Channel(s[i], i, s[NextOf(|s|, i, r)], r)
  }

  /** The rounds of its current barrier a rank has behind it. */
  function Done(a: Rank, p: nat): nat
    requires p >= 1
  {
    if a.local.pc == Out then CeilLog2(p) else a.local.pc.round
  }

  /** After c rounds the 2^c ranks up to i have entered i's barrier; all have entered the
      one before. */
  predicate Knows(s: seq<Rank>, i: nat)
    requires i < |s|
  {
    && (forall d {:trigger Back(|s|, i, d)} :: 0 <= d < |s| && d < Pow2(Done(s[i], |s|)) ==>
          s[Back(|s|, i, d)].entered >= s[i].entered)
    && (forall j :: 0 <= j < |s| ==> s[j].entered >= s[i].entered - 1)
  }

  predicate Inv(s: seq<Rank>) {
    && |s| >= 1
    && (forall i :: 0 <= i < |s| ==> Shape(s[i], |s|))
    && (forall i, r :: 0 <= i < |s| && 0 <= r < CeilLog2(|s|) ==> ChannelAt(s, i, r))
    && (forall i :: 0 <= i < |s| ==> Knows(s, i))
  }

  // ---- every step keeps it

  lemma InvAt(s: seq<Rank>, i: nat)
    requires Inv(s) && i < |s|
    ensures Shape(s[i], |s|) && Knows(s, i)
  {}

  lemma InvChannel(s: seq<Rank>, i: nat, r: nat)
    requires Inv(s) && i < |s| && r < CeilLog2(|s|)
    ensures ChannelAt(s, i, r)
  {}

  /** More entered, and no rank further: everybody still knows what it knew. */
  lemma {:induction false} KnowsMore(s: seq<Rank>, s': seq<Rank>, i: nat)
    requires |s'| == |s| && i < |s| && Knows(s, i)
    requires s'[i].entered == s[i].entered && Done(s'[i], |s|) <= Done(s[i], |s|)
    requires forall j :: 0 <= j < |s| ==> s'[j].entered >= s[j].entered
    ensures Knows(s', i)
  {
    hide Pow2, CeilLog2, Done;
    Pow2Mono(Done(s'[i], |s|), Done(s[i], |s|));
    forall d {:trigger Back(|s|, i, d)} | 0 <= d < |s| && d < Pow2(Done(s'[i], |s|))
      ensures s'[Back(|s|, i, d)].entered >= s'[i].entered
    {
      assert s[Back(|s|, i, d)].entered >= s[i].entered;
    }
  }

  /** A rank out of a barrier knows that all have entered it. */
  lemma {:induction false} OutKnows(s: seq<Rank>, i: nat, j: nat)
    requires i < |s| && j < |s| && Knows(s, i) && s[i].local.pc == Out
    ensures s[j].entered >= s[i].entered
  {
    hide Pow2, CeilLog2;
    var d := if j <= i then i - j else |s| + i - j;
    assert Back(|s|, i, d) == j;
  }

  lemma {:induction false} EnterChannel(s: seq<Rank>, i: nat, j: nat, r: nat)
    requires Inv(s) && i < |s| && s[i].local.pc == Out && j < |s| && r < CeilLog2(|s|)
    ensures ChannelAt(DoEnter(s, i), j, r)
  {
    hide Pow2, CeilLog2, Inv, NextOf, Knows;
    InvChannel(s, j, r);
  }

  lemma {:induction false} EnterKeeps(s: seq<Rank>, i: nat)
    requires Inv(s) && i < |s| && s[i].local.pc == Out
    ensures Inv(DoEnter(s, i))
  {
    hide Pow2, CeilLog2, Inv, NextOf, ChannelAt, Knows;
    var p, s' := |s|, DoEnter(s, i);
    InvAt(s, i);
    forall j | 0 <= j < p ensures Shape(s'[j], p) && Knows(s', j) {
      InvAt(s, j);
      if j != i {
        KnowsMore(s, s', j);
      } else {
        forall k | 0 <= k < p ensures s'[k].entered >= s'[i].entered - 1 { OutKnows(s, i, k); }
        EnterKnows(s', i);
      }
    }
    forall j, r | 0 <= j < p && 0 <= r < CeilLog2(p) ensures ChannelAt(s', j, r) { EnterChannel(s, i, j, r); }
    InvIntro(s');
  }

  lemma EnterKnows(s: seq<Rank>, i: nat)
    requires i < |s| && Done(s[i], |s|) == 0
    requires forall j :: 0 <= j < |s| ==> s[j].entered >= s[i].entered - 1
    ensures Knows(s, i)
  {}

  lemma InvIntro(s: seq<Rank>)
    requires |s| >= 1
    requires forall i :: 0 <= i < |s| ==> Shape(s[i], |s|) && Knows(s, i)
    requires forall i, r :: 0 <= i < |s| && 0 <= r < CeilLog2(|s|) ==> ChannelAt(s, i, r)
    ensures Inv(s)
  {}

  /** The number of a barrier joins a channel. */
  lemma {:induction false} ChannelGains(a: Rank, a': Rank, i: nat, b: Rank, b': Rank, r: nat)
    requires Channel(a, i, b, r) && SentIn(a', r) == SentIn(a, r) + 1
    requires b' == b.(inq := b.inq[i := b.inq[i] + [SentIn(a', r) % 256]])
    ensures Channel(a', i, b', r)
  {
    hide SentIn;
  }

  /** A channel that neither side changes. */
  lemma {:induction false} ChannelSame(a: Rank, a': Rank, i: nat, b: Rank, b': Rank, r: nat)
    requires Channel(a, i, b, r) && SentIn(a', r) == SentIn(a, r) && PassedIn(b', r) == PassedIn(b, r)
    requires |b'.inq| == |b.inq| && |b'.got| == |b.got| && |b'.local.barTab| == |b.local.barTab|
    requires b'.inq[i] == b.inq[i] && b'.got[i] == b.got[i] && b'.local.barTab[i] == b.local.barTab[i]
    ensures Channel(a', i, b', r)
  {
    hide SentIn, PassedIn;
  }

  /** A message joins the channel to the partner of this round, and no other. */
  lemma {:induction false} SendChannel(s: seq<Rank>, i: nat, j: nat, r: nat)
    requires Inv(s) && i < |s| && s[i].local.pc.Sending? && j < |s| && r < CeilLog2(|s|)
    ensures |DoSend(s, i)| == |s| && ChannelAt(DoSend(s, i), j, r)
  {
    hide Pow2, CeilLog2, Inv, NextOf, Knows, Channel;
    var p, s', q := |s|, DoSend(s, i), s[i].local.pc.round;
    InvAt(s, i);
    InvChannel(s, j, r);
    Partners(p, i, q);
    InvAt(s, NextOf(p, i, q));
    ChannelBounds(s, j, r);
    var b := NextOf(p, j, r);
    if j == i && r == q {
      ChannelGains(s[i], s'[i], i, s[b], s'[b], r);
    } else {
      if j == i && r < q { NextDiffers(p, i, r, q); }
      if j == i && q < r { NextDiffers(p, i, q, r); }
      ChannelSame(s[j], s'[j], j, s[b], s'[b], r);
    }
  }

  lemma ChannelBounds(s: seq<Rank>, j: nat, r: nat)
    requires j < |s| && ChannelAt(s, j, r)
    ensures var b := s[NextOf(|s|, j, r)]; j < |b.inq| && j < |b.got| && j < |b.local.barTab|
  {
    hide NextOf;
  }

  lemma {:induction false} SendKeeps(s: seq<Rank>, i: nat)
    requires Inv(s) && i < |s| && s[i].local.pc.Sending?
    ensures Inv(DoSend(s, i))
  {
    hide Pow2, CeilLog2, Inv, NextOf, ChannelAt, Knows;
    var p, s' := |s|, DoSend(s, i);
    InvAt(s, i);
    forall j | 0 <= j < p ensures Shape(s'[j], p) && Knows(s', j) {
      InvAt(s, j);
      KnowsMore(s, s', j);
    }
    forall j, r | 0 <= j < p && 0 <= r < CeilLog2(p) ensures ChannelAt(s', j, r) { SendChannel(s, i, j, r); }
    InvIntro(s');
  }

  /** The first number of a channel reaches the table. */
  lemma {:induction false} ChannelTaken(a: Rank, i: nat, b: Rank, b': Rank, r: nat)
    requires Channel(a, i, b, r) && b.inq[i] != []
    requires b' == Rank(Arrived(b.local, i, b.inq[i][0]), b.entered, b.got[i := b.got[i] + 1], b.inq[i := b.inq[i][1..]])
    ensures Channel(a, i, b', r)
  {
    hide SentIn;
    assert forall k :: 0 <= k < |b'.inq[i]| ==> b'.inq[i][k] == b.inq[i][k + 1];
  }

  lemma {:induction false} ArriveChannel(s: seq<Rank>, i: nat, from: nat, j: nat, r: nat)
    requires Inv(s) && Pending(s, i, from) && j < |s| && r < CeilLog2(|s|)
    ensures |DoArrive(s, i, from)| == |s| && ChannelAt(DoArrive(s, i, from), j, r)
  {
    hide Pow2, CeilLog2, Inv, NextOf, Knows, Channel;
    var s', b := DoArrive(s, i, from), NextOf(|s|, j, r);
    InvAt(s, i);
    InvChannel(s, j, r);
    ChannelBounds(s, j, r);
    if b != i {
      ChannelSame(s[j], s'[j], j, s[b], s'[b], r);
    } else if j == from {
      ChannelTaken(s[j], j, s[i], s'[i], r);
      ChannelSame(s[j], s'[j], j, s'[i], s'[i], r);
    } else {
      ChannelSame(s[j], s'[j], j, s[i], s'[i], r);
    }
  }

  lemma {:induction false} ArriveKeeps(s: seq<Rank>, i: nat, from: nat)
    requires Inv(s) && Pending(s, i, from)
    ensures Inv(DoArrive(s, i, from))
  {
    hide Pow2, CeilLog2, Inv, NextOf, ChannelAt, Knows;
    var p, s' := |s|, DoArrive(s, i, from);
    InvAt(s, i);
    forall j | 0 <= j < p ensures Shape(s'[j], p) && Knows(s', j) {
      InvAt(s, j);
      KnowsMore(s, s', j);
    }
    forall j, r | 0 <= j < p && 0 <= r < CeilLog2(p) ensures ChannelAt(s', j, r) { ArriveChannel(s, i, from, j, r); }
    InvIntro(s');
  }

  /** The number a waiting rank of barrier k sees is that of barrier k - 1, k or k + 1, so
      comparing it modulo 256 tells whether the partner has reached barrier k. */
  lemma {:induction false} Unambiguous(s: seq<Rank>, i: nat)
    requires Inv(s) && i < |s| && s[i].local.pc.Waiting?
    ensures var prev := PrevOf(|s|, i, s[i].local.pc.round);
            && prev < |s[i].got| == |s[i].local.barTab|
            && s[i].local.barTab[prev] == s[i].got[prev] % 256
            && s[i].entered - 1 <= s[i].got[prev] <= s[i].entered + 1
            && (Ready(s[i].local, i, |s|) <==> s[i].got[prev] >= s[i].entered)
  {
    hide Pow2, CeilLog2, Inv, NextOf, PrevOf;
    var p, r := |s|, s[i].local.pc.round;
    InvAt(s, i);
    var prev := PrevOf(p, i, r);
    Partners(p, i, r);
    InvAt(s, prev);
    InvChannel(s, prev, r);
    assert s[i].entered >= s[prev].entered - 1;
  }

  /** Passing round r doubles what rank i knows. */
  lemma {:induction false} PassKnows(s: seq<Rank>, i: nat)
    requires Inv(s) && i < |s| && s[i].local.pc.Waiting? && Ready(s[i].local, i, |s|)
    ensures Knows(DoPass(s, i), i)
  {
    hide Pow2, CeilLog2, Inv, NextOf, PrevOf, Ready, Channel;
    var p, r, s' := |s|, s[i].local.pc.round, DoPass(s, i);
    InvAt(s, i);
    Unambiguous(s, i);
    var prev := PrevOf(p, i, r);
    Partners(p, i, r);
    InvAt(s, prev);
    PrevReached(s, i);
    PowStep(r);
    DonePass(s[i], p);
    forall d {:trigger Back(p, i, d)} | 0 <= d < p && d < Pow2(Done(s'[i], p))
      ensures s'[Back(p, i, d)].entered >= s'[i].entered
    {
      if d < Pow2(r) {
        assert s[Back(p, i, d)].entered >= s[i].entered;
      } else if s[prev].entered == s[i].entered {
        var c := d - Pow2(r);
        assert Back(p, i, d) == Back(p, prev, c);
        Pow2Mono(r, Done(s[prev], p));
        assert s[Back(p, prev, c)].entered >= s[prev].entered;
      }
    }
  }

  lemma DonePass(a: Rank, p: nat)
    requires p >= 1 && a.local.pc.Waiting? && a.local.pc.round < CeilLog2(p)
    ensures Done(a.(local := Passed(a.local, p)), p) == a.local.pc.round + 1
  {}

  /** The partner has sent in this round, so it has passed all earlier ones. */
  lemma {:induction false} PrevReached(s: seq<Rank>, i: nat)
    requires Inv(s) && i < |s| && s[i].local.pc.Waiting? && Ready(s[i].local, i, |s|)
    ensures var prev := PrevOf(|s|, i, s[i].local.pc.round);
            && s[prev].entered >= s[i].entered
            && (s[prev].entered == s[i].entered ==> Done(s[prev], |s|) >= s[i].local.pc.round)
  {
    hide Pow2, CeilLog2, Inv, NextOf, PrevOf, Ready;
    var p, r := |s|, s[i].local.pc.round;
    InvAt(s, i);
    Unambiguous(s, i);
    Partners(p, i, r);
    InvAt(s, PrevOf(p, i, r));
    InvChannel(s, PrevOf(p, i, r), r);
  }

  lemma {:induction false} PassChannel(s: seq<Rank>, i: nat, j: nat, r: nat)
    requires Inv(s) && i < |s| && s[i].local.pc.Waiting? && Ready(s[i].local, i, |s|) && j < |s| && r < CeilLog2(|s|)
    ensures ChannelAt(DoPass(s, i), j, r)
  {
    hide Pow2, CeilLog2, Inv, NextOf, PrevOf, Ready, Knows;
    InvAt(s, i);
    Unambiguous(s, i);
    InvChannel(s, j, r);
    Partners(|s|, j, r);
  }

  lemma {:induction false} PassKeeps(s: seq<Rank>, i: nat)
    requires Inv(s) && i < |s| && s[i].local.pc.Waiting? && Ready(s[i].local, i, |s|)
    ensures Inv(DoPass(s, i))
  {
    hide Pow2, CeilLog2, Inv, NextOf, PrevOf, Ready, ChannelAt, Knows;
    var p, s' := |s|, DoPass(s, i);
    forall j | 0 <= j < p ensures Shape(s'[j], p) && Knows(s', j) {
      InvAt(s, j);
      if j == i { PassKnows(s, i); } else { KnowsMore(s, s', j); }
    }
    forall j, r | 0 <= j < p && 0 <= r < CeilLog2(p) ensures ChannelAt(s', j, r) { PassChannel(s, i, j, r); }
    InvIntro(s');
  }

  /** Every step keeps the invariant. */
  lemma {:induction false} StepKeeps(s: seq<Rank>, s': seq<Rank>)
    requires Inv(s) && Next(s, s')
    ensures Inv(s') && |s'| == |s|
  {
    hide Inv, Begin, Sent, Passed, Arrived, Ready, NextOf;
    if i :| 0 <= i < |s| && s[i].local.pc == Out && s' == DoEnter(s, i) {
      EnterKeeps(s, i);
    } else if i :| 0 <= i < |s| && s[i].local.pc.Sending? && s' == DoSend(s, i) {
      SendKeeps(s, i);
    } else if i :| 0 <= i < |s| && s[i].local.pc.Waiting? && Ready(s[i].local, i, |s|) && s' == DoPass(s, i) {
      PassKeeps(s, i);
    } else {
      var i: nat, from: nat :| Pending(s, i, from) && s' == DoArrive(s, i, from);
      ArriveKeeps(s, i, from);
    }
  }

  // ---- whole runs

  ghost predicate IsRun(run: seq<seq<Rank>>, p: nat) {
    run != [] && run[0] == Init(p) && forall t :: 0 <= t < |run| - 1 ==> Next(run[t], run[t + 1])
  }

  lemma InitInv(p: nat)
    requires p >= 1
    ensures Inv(Init(p))
  {
    hide Pow2, CeilLog2, NextOf;
    InvIntro(Init(p));
  }

  lemma {:induction false} RunInv(run: seq<seq<Rank>>, p: nat, t: nat)
    requires IsRun(run, p) && p >= 1 && t < |run|
    ensures Inv(run[t]) && |run[t]| == p
  {
    hide Inv, Next;
    if t == 0 {
      InitInv(p);
    } else {
      RunInv(run, p, t - 1);
      assert Next(run[t - 1], run[t - 1 + 1]);
      StepKeeps(run[t - 1], run[t]);
    }
  }

  /** Rank a has left its k-th barrier. */
  predicate Left(a: Rank, k: nat) {
    a.entered > k || (a.entered == k && a.local.pc == Out)
  }

  /** No rank leaves a barrier before all ranks have entered it. */
  lemma {:induction false} RunSafe(run: seq<seq<Rank>>, p: nat, t: nat, i: nat, j: nat, k: nat)
    requires IsRun(run, p) && t < |run| && i < p && j < p
    ensures |run[t]| == p && (Left(run[t][i], k) ==> run[t][j].entered >= k)
  {
    hide IsRun, Inv, Pow2, CeilLog2;
    RunInv(run, p, t);
    InvAt(run[t], i);
    if run[t][i].local.pc == Out { OutKnows(run[t], i, j); }
  }

  // ---- progress

  /** If all have entered the barrier that rank i is in, some rank can step. */
  lemma {:induction false} Progress(s: seq<Rank>, i: nat)
    requires Inv(s) && i < |s| && s[i].local.pc != Out
    requires forall j :: 0 <= j < |s| ==> s[j].entered >= s[i].entered
    ensures exists j :: CanStep(s, j)
    decreases s[i].local.pc.round
  {
    hide Pow2, CeilLog2, Inv, NextOf, PrevOf, Ready;
    var p, r := |s|, s[i].local.pc.round;
    InvAt(s, i);
    if s[i].local.pc.Sending? || Ready(s[i].local, i, p) {
      assert CanStep(s, i);
    } else {
      var prev := PrevOf(p, i, r);
      Unambiguous(s, i);
      Partners(p, i, r);
      InvChannel(s, prev, r);
      if s[i].inq[prev] != [] {
        assert Pending(s, i, prev);
        assert CanStep(s, i);
      } else if s[prev].local.pc.Sending? {
        assert CanStep(s, prev);
      } else {
        Progress(s, prev);
      }
    }
  }

  /** When nothing can step and all have entered the same barrier, all have left it. */
  lemma {:induction false} QuietMeansLeft(run: seq<seq<Rank>>, p: nat, t: nat, k: nat)
    requires IsRun(run, p) && p >= 1 && t < |run|
    requires forall j :: 0 <= j < |run[t]| ==> run[t][j].entered == k
    requires forall j :: !CanStep(run[t], j)
    ensures forall j :: 0 <= j < |run[t]| ==> run[t][j].local.pc == Out
  {
    hide IsRun, Inv, CanStep;
    RunInv(run, p, t);
    forall j | 0 <= j < |run[t]| ensures run[t][j].local.pc == Out {
      if run[t][j].local.pc != Out { Progress(run[t], j); }
    }
  }

  function Mail(inq: seq<seq<nat>>): nat {
    if inq == [] then 0 else Mail(inq[..|inq| - 1]) + |inq[|inq| - 1]|
  }

  /** An upper bound on the steps left to a rank and its messages. */
  function Work(a: Rank, n: nat): nat {
    Mail(a.inq) + match a.local.pc
                  case Out => 0
                  case Sending(r) => if r < n then 3 * (n - r) else 0
                  case Waiting(r) => if r < n then 3 * (n - r) - 2 else 0
  }

  function Total(s: seq<Rank>, n: nat): nat {
    if s == [] then 0 else Total(s[..|s| - 1], n) + Work(s[|s| - 1], n)
  }

  lemma {:induction false} MailUpdate(inq: seq<seq<nat>>, i: nat, q: seq<nat>)
    requires i < |inq|
    ensures Mail(inq[i := q]) == Mail(inq) - |inq[i]| + |q|
  {
    if i == |inq| - 1 {
      assert inq[i := q][..|inq| - 1] == inq[..|inq| - 1];
    } else {
      MailUpdate(inq[..|inq| - 1], i, q);
      assert inq[i := q][..|inq| - 1] == inq[..|inq| - 1][i := q];
    }
  }

  lemma {:induction false} TotalUpdate(s: seq<Rank>, n: nat, i: nat, a: Rank)
    requires i < |s|
    ensures Total(s[i := a], n) == Total(s, n) - Work(s[i], n) + Work(a, n)
  {
    hide Work;
    if i == |s| - 1 {
      assert s[i := a][..|s| - 1] == s[..|s| - 1];
    } else {
      TotalUpdate(s[..|s| - 1], n, i, a);
      assert s[i := a][..|s| - 1] == s[..|s| - 1][i := a];
    }
  }

  lemma {:induction false} SendWork(s: seq<Rank>, i: nat)
    requires Inv(s) && i < |s| && s[i].local.pc.Sending?
    ensures Total(DoSend(s, i), CeilLog2(|s|)) < Total(s, CeilLog2(|s|))
  {
    hide Pow2, CeilLog2, Inv, NextOf, Knows, Total, Mail;
    var n := CeilLog2(|s|);
    var to := NextOf(|s|, i, s[i].local.pc.round);
    InvAt(s, i);
    InvAt(s, to);
    Partners(|s|, i, s[i].local.pc.round);
    var s1 := s[i := s[i].(local := Sent(s[i].local))];
    TotalUpdate(s, n, i, s1[i]);
    TotalUpdate(s1, n, to, DoSend(s, i)[to]);
    MailUpdate(s1[to].inq, i, s1[to].inq[i] + [s[i].local.barNum]);
  }

  lemma {:induction false} ArriveWork(a: Rank, from: nat, a': Rank, n: nat)
    requires from < |a.inq| && a.inq[from] != []
    requires a'.inq == a.inq[from := a.inq[from][1..]] && a'.local.pc == a.local.pc
    ensures Work(a', n) == Work(a, n) - 1
  {
    hide Mail;
    MailUpdate(a.inq, from, a.inq[from][1..]);
  }

  lemma PassWork(a: Rank, p: nat)
    requires p >= 1 && a.local.pc.Waiting? && a.local.pc.round < CeilLog2(p)
    ensures Work(a.(local := Passed(a.local, p)), CeilLog2(p)) < Work(a, CeilLog2(p))
  {
    hide Mail, CeilLog2;
  }

  /** Steps inside barriers come to an end: each lowers a natural number. */
  lemma {:induction false} InnerEnds(s: seq<Rank>, s': seq<Rank>)
    requires Inv(s) && Inner(s, s')
    ensures Total(s', CeilLog2(|s|)) < Total(s, CeilLog2(|s|))
  {
    hide Inv, Begin, Sent, Ready, NextOf, Knows, Total, Mail, CeilLog2, Work, Passed;
    var n := CeilLog2(|s|);
    if i :| 0 <= i < |s| && s[i].local.pc.Sending? && s' == DoSend(s, i) {
      SendWork(s, i);
    } else if i :| 0 <= i < |s| && s[i].local.pc.Waiting? && Ready(s[i].local, i, |s|) && s' == DoPass(s, i) {
      InvAt(s, i);
      TotalUpdate(s, n, i, s'[i]);
      PassWork(s[i], |s|);
    } else {
      var i: nat, from: nat :| Pending(s, i, from) && s' == DoArrive(s, i, from);
      TotalUpdate(s, n, i, s'[i]);
      ArriveWork(s[i], from, s'[i], n);
    }
  }
}
