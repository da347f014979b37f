/** Reading a sub-box of a remote object (src/dimes_client.c: matrix_rdma_copy,
    schedule_rdma_reads, is_remote_data_contiguous_in_memory,
    calculate_offset_for_remote_data and their use in dimes_fetch_data).  The destination
    box is the part of the source box the query asks for. */
module DimesRead {
  import opened Words
  import opened HilbertCube
  import opened Bbox
  import opened BoxVolume
  import opened BoxOffset
  import opened BoxCopy
  import opened BoxCopyCorrect
  import opened BoxCopyCode

  /** matrix_rdma_copy from the loop over dimension d inwards: the reads it schedules. */
  method ScheduleDim(a: Matrix, b: Matrix, se: nat, d: nat, aloc: nat, bloc: nat) returns (rs: seq<Move>)
    requires Alike(a, b) && d < |a.lb|
    ensures rs == Moves(a, b, se, d, aloc, bloc)
    decreases d
  {
    hide Mul, MovesFrom;
    if d == 0 {
      var n := a.ub[0] - a.lb[0] + 1;
      MulIsProduct(bloc + b.lb[0], se);
      MulIsProduct(aloc + a.lb[0], se);
      MulIsProduct(n, se);
      rs := [Move((bloc + b.lb[0]) * se, (aloc + a.lb[0]) * se, n * se)];
    } else {
      rs := [];
      var av, bv := a.lb[d], b.lb[d];
      ghost var k := 0;
      assert [] + MovesFrom(a, b, se, d, aloc, bloc, 0) == MovesFrom(a, b, se, d, aloc, bloc, 0);
      while av <= a.ub[d]
        invariant av == a.lb[d] + k && bv == b.lb[d] + k && k >= 0
        invariant rs + MovesFrom(a, b, se, d, aloc, bloc, k) == MovesFrom(a, b, se, d, aloc, bloc, 0)
      {
        MovesTurn(a, b, se, d, aloc, bloc, k);
        var bu := if d == 9 then av else bv;
        MulIsProduct(aloc + av, a.dist[d - 1]);
        MulIsProduct(bloc + bu, b.dist[d - 1]);
        var more := ScheduleDim(a, b, se, d - 1, (aloc + av) * a.dist[d - 1], (bloc + bu) * b.dist[d - 1]);
        assert rs + (more + MovesFrom(a, b, se, d, aloc, bloc, k + 1)) == (rs + more) + MovesFrom(a, b, se, d, aloc, bloc, k + 1);
        rs := rs + more;
        av, bv, k := av + 1, bv + 1, k + 1;
      }
      MovesTurn(a, b, se, d, aloc, bloc, k);
      assert rs + [] == rs;
    }
  }

  // ---- contiguous sub-boxes

  /** All dimensions but the last are taken in full. */
  predicate Contiguous(src: Box, dst: Box) {
    |src.lb| == |src.ub| == |dst.lb| == |dst.ub| &&
    forall d :: 0 <= d < |src.lb| - 1 ==> src.lb[d] == dst.lb[d] && src.ub[d] == dst.ub[d]
  }

  /** is_remote_data_contiguous_in_memory */
  method IsRemoteDataContiguous(src: Box, dst: Box) returns (r: bool)
    requires NonEmpty(dst) && NonEmpty(src) && (|src.lb| == |dst.lb| ==> Includes(src, dst))
    ensures r == (|src.lb| == |dst.lb| && Contiguous(src, dst))
  {
    if |src.lb| != |dst.lb| { return false; }
    IncludedCommon(src, dst);
    var bb := BboxIntersect(dst, src);
    var from := MatrixInit(src, bb);
    r := true;
    var i := 0;
    while i < |from.dist| - 1
      invariant 0 <= i <= |from.dist| && r
      invariant forall d :: 0 <= d < i && d < |src.lb| - 1 ==> src.lb[d] == dst.lb[d] && src.ub[d] == dst.ub[d]
    {
      if from.ub[i] - from.lb[i] + 1 != from.dist[i] {
        r := false;
        break;
      }
      i := i + 1;
    }
  }

  lemma IncludedCommon(src: Box, dst: Box)
    requires NonEmpty(dst) && Includes(src, dst)
    ensures Common(dst, src) == dst
  {}

  /** The distance between the first cells of the two boxes in the source buffer. */
  function Shift(src: Box, dst: Box): nat
    requires NonEmpty(dst) && Includes(src, dst) && |src.lb| > 0
    decreases |src.lb|
  {
    if |src.lb| == 1 then dst.lb[0] - src.lb[0]
    else Mul(Shift(Tail(src), Tail(dst)), src.ub[0] - src.lb[0] + 1)
  }

  lemma {:induction false} OffShift(src: Box, dst: Box, c: Cell)
    requires Includes(src, dst) && Contiguous(src, dst) && |src.lb| > 0 && InBox(c, dst)
    ensures InBox(c, src) && NonEmpty(dst) && Off(src, c) == Off(dst, c) + Shift(src, dst)
    decreases |c|
  {
    hide Mul;
    assert InBox(c, src);
    TailIn(dst, c);
    TailIn(src, c);
    if |c| == 1 {
      OffLast(src, c);
      OffLast(dst, c);
    } else {
      ContiguousTail(src, dst);
      OffShift(Tail(src), Tail(dst), c[1..]);
      MulAdd(Off(Tail(dst), c[1..]), Shift(Tail(src), Tail(dst)), Side(src));
    }
  }

  lemma OffLast(b: Box, c: Cell)
    requires InBox(c, b) && |c| == 1
    ensures Off(b, c) == c[0] - b.lb[0]
  {
    assert Off(Tail(b), c[1..]) == 0;
  }

  lemma ContiguousTail(src: Box, dst: Box)
    requires Includes(src, dst) && Contiguous(src, dst) && |src.lb| > 1
    ensures Includes(Tail(src), Tail(dst)) && Contiguous(Tail(src), Tail(dst))
  {
    var s, t := Tail(src), Tail(dst);
    forall d | 0 <= d < |s.lb| ensures s.lb[d] <= t.lb[d] && s.ub[d] >= t.ub[d] {
      assert src.lb[d + 1] <= dst.lb[d + 1] && src.ub[d + 1] >= dst.ub[d + 1];
    }
    forall d | 0 <= d < |s.lb| - 1 ensures s.lb[d] == t.lb[d] && s.ub[d] == t.ub[d] {
      assert src.lb[d + 1] == dst.lb[d + 1] && src.ub[d + 1] == dst.ub[d + 1];
    }
  }

  lemma {:induction false} OffsetTurn(src: Box, dst: Box, i: nat, numElem: nat)
    requires NonEmpty(dst) && Includes(src, dst) && i < |src.lb| - 1
    ensures DropOk(src, dst, i) && DropOk(src, dst, i + 1)
    ensures Mul(numElem * (src.ub[i] - src.lb[i] + 1), Shift(Drop(src, i + 1), Drop(dst, i + 1)))
            == Mul(numElem, Shift(Drop(src, i), Drop(dst, i)))
  {
    hide Mul, Shift, Drop;
    ShiftUpto(src, dst, i);
    ShiftUpto(src, dst, i + 1);
    var s, side := Shift(Drop(src, i + 1), Drop(dst, i + 1)), src.ub[i] - src.lb[i] + 1;
    MulComm(s, side);
    MulAssoc(numElem, side, s);
  }

  /** calculate_offset_for_remote_data */
  method CalculateOffset(src: Box, dst: Box, se: nat) returns (offset: nat)
    requires NonEmpty(dst) && Includes(src, dst) && |src.lb| > 0
    ensures offset == Mul(Shift(src, dst), se)
  {
    hide Mul, Shift, Common, Desc, Drop;
    IncludedCommon(src, dst);
    var bb := BboxIntersect(dst, src);
    var from := MatrixInit(src, bb);
    var numElem: nat := 1;
    var i := 0;
    ShiftUpto(src, dst, 0);
    while i < |from.dist| - 1
      invariant 0 <= i < |src.lb| && DropOk(src, dst, i)
      invariant Mul(numElem, Shift(Drop(src, i), Drop(dst, i))) == Shift(src, dst)
    {
      DescAt(src, dst, i);
      OffsetTurn(src, dst, i, numElem);
      numElem := numElem * from.dist[i];
      i := i + 1;
    }
    ShiftUpto(src, dst, i);
    DescAt(src, dst, i);
    MulIsProduct(numElem, from.lb[i]);
    numElem := numElem * from.lb[i];
    MulIsProduct(numElem, se);
    offset := numElem * se;
  }

  function Drop(b: Box, k: nat): (r: Box)
    requires IsBox(b, |b.lb|) && k <= |b.lb|
    ensures IsBox(r, |b.lb| - k)
  {
    Box(b.lb[k..], b.ub[k..])
  }

  predicate DropOk(src: Box, dst: Box, k: nat)
    requires Includes(src, dst) && k <= |src.lb|
  {
    NonEmpty(Drop(dst, k)) && Includes(Drop(src, k), Drop(dst, k))
  }

  lemma DescAt(src: Box, dst: Box, i: nat)
    requires NonEmpty(dst) && Includes(src, dst) && i < |src.lb|
    ensures var m := Desc(src, dst); m.dist[i] == src.ub[i] - src.lb[i] + 1 && m.lb[i] == dst.lb[i] - src.lb[i]
  {}

  lemma {:induction false} ShiftUpto(src: Box, dst: Box, k: nat)
    requires NonEmpty(dst) && Includes(src, dst) && k < |src.lb|
    ensures DropOk(src, dst, k)
    ensures k == 0 ==> Mul(1, Shift(Drop(src, k), Drop(dst, k))) == Shift(src, dst)
    ensures k == |src.lb| - 1 ==> Shift(Drop(src, k), Drop(dst, k)) == dst.lb[k] - src.lb[k]
    ensures k < |src.lb| - 1 ==>
              (DropOk(src, dst, k + 1) &&
               Shift(Drop(src, k), Drop(dst, k)) == Mul(Shift(Drop(src, k + 1), Drop(dst, k + 1)), src.ub[k] - src.lb[k] + 1))
  {
    hide Mul;
    if k == 0 {
      assert Drop(src, 0) == src && Drop(dst, 0) == dst;
      MulSmall(Shift(src, dst));
    }
    if k < |src.lb| - 1 { assert Tail(Drop(src, k)) == Drop(src, k + 1) && Tail(Drop(dst, k)) == Drop(dst, k + 1); }
  }

  // ---- one read does it

  lemma {:induction false} SingleFits(src: Box, dst: Box, se: nat)
    requires NonEmpty(dst) && NonEmpty(src) && Includes(src, dst) && Contiguous(src, dst) && |src.lb| > 0
    ensures Mul(Shift(src, dst), se) + Mul(Volume(dst), se) <= Mul(Volume(src), se)
  {
    hide Mul, Off, StoredCell, Shift;
    VolumePos(dst);
    var c := StoredCell(dst, Volume(dst) - 1);
    OffAfterCell(dst, Volume(dst) - 1);
    OffShift(src, dst, c);
    ByteBound(src, se, c);
    MulAdd(Volume(dst) - 1, Shift(src, dst), se);
    MulAdd(Volume(dst) - 1, 1, se);
    MulSmall(se);
  }

  lemma {:induction false} VolumePos(b: Box)
    requires NonEmpty(b)
    ensures Volume(b) > 0
    decreases |b.lb|
  {
    if |b.lb| > 0 { VolumePos(Tail(b)); }
  }

  /** The single read at the computed offset fetches what the strided reads do. */
  lemma {:induction false} SingleRead(src: Box, dst: Box, se: nat)
    requires NonEmpty(dst) && NonEmpty(src) && Includes(src, dst) && Contiguous(src, dst) && |src.lb| > 0 && se > 0
    ensures CopiesRight([Move(Mul(Shift(src, dst), se), 0, Mul(Volume(dst), se))], dst, src, se)
  {
    hide Mul, Shift, Apply, CopiedByte;
    var m := Move(Mul(Shift(src, dst), se), 0, Mul(Volume(dst), se));
    SingleFits(src, dst, se);
    forall A: seq<byte>, B: seq<byte> {:trigger Apply([m], A, B)} | IsBuffer(A, dst, se) && IsBuffer(B, src, se)
      ensures Apply([m], A, B) == Copied(dst, A, src, B, se)
    {
      ApplyOne(m, A, B);
      forall x | 0 <= x < |A| ensures Moved(m, A, B)[x] == CopiedByte(dst, A, src, B, se, x) {
        SingleByte(src, A, dst, B, se, x);
      }
    }
  }

  lemma {:induction false} SingleByte(src: Box, A: seq<byte>, dst: Box, B: seq<byte>, se: nat, x: nat)
    requires NonEmpty(dst) && NonEmpty(src) && Includes(src, dst) && Contiguous(src, dst) && |src.lb| > 0
    requires IsBuffer(A, dst, se) && IsBuffer(B, src, se) && x < |A|
    ensures Mul(Shift(src, dst), se) + x < |B| && B[Mul(Shift(src, dst), se) + x] == CopiedByte(dst, A, src, B, se, x)
  {
    hide Mul, Quo, Rem, Off, StoredCell, Shift;
    SingleFits(src, dst, se);
    var q := Quo(x, se);
    QuoBound(x, se, Volume(dst));
    OffAfterCell(dst, q);
    OffShift(src, dst, StoredCell(dst, q));
    QuoRem(x, se);
    MulAdd(q, Shift(src, dst), se);
  }

  /** The strided reads of schedule_rdma_reads. */
  lemma {:induction false} StridedReads(src: Box, dst: Box, se: nat)
    requires Pair(dst, src) && se > 0
    ensures CopiesRight(AllMoves(dst, src, se), dst, src, se)
  {
    hide Mul, Apply, AllMoves, Copied, AllFit;
    AllMovesFit(dst, src, se);
    forall A: seq<byte>, B: seq<byte> {:trigger Apply(AllMoves(dst, src, se), A, B)} | IsBuffer(A, dst, se) && IsBuffer(B, src, se)
      ensures Apply(AllMoves(dst, src, se), A, B) == Copied(dst, A, src, B, se)
    {
      MovesCorrect(dst, A, src, B, se);
    }
  }

  /** schedule_rdma_reads: the whole object, or the strided reads. */
  method ScheduleRdmaReads(src: Box, dst: Box, se: nat) returns (rs: seq<Move>)
    requires Pair(dst, src) && Includes(src, dst) && se > 0
    ensures CopiesRight(rs, dst, src, se)
  {
    hide Mul, CopiesRight, Moves, Shift, Common, Desc;
    if src == dst {
      var n := BboxVolume(dst);
      MulIsProduct(n, se);
      rs := [Move(0, 0, n * se)];
      SingleRead(src, dst, se);
      ShiftSelf(src);
      MulSmall(se);
    } else {
      PairCommon(dst, src);
      var com := BboxIntersect(dst, src);
      var from := MatrixInit(src, com);
      var to := MatrixInit(dst, com);
      rs := ScheduleDim(to, from, se, |dst.lb| - 1, 0, 0);
      StridedReads(src, dst, se);
    }
  }

  lemma {:induction false} ShiftSelf(b: Box)
    requires NonEmpty(b) && |b.lb| > 0
    ensures Shift(b, b) == 0
    decreases |b.lb|
  {
    if |b.lb| > 1 { ShiftSelf(Tail(b)); }
  }

  /** The reads of dimes_fetch_data for one remote object. */
  method FetchReads(src: Box, dst: Box, se: nat) returns (rs: seq<Move>)
    requires NonEmpty(dst) && NonEmpty(src) && Includes(src, dst) && |src.lb| > 0 && se > 0
    requires !Contiguous(src, dst) ==> Pair(dst, src)
    ensures CopiesRight(rs, dst, src, se)
    ensures Contiguous(src, dst) ==> |rs| == 1
  {
    hide Mul, CopiesRight, Contiguous, Shift;
    var contiguous := IsRemoteDataContiguous(src, dst);
    if contiguous {
      var offset := CalculateOffset(src, dst, se);
      var n := BboxVolume(dst);
      MulIsProduct(n, se);
      rs := [Move(offset, 0, n * se)];
      SingleRead(src, dst, se);
    } else {
      rs := ScheduleRdmaReads(src, dst, se);
    }
  }
}
