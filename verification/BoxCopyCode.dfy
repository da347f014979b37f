/** matrix_copy, ssd_copy and ssd_copy_list in place (src/ss_data.c), and the assembly of
    an array from pieces. */
module BoxCopyCode {
  import opened Words
  import opened HilbertCube
  import opened Bbox
  import opened BoxOffset
  import opened BoxCopy
  import opened BoxCopyCorrect

  /** struct obj_data: the box, the element size and the buffer. */
  class ObjData {
    const bb: Box
    const size: nat
    const data: array<byte>

    constructor (bb: Box, size: nat, data: array<byte>)
      ensures this.bb == bb && this.size == size && this.data == data
    {
      this.bb, this.size, this.data := bb, size, data;
    }
  }

  method MemCpy(A: array<byte>, dst: nat, B: array<byte>, src: nat, num: nat)
    requires A != B && Fits(Move(src, dst, num), A.Length, B.Length)
    modifies A
    ensures A[..] == Moved(Move(src, dst, num), old(A[..]), B[..])
  {
    var i := 0;
    while i < num
      invariant 0 <= i <= num
      invariant forall x :: 0 <= x < A.Length ==> A[x] == if dst <= x < dst + i then B[src + x - dst] else old(A[x])
    {
      A[dst + i] := B[src + i];
      i := i + 1;
    }
  }

  lemma {:induction false} ApplySplit(ms: seq<Move>, ns: seq<Move>, A: seq<byte>, B: seq<byte>)
    ensures Apply(ms + ns, A, B) == Apply(ns, Apply(ms, A, B), B)
    decreases |ms|
  {
    hide Moved;
    if ms == [] {
      assert ms + ns == ns;
    } else {
      assert (ms + ns)[1..] == ms[1..] + ns;
      ApplySplit(ms[1..], ns, Moved(ms[0], A, B), B);
    }
  }

  lemma AllFitSplit(ms: seq<Move>, ns: seq<Move>, a: nat, b: nat)
    requires AllFit(ms + ns, a, b)
    ensures AllFit(ms, a, b) && AllFit(ns, a, b)
  {
    forall i | 0 <= i < |ms| ensures Fits(ms[i], a, b) { assert Fits((ms + ns)[i], a, b); }
    forall i | 0 <= i < |ns| ensures Fits(ns[i], a, b) { assert Fits((ms + ns)[|ms| + i], a, b); }
  }

  lemma ApplyOne(m: Move, A: seq<byte>, B: seq<byte>)
    ensures Apply([m], A, B) == Moved(m, A, B)
  {
    assert Apply([m], A, B) == Apply([], Moved(m, A, B), B);
  }

  /** matrix_copy from the loop over dimension d inwards. */
  method CopyDim(a: Matrix, A: array<byte>, b: Matrix, B: array<byte>, se: nat, d: nat, aloc: nat, bloc: nat)
    requires Alike(a, b) && d < |a.lb| && A != B && AllFit(Moves(a, b, se, d, aloc, bloc), A.Length, B.Length)
    modifies A
    ensures A[..] == Apply(Moves(a, b, se, d, aloc, bloc), old(A[..]), B[..])
    decreases d
  {
    hide Mul, Apply, Moved, MovesFrom, AllFit;
    if d == 0 {
      var numelem := a.ub[0] - a.lb[0] + 1;
      MulIsProduct(bloc + b.lb[0], se);
      MulIsProduct(aloc + a.lb[0], se);
      MulIsProduct(numelem, se);
      FitAt(Moves(a, b, se, 0, aloc, bloc), A.Length, B.Length, 0);
      ApplyOne(Moves(a, b, se, 0, aloc, bloc)[0], A[..], B[..]);
      MemCpy(A, (aloc + a.lb[0]) * se, B, (bloc + b.lb[0]) * se, numelem * se);
    } else {
      var av, bv := a.lb[d], b.lb[d];
      ghost var goal, k := Apply(Moves(a, b, se, d, aloc, bloc), A[..], B[..]), 0;
      while av <= a.ub[d]
        invariant av == a.lb[d] + k && bv == b.lb[d] + k && k >= 0
        invariant AllFit(MovesFrom(a, b, se, d, aloc, bloc, k), A.Length, B.Length)
        invariant Apply(MovesFrom(a, b, se, d, aloc, bloc, k), A[..], B[..]) == goal
      {
        MovesTurn(a, b, se, d, aloc, bloc, k);
        var bu := if d == 9 then av else bv;
        MulIsProduct(aloc + av, a.dist[d - 1]);
        MulIsProduct(bloc + bu, b.dist[d - 1]);
        var al, bl: nat := (aloc + av) * a.dist[d - 1], (bloc + bu) * b.dist[d - 1];
        ghost var ms, rest := Moves(a, b, se, d - 1, al, bl), MovesFrom(a, b, se, d, aloc, bloc, k + 1);
        AllFitSplit(ms, rest, A.Length, B.Length);
        ApplySplit(ms, rest, A[..], B[..]);
        CopyDim(a, A, b, B, se, d - 1, al, bl);
        av, bv, k := av + 1, bv + 1, k + 1;
      }
      MovesTurn(a, b, se, d, aloc, bloc, k);
      ApplyNone(A[..], B[..]);
    }
  }

  lemma ApplyNone(A: seq<byte>, B: seq<byte>)
    ensures Apply([], A, B) == A
  {}

  /** ssd_copy */
  method SsdCopy(to: ObjData, from: ObjData)
    requires Pair(to.bb, from.bb) && to.size == from.size && to.data != from.data
    requires IsBuffer(to.data[..], to.bb, to.size) && IsBuffer(from.data[..], from.bb, from.size)
    modifies to.data
    ensures to.data[..] == Copied(to.bb, old(to.data[..]), from.bb, from.data[..], to.size)
  {
    hide Mul, Apply, Moves, AllFit, Copied, Common, Desc;
    PairParts(to.bb, from.bb);
    PairCommon(to.bb, from.bb);
    var com := BboxIntersect(to.bb, from.bb);
    var b := MatrixInit(from.bb, com);
    var a := MatrixInit(to.bb, com);
    AllMovesFit(to.bb, from.bb, to.size);
    MovesCorrect(to.bb, to.data[..], from.bb, from.data[..], to.size);
    CopyDim(a, to.data, b, from.data, to.size, |to.bb.lb| - 1, 0, 0);
  }

  // ---- a list of pieces

  datatype Piece = Piece(bb: Box, data: seq<byte>)

  predicate GoodPiece(to: Box, p: Piece, se: nat) {
    Pair(to, p.bb) && IsBuffer(p.data, p.bb, se)
  }

  function CopiedAll(to: Box, A: seq<byte>, ps: seq<Piece>, se: nat): (r: seq<byte>)
    requires IsBuffer(A, to, se) && forall i :: 0 <= i < |ps| ==> GoodPiece(to, ps[i], se)
    ensures |r| == |A|
  {
    if ps == [] then A else
    var n := |ps| - 1;
    assert GoodPiece(to, ps[n], se);
    Copied(to, CopiedAll(to, A, ps[..n], se), ps[n].bb, ps[n].data, se)
  }

  function Pieces(ods: seq<ObjData>): (ps: seq<Piece>)
    reads set o <- ods :: o.data
    ensures |ps| == |ods| && forall i :: 0 <= i < |ods| ==> ps[i] == Piece(ods[i].bb, ods[i].data[..])
  {
    if ods == [] then [] else
    Pieces(ods[..|ods| - 1]) + [Piece(ods[|ods| - 1].bb, ods[|ods| - 1].data[..])]
  }

  /** ssd_copy_list */
  method SsdCopyList(to: ObjData, ods: seq<ObjData>)
    requires IsBuffer(to.data[..], to.bb, to.size)
    requires forall i :: 0 <= i < |ods| ==>
               ods[i].data != to.data && ods[i].size == to.size && GoodPiece(to.bb, Pieces(ods)[i], to.size)
    modifies to.data
    ensures to.data[..] == CopiedAll(to.bb, old(to.data[..]), old(Pieces(ods)), to.size)
  {
    hide Pair, Copied, Mul;
    ghost var ps, A := Pieces(ods), to.data[..];
    var i := 0;
    while i < |ods|
      invariant 0 <= i <= |ods|
      invariant Pieces(ods) == ps
      invariant to.data[..] == CopiedAll(to.bb, A, ps[..i], to.size)
    {
      assert GoodPiece(to.bb, ps[i], to.size);
      SsdCopy(to, ods[i]);
      assert ps[..i + 1][..i] == ps[..i];
      i := i + 1;
    }
    assert ps[..i] == ps;
  }

  /** Cell by cell: a shared cell comes from the piece, any other is as it was. */
  lemma {:induction false} CopiedCell(to: Box, A: seq<byte>, from: Box, B: seq<byte>, se: nat, c: Cell, k: nat)
    requires IsBuffer(A, to, se) && IsBuffer(B, from, se) && InBox(c, to) && k < se
    ensures ByteOf(to, Copied(to, A, from, B, se), se, c, k) ==
            if InBox(c, from) then ByteOf(from, B, se, c, k) else ByteOf(to, A, se, c, k)
  {
    hide Mul, Quo, Rem, Off, StoredCell;
    ByteBound(to, se, c);
    QuoRemOf(Off(to, c), k, se);
    CellAfterOff(to, c);
  }

  /** Every piece holds what the global array g has there. */
  ghost predicate Agrees(p: Piece, se: nat, g: (Cell, nat) -> byte)
    requires IsBuffer(p.data, p.bb, se)
  {
    forall c: Cell, k: nat :: InBox(c, p.bb) && k < se ==> ByteOf(p.bb, p.data, se, c, k) == g(c, k)
  }

  predicate Covered(ps: seq<Piece>, c: Cell) {
    exists i :: 0 <= i < |ps| && InBox(c, ps[i].bb)
  }

  lemma {:induction false} CoveredInit(ps: seq<Piece>, c: Cell)
    requires ps != []
    ensures Covered(ps, c) <==> Covered(ps[..|ps| - 1], c) || InBox(c, ps[|ps| - 1].bb)
  {
    hide InBox;
    var init := ps[..|ps| - 1];
    if Covered(init, c) {
      var i :| 0 <= i < |init| && InBox(c, init[i].bb);
      assert InBox(c, ps[i].bb);
    }
    if Covered(ps, c) {
      var i :| 0 <= i < |ps| && InBox(c, ps[i].bb);
      assert i < |init| ==> InBox(c, init[i].bb);
    }
  }

  lemma {:induction false} RebuildCell(to: Box, A: seq<byte>, ps: seq<Piece>, se: nat, g: (Cell, nat) -> byte, c: Cell, k: nat)
    requires IsBuffer(A, to, se) && InBox(c, to) && k < se
    requires forall i :: 0 <= i < |ps| ==> GoodPiece(to, ps[i], se) && Agrees(ps[i], se, g)
    ensures ByteOf(to, CopiedAll(to, A, ps, se), se, c, k) ==
            if Covered(ps, c) then g(c, k) else ByteOf(to, A, se, c, k)
  {
    hide Mul, Copied, ByteOf, InBox;
    if ps != [] {
      var n := |ps| - 1;
      RebuildCell(to, A, ps[..n], se, g, c, k);
      assert GoodPiece(to, ps[n], se) && Agrees(ps[n], se, g);
      CopiedCell(to, CopiedAll(to, A, ps[..n], se), ps[n].bb, ps[n].data, se, c, k);
      CoveredInit(ps, c);
    }
  }

  /** Pieces that agree with one array and cover the query rebuild that array. */
  lemma {:induction false} Rebuild(to: Box, A: seq<byte>, ps: seq<Piece>, se: nat, g: (Cell, nat) -> byte)
    requires IsBuffer(A, to, se)
    requires forall i :: 0 <= i < |ps| ==> GoodPiece(to, ps[i], se) && Agrees(ps[i], se, g)
    requires forall c: Cell :: InBox(c, to) ==> Covered(ps, c)
    ensures Agrees(Piece(to, CopiedAll(to, A, ps, se)), se, g)
  {
    hide Mul, Copied, ByteOf, InBox, CopiedAll;
    forall c: Cell, k: nat | InBox(c, to) && k < se ensures ByteOf(to, CopiedAll(to, A, ps, se), se, c, k) == g(c, k) {
      RebuildCell(to, A, ps, se, g, c, k);
    }
  }
}
