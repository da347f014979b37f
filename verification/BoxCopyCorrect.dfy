/** What the nested loops copy: every cell the two boxes share, byte by byte, and nothing
    else; and what a list of pieces assembles to. */
module BoxCopyCorrect {
  import opened Words
  import opened HilbertCube
  import opened Bbox
  import opened BoxVolume
  import opened BoxOffset
  import opened BoxCopy

  /** A buffer of the box: se bytes for each cell. */
  predicate IsBuffer(A: seq<byte>, b: Box, se: nat) {
    NonEmpty(b) && se > 0 && |A| == Mul(Volume(b), se)
  }

  /** The byte of cell c at offset k. */
  function ByteOf(b: Box, B: seq<byte>, se: nat, c: Cell, k: nat): byte
    requires IsBuffer(B, b, se) && InBox(c, b) && k < se
  {
    ByteBound(b, se, c);
    B[Mul(Off(b, c), se) + k]
  }

  lemma {:induction false} ByteBound(b: Box, se: nat, c: Cell)
    requires NonEmpty(b) && InBox(c, b)
    ensures Mul(Off(b, c), se) + se <= Mul(Volume(b), se)
  {
    hide Mul;
    OffBound(b, c);
    MulStep(Off(b, c), Volume(b), se);
  }

  /** Byte x of the destination after the copy: it belongs to a cell of the destination box,
      and comes from the same cell of the source if the source has it. */
  function CopiedByte(to: Box, A: seq<byte>, from: Box, B: seq<byte>, se: nat, x: nat): byte
    requires IsBuffer(A, to, se) && IsBuffer(B, from, se) && x < |A|
  {
    var c := StoredCell(to, Quo(x, se));
    if InBox(c, from) then ByteOf(from, B, se, c, Rem(x, se)) else A[x]
  }

  function Copied(to: Box, A: seq<byte>, from: Box, B: seq<byte>, se: nat): (r: seq<byte>)
    requires IsBuffer(A, to, se) && IsBuffer(B, from, se)
    ensures |r| == |A|
  {
    seq(|A|, x requires 0 <= x < |A| => CopiedByte(to, A, from, B, se, x))
  }

  /** The moves of matrix_copy for two boxes that meet. */
  function AllMoves(to: Box, from: Box, se: nat): seq<Move>
    requires NonEmpty(to) && NonEmpty(from) && Meets(to, from) && |to.lb| >= 1
  {
    PairCommon(to, from);
    var com := Common(to, from);
    Moves(Desc(to, com), Desc(from, com), se, |to.lb| - 1, 0, 0)
  }

  // ---- from moves to bytes

  predicate Hits(m: Move, x: nat) {
    m.dst <= x < m.dst + m.num
  }

  lemma {:induction false} ApplyAt(ms: seq<Move>, A: seq<byte>, B: seq<byte>, x: nat, v: byte)
    requires AllFit(ms, |A|, |B|) && x < |A|
    requires forall i :: 0 <= i < |ms| && Hits(ms[i], x) ==> B[ms[i].src + x - ms[i].dst] == v
    requires A[x] == v || exists i :: 0 <= i < |ms| && Hits(ms[i], x)
    ensures Apply(ms, A, B)[x] == v
    decreases |ms|
  {
    if ms != [] {
      var A' := Moved(ms[0], A, B);
      assert Fits(ms[0], |A|, |B|);
      forall i | 0 <= i < |ms[1..]| ensures Fits(ms[1..][i], |A'|, |B|) { assert Fits(ms[i + 1], |A|, |B|); }
      if A[x] != v && !Hits(ms[0], x) {
        var i :| 0 <= i < |ms| && Hits(ms[i], x);
        assert Hits(ms[1..][i - 1], x);
      }
      ApplyAt(ms[1..], A', B, x, v);
    }
  }

  /** A row that starts at c fits both buffers. */
  lemma {:induction false} MoveFits(to: Box, from: Box, se: nat, c: Cell)
    requires Pair(to, from) && Starts(to, from, c)
    ensures Fits(MoveAt(to, from, se, c), Mul(Volume(to), se), Mul(Volume(from), se))
  {
    hide Mul, Off, Pair;
    PairCommon(to, from) by { PairParts(to, from); }
    PairParts(to, from);
    var com := Common(to, from);
    var e := c[0 := com.ub[0]];
    CommonCells(to, from, e);
    StartsIn(to, from, c);
    OffAlong(to, c, com.ub[0]);
    OffAlong(from, c, com.ub[0]);
    ByteBound(to, se, e);
    ByteBound(from, se, e);
    var n := com.ub[0] - com.lb[0];
    MulAdd(Off(to, c), n, se);
    MulAdd(Off(from, c), n, se);
    MulAdd(n, 1, se);
    MulSmall(se);
  }

  /** Which bytes a row hits, and where they come from. */
  lemma {:induction false} MoveHits(to: Box, from: Box, se: nat, r: Cell, x: nat)
    requires Pair(to, from) && Starts(to, from, r) && se > 0 && Hits(MoveAt(to, from, se, r), x)
    ensures var c, m := StoredCell(to, Quo(x, se)), MoveAt(to, from, se, r);
            InBox(c, to) && InBox(c, from) && m.src + x - m.dst == Mul(Off(from, c), se) + Rem(x, se)
  {
    hide Mul, Off, Pair, Quo, Rem, StoredCell;
    PairCommon(to, from) by { PairParts(to, from); }
    PairParts(to, from);
    StartsIn(to, from, r);
    var com, q, m := Common(to, from), Quo(x, se), MoveAt(to, from, se, r);
    var o, n := Off(to, r), com.ub[0] - com.lb[0] + 1;
    MulAdd(o, n, se);
    QuoBound(x, se, o);
    QuoBound(x, se, o + n);
    var c := r[0 := r[0] + (q - o)];
    CommonCells(to, from, c);
    OffAlong(to, r, c[0]);
    OffAlong(from, r, c[0]);
    CellAfterOff(to, c);
    QuoRem(x, se);
    MulAdd(o, q - o, se);
    MulAdd(Off(from, r), q - o, se);
  }

  /** A byte of a shared cell is hit by the row of that cell. */
  lemma {:induction false} RowHits(to: Box, from: Box, se: nat, x: nat) returns (r: Cell)
    requires Pair(to, from) && se > 0 && x < Mul(Volume(to), se) && InBox(StoredCell(to, Quo(x, se)), from)
    ensures Starts(to, from, r) && Hits(MoveAt(to, from, se, r), x)
  {
    hide Mul, Off, Pair, Quo, Rem, StoredCell;
    PairCommon(to, from) by { PairParts(to, from); }
    PairParts(to, from);
    var com, q := Common(to, from), Quo(x, se);
    QuoBound(x, se, Volume(to));
    OffAfterCell(to, q);
    var c := StoredCell(to, q);
    CommonCells(to, from, c);
    r := c[0 := com.lb[0]];
    CommonCells(to, from, r);
    OffAlong(to, c, com.lb[0]);
    var n := com.ub[0] - com.lb[0] + 1;
    MulAdd(Off(to, r), n, se);
    QuoBound(x, se, Off(to, r));
    QuoBound(x, se, Off(to, r) + n);
  }

  lemma {:induction false} AnyStart(to: Box, from: Box)
    requires Pair(to, from)
    ensures Starts(to, from, Common(to, from).lb)
  {
    PairCommon(to, from);
  }

  lemma {:induction false} AllMovesFit(to: Box, from: Box, se: nat)
    requires Pair(to, from)
    ensures AllFit(AllMoves(to, from, se), Mul(Volume(to), se), Mul(Volume(from), se))
  {
    hide Mul, Off, Moves, Reached, MoveAt;
    AnyStart(to, from);
    PairCommon(to, from);
    var c := Common(to, from).lb;
    ReachedTop(to, from, c);
    var ms := AllMoves(to, from, se);
    forall i | 0 <= i < |ms| ensures Fits(ms[i], Mul(Volume(to), se), Mul(Volume(from), se)) {
      var r := MovesSound(to, from, se, |to.lb| - 1, 0, 0, c, ms[i]);
      MoveFits(to, from, se, r);
    }
  }

  lemma {:induction false} MovesAt(to: Box, A: seq<byte>, from: Box, B: seq<byte>, se: nat, x: nat)
    requires Pair(to, from) && IsBuffer(A, to, se) && IsBuffer(B, from, se) && x < |A|
    ensures Apply(AllMoves(to, from, se), A, B)[x] == CopiedByte(to, A, from, B, se, x)
  {
    hide Mul, Off, Moves, Reached, MoveAt, Quo, Rem, StoredCell, Apply, AllFit;
    AnyStart(to, from);
    PairCommon(to, from);
    var a := Common(to, from).lb;
    ReachedTop(to, from, a);
    var ms, v := AllMoves(to, from, se), CopiedByte(to, A, from, B, se, x);
    AllMovesFit(to, from, se);
    forall i | 0 <= i < |ms| && Hits(ms[i], x) ensures Fits(ms[i], |A|, |B|) && B[ms[i].src + x - ms[i].dst] == v {
      FitAt(ms, |A|, |B|, i);
      var r := MovesSound(to, from, se, |to.lb| - 1, 0, 0, a, ms[i]);
      MoveHits(to, from, se, r, x);
    }
    if InBox(StoredCell(to, Quo(x, se)), from) {
      var r := RowHits(to, from, se, x);
      assert r[|r|..] == a[|a|..];
      MovesComplete(to, from, se, |to.lb| - 1, 0, 0, a, r);
      var i :| 0 <= i < |ms| && ms[i] == MoveAt(to, from, se, r);
      assert Hits(ms[i], x);
    }
    ApplyAt(ms, A, B, x, v);
  }

  lemma FitAt(ms: seq<Move>, a: nat, b: nat, i: nat)
    requires AllFit(ms, a, b) && i < |ms|
    ensures Fits(ms[i], a, b)
  {}

  /** The loops copy every shared cell and change nothing else. */
  lemma {:induction false} MovesCorrect(to: Box, A: seq<byte>, from: Box, B: seq<byte>, se: nat)
    requires Pair(to, from) && IsBuffer(A, to, se) && IsBuffer(B, from, se)
    ensures Apply(AllMoves(to, from, se), A, B) == Copied(to, A, from, B, se)
  {
    hide Apply, AllMoves, CopiedByte;
    forall x | 0 <= x < |A| ensures Apply(AllMoves(to, from, se), A, B)[x] == CopiedByte(to, A, from, B, se, x) {
      MovesAt(to, A, from, B, se, x);
    }
  }

  // ---- ten dimensions

  /** The position of the first row below loop d, in the destination or (d below 9) in the
      source. */
  function Down(m: Matrix, d: nat, loc: nat): nat
    requires d < |m.lb| == |m.dist|
  {
    if d == 0 then loc + m.lb[0] else Down(m, d - 1, Mul(loc + m.lb[d], m.dist[d - 1]))
  }

  predicate Sided(m: Matrix) {
    |m.lb| == |m.dist| == |m.ub| > 0 && m.ub[0] < m.lb[0] + m.dist[0] && forall i :: 0 <= i < |m.dist| ==> m.dist[i] > 0
  }

  lemma {:induction false} DownMono(m: Matrix, d: nat, x: nat, y: nat)
    requires Sided(m) && d < |m.lb| && x <= y
    ensures Down(m, d, x) <= Down(m, d, y)
    ensures x < y ==> Down(m, d, x) < Down(m, d, y)
    ensures x + m.dist[d] <= y ==> Down(m, d, x) + m.dist[0] <= Down(m, d, y)
  {
    hide Mul;
    if d > 0 {
      if x < y { MulStep(x + m.lb[d], y + m.lb[d], m.dist[d - 1]); }
      DownMono(m, d - 1, Mul(x + m.lb[d], m.dist[d - 1]), Mul(y + m.lb[d], m.dist[d - 1]));
    }
  }

  lemma {:induction false} FirstMove(a: Matrix, b: Matrix, se: nat, d: nat, aloc: nat, bloc: nat)
    requires Alike(a, b) && d < |a.lb|
    ensures var ms := Moves(a, b, se, d, aloc, bloc);
            && |ms| > 0 && ms[0].dst == Mul(Down(a, d, aloc), se)
            && (d < 9 ==> ms[0].src == Mul(Down(b, d, bloc), se))
            && ms[0].num == Mul(a.ub[0] - a.lb[0] + 1, se)
  {
    hide Mul;
    if d > 0 {
      FirstMove(a, b, se, d - 1, Mul(aloc + a.lb[d], a.dist[d - 1]),
                Mul(bloc + (if d == 9 then a.lb[9] else b.lb[d]), b.dist[d - 1]));
    }
  }

  /** Moves other than the first write behind the first row. */
  lemma {:induction false} OtherMoves(a: Matrix, b: Matrix, se: nat, d: nat, aloc: nat, bloc: nat, i: nat)
    requires Alike(a, b) && Sided(a) && d < |a.lb| && 0 < i < |Moves(a, b, se, d, aloc, bloc)|
    ensures Moves(a, b, se, d, aloc, bloc)[i].dst >= Mul(Down(a, d, aloc) + a.dist[0], se)
    decreases d, 1, 0
  {
    hide Mul, MovesFrom;
    if d > 0 {
      MovesTurn(a, b, se, d, aloc, bloc, 0);
      var bu := bloc + if d == 9 then a.lb[9] else b.lb[d];
      var al, bl := Mul(aloc + a.lb[d], a.dist[d - 1]), Mul(bu, b.dist[d - 1]);
      var first := Moves(a, b, se, d - 1, al, bl);
      if i < |first| {
        OtherMoves(a, b, se, d - 1, al, bl, i);
      } else {
        LaterTurns(a, b, se, d, aloc, bloc, 1, i - |first|);
      }
    }
  }

  lemma {:induction false} LaterTurns(a: Matrix, b: Matrix, se: nat, d: nat, aloc: nat, bloc: nat, k: nat, i: nat)
    requires Alike(a, b) && Sided(a) && 0 < d < |a.lb| && k > 0 && i < |MovesFrom(a, b, se, d, aloc, bloc, k)|
    ensures MovesFrom(a, b, se, d, aloc, bloc, k)[i].dst >= Mul(Down(a, d, aloc) + a.dist[0], se)
    decreases d, 0, a.ub[d] + 1 - a.lb[d] - k
  {
    hide Mul, Moves, MovesFrom;
    MovesTurn(a, b, se, d, aloc, bloc, k);
    var bu := bloc + (if d == 9 then a.lb[9] else b.lb[d]) + k;
    var al, bl := Mul(aloc + a.lb[d] + k, a.dist[d - 1]), Mul(bu, b.dist[d - 1]);
    var turn := Moves(a, b, se, d - 1, al, bl);
    MulStep(aloc + a.lb[d], aloc + a.lb[d] + k, a.dist[d - 1]);
    DownMono(a, d - 1, Mul(aloc + a.lb[d], a.dist[d - 1]), al);
    FirstMove(a, b, se, d - 1, al, bl);
    MulLe(Down(a, d, aloc) + a.dist[0], Down(a, d - 1, al), se);
    if 0 < i < |turn| {
      OtherMoves(a, b, se, d - 1, al, bl, i);
      MulLe(Down(a, d, aloc) + a.dist[0], Down(a, d - 1, al) + a.dist[0], se);
    } else if i >= |turn| {
      LaterTurns(a, b, se, d, aloc, bloc, k + 1, i - |turn|);
    }
  }

  lemma {:induction false} MulLe(x: nat, y: nat, n: nat)
    requires x <= y
    ensures Mul(x, n) <= Mul(y, n)
  {
    hide Mul;
    if x < y { MulStep(x, y, n); }
  }

  lemma {:induction false} DownOff(box: Box, com: Box, d: nat)
    requires NonEmpty(com) && NonEmpty(box) && Includes(box, com) && InBox(com.lb, box) && d < |box.lb|
    ensures Down(Desc(box, com), d, Mul(OffFrom(box, com.lb, d + 1), box.ub[d] - box.lb[d] + 1)) == Off(box, com.lb)
  {
    hide Mul, OffFrom;
    OffFromStep(box, com.lb, d);
    if d > 0 { DownOff(box, com, d - 1); }
  }

  lemma {:induction false} DownTop(box: Box, com: Box)
    requires NonEmpty(com) && NonEmpty(box) && Includes(box, com) && |box.lb| > 0
    ensures InBox(com.lb, box) && Down(Desc(box, com), |box.lb| - 1, 0) == Off(box, com.lb)
  {
    hide Mul, OffFrom, Down, Off;
    var n := |box.lb|;
    assert InBox(com.lb, box);
    OffFromStep(box, com.lb, n);
    MulSmall(box.ub[n - 1] - box.lb[n - 1] + 1);
    DownOff(box, com, n - 1);
  }

  /** The moves stay in both buffers and every buffer ends up as it should. */
  ghost predicate CopiesRight(ms: seq<Move>, to: Box, from: Box, se: nat)
    requires NonEmpty(to) && NonEmpty(from) && se > 0
  {
    && AllFit(ms, Mul(Volume(to), se), Mul(Volume(from), se))
    && forall A: seq<byte>, B: seq<byte> {:trigger Apply(ms, A, B)} :: IsBuffer(A, to, se) && IsBuffer(B, from, se) ==>
         Apply(ms, A, B) == Copied(to, A, from, B, se)
  }

  /** With ten dimensions whose last lower bounds differ, the first row is read from the
      wrong place, and no other move writes where it goes. */
  lemma {:induction false} TenthDimension(to: Box, from: Box, se: nat)
    requires NonEmpty(to) && NonEmpty(from) && Meets(to, from) && |to.lb| == 10 && to.lb[9] != from.lb[9] && se > 0
    ensures var c, ms := Common(to, from).lb, AllMoves(to, from, se);
            && InBox(c, to) && InBox(c, from)
            && |ms| > 0 && ms[0].dst == Mul(Off(to, c), se) && ms[0].num > 0 && ms[0].src != Mul(Off(from, c), se)
            && forall i :: 0 < i < |ms| ==> ms[i].dst > Mul(Off(to, c), se)
  {
    hide Mul, OffFrom, Off, Down, Common, Moves, MovesFrom;
    PairCommon(to, from);
    var com := Common(to, from);
    var a, b := Desc(to, com), Desc(from, com);
    DownTop(to, com);
    DownTop(from, com);
    assert Sided(a) && Sided(b);
    FirstMove(a, b, se, 9, 0, 0);
    FirstSource(a, b, se);
    DownStep(b, 9, 0);
    WrongPlace(a, b, se);
    MulStep(0, a.ub[0] - a.lb[0] + 1, se);
    var ms := AllMoves(to, from, se);
    forall i | 0 < i < |ms| ensures ms[i].dst > Mul(Off(to, com.lb), se) {
      OtherMoves(a, b, se, 9, 0, 0, i);
      MulStep(Off(to, com.lb), Off(to, com.lb) + a.dist[0], se);
    }
  }

  lemma DownStep(m: Matrix, d: nat, loc: nat)
    requires 0 < d < |m.lb| == |m.dist|
    ensures Down(m, d, loc) == Down(m, d - 1, Mul(loc + m.lb[d], m.dist[d - 1]))
  {}

  lemma {:induction false} FirstSource(a: Matrix, b: Matrix, se: nat)
    requires Alike(a, b) && |a.lb| == 10
    ensures var ms := Moves(a, b, se, 9, 0, 0); |ms| > 0 && ms[0].src == Mul(Down(b, 8, Mul(a.lb[9], b.dist[8])), se)
  {
    hide Mul, Down, MovesFrom;
    MovesTurn(a, b, se, 9, 0, 0, 0);
    FirstMove(a, b, se, 8, Mul(a.lb[9], a.dist[8]), Mul(a.lb[9], b.dist[8]));
  }

  lemma {:induction false} WrongPlace(a: Matrix, b: Matrix, se: nat)
    requires |a.lb| == |b.lb| == 10 && Sided(b) && a.lb[9] != b.lb[9] && se > 0
    ensures Mul(Down(b, 8, Mul(a.lb[9], b.dist[8])), se) != Mul(Down(b, 8, Mul(b.lb[9], b.dist[8])), se)
  {
    hide Mul, Down;
    var p, q := if a.lb[9] < b.lb[9] then a.lb[9] else b.lb[9], if a.lb[9] < b.lb[9] then b.lb[9] else a.lb[9];
    var x, y := Mul(p, b.dist[8]), Mul(q, b.dist[8]);
    MulStep(p, q, b.dist[8]);
    DownMono(b, 8, x, y);
    MulStep(Down(b, 8, x), Down(b, 8, y), se);
  }

  /** With ten dimensions the copy is right exactly if the last lower bounds agree. */
  lemma {:induction false} TenthExact(to: Box, from: Box, se: nat)
    requires NonEmpty(to) && NonEmpty(from) && Meets(to, from) && |to.lb| == 10 && se > 0
    ensures CopiesRight(AllMoves(to, from, se), to, from, se) <==> to.lb[9] == from.lb[9]
  {
    hide Mul, Apply, Copied, AllFit, Moves, Off;
    var ms := AllMoves(to, from, se);
    if to.lb[9] == from.lb[9] {
      AllMovesFit(to, from, se);
      forall A: seq<byte>, B: seq<byte> {:trigger Apply(ms, A, B)} | IsBuffer(A, to, se) && IsBuffer(B, from, se)
        ensures Apply(ms, A, B) == Copied(to, A, from, B, se)
      {
        MovesCorrect(to, A, from, B, se);
      }
    } else if AllFit(ms, Mul(Volume(to), se), Mul(Volume(from), se)) {
      TenthWrong(to, from, se);
    }
  }

  /** The witness: a source that is 1 at the byte that should be read first, 0 elsewhere. */
  lemma {:induction false} TenthWrong(to: Box, from: Box, se: nat)
    requires NonEmpty(to) && NonEmpty(from) && Meets(to, from) && |to.lb| == 10 && to.lb[9] != from.lb[9] && se > 0
    requires AllFit(AllMoves(to, from, se), Mul(Volume(to), se), Mul(Volume(from), se))
    ensures exists A: seq<byte>, B: seq<byte> {:trigger Apply(AllMoves(to, from, se), A, B)} ::
              IsBuffer(A, to, se) && IsBuffer(B, from, se)
              && Apply(AllMoves(to, from, se), A, B) != Copied(to, A, from, B, se)
  {
    hide Mul, Apply, AllFit, Moves, Off, Quo, Rem, StoredCell, Common, AllMoves;
    TenthDimension(to, from, se);
    var c, ms := Common(to, from).lb, AllMoves(to, from, se);
    var right, x := Mul(Off(from, c), se), Mul(Off(to, c), se);
    ByteBound(to, se, c);
    ByteBound(from, se, c);
    var A: seq<byte> := seq(Mul(Volume(to), se), _ => 0);
    var B: seq<byte> := seq(Mul(Volume(from), se), i => if i == right then 1 else 0);
    FitAt(ms, |A|, |B|, 0);
    assert Hits(ms[0], x);
    ApplyAt(ms, A, B, x, 0);
    QuoRemOf(Off(to, c), 0, se);
    CellAfterOff(to, c);
    assert Copied(to, A, from, B, se)[x] == CopiedByte(to, A, from, B, se, x) == 1;
  }
}
