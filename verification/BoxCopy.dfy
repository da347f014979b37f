/** Strided copying between the buffers of two boxes (src/ss_data.c: matrix_init,
    matrix_copy, ssd_copy, ssd_copy_list; the nested loops of src/dimes_client.c:
    matrix_rdma_copy are the same and schedule reads instead of copying). */
module BoxCopy {
  import opened Words
  import opened HilbertCube
  import opened Bbox
  import opened BoxOffset

  newtype byte = x: int | 0 <= x < 256

  /** struct matrix_desc: the sides of the stored box and, relative to its lower corner,
      the bounds of the part to copy. */
  datatype Matrix = Matrix(dist: seq<nat>, lb: seq<nat>, ub: seq<nat>)

  /** The copying of num bytes at src to dst. */
  datatype Move = Move(src: nat, dst: nat, num: nat)

  function Desc(glb: Box, loc: Box): (m: Matrix)
    requires NonEmpty(loc) && Includes(glb, loc)
    ensures |m.dist| == |m.lb| == |m.ub| == |glb.lb|
  {
    var n := |glb.lb|;
    Matrix(seq(n, i requires 0 <= i < n => glb.ub[i] - glb.lb[i] + 1),
           seq(n, i requires 0 <= i < n => loc.lb[i] - glb.lb[i]),
           seq(n, i requires 0 <= i < n => loc.ub[i] - glb.lb[i]))
  }

  /** matrix_init / matrix_init_d */
  method MatrixInit(glb: Box, loc: Box) returns (m: Matrix)
    requires NonEmpty(loc) && Includes(glb, loc)
    ensures m == Desc(glb, loc)
  {
    var dist: seq<nat>, lb: seq<nat>, ub: seq<nat> := [], [], [];
    var i := 0;
    while i < |glb.lb|
      invariant 0 <= i <= |glb.lb| && |dist| == |lb| == |ub| == i
      invariant dist == Desc(glb, loc).dist[..i] && lb == Desc(glb, loc).lb[..i] && ub == Desc(glb, loc).ub[..i]
    {
      dist := dist + [glb.ub[i] - glb.lb[i] + 1];
      lb := lb + [loc.lb[i] - glb.lb[i]];
      ub := ub + [loc.ub[i] - glb.lb[i]];
      i := i + 1;
    }
    m := Matrix(dist, lb, ub);
  }

  predicate Alike(a: Matrix, b: Matrix) {
    && 1 <= |a.dist| == |a.lb| == |a.ub| == |b.dist| == |b.lb|
    && forall i :: 0 <= i < |a.lb| ==> a.lb[i] <= a.ub[i]
  }

  // ---- the nested loops

  /** The moves of the loop over dimension d and those inside it; in the tenth dimension
      the code takes the destination's coordinate for the source. */
  function Moves(a: Matrix, b: Matrix, se: nat, d: nat, aloc: nat, bloc: nat): seq<Move>
    requires Alike(a, b) && d < |a.lb|
    decreases d, 1, 0
  {
    if d == 0 then
      [Move(Mul(bloc + b.lb[0], se), Mul(aloc + a.lb[0], se), Mul(a.ub[0] - a.lb[0] + 1, se))]
    else MovesFrom(a, b, se, d, aloc, bloc, 0)
  }

  /** ... from the k-th turn on. */
  function MovesFrom(a: Matrix, b: Matrix, se: nat, d: nat, aloc: nat, bloc: nat, k: nat): seq<Move>
    requires Alike(a, b) && 0 < d < |a.lb|
    decreases d, 0, a.ub[d] + 1 - a.lb[d] - k
  {
    if a.lb[d] + k > a.ub[d] then [] else
    Moves(a, b, se, d - 1, Mul(aloc + a.lb[d] + k, a.dist[d - 1]),
          Mul(bloc + (if d == 9 then a.lb[9] else b.lb[d]) + k, b.dist[d - 1]))
    + MovesFrom(a, b, se, d, aloc, bloc, k + 1)
  }

  /** One turn of the loop, seen from MovesFrom. */
  lemma MovesTurn(a: Matrix, b: Matrix, se: nat, d: nat, aloc: nat, bloc: nat, k: nat)
    requires Alike(a, b) && 0 < d < |a.lb|
    ensures a.lb[d] + k > a.ub[d] ==> MovesFrom(a, b, se, d, aloc, bloc, k) == []
    ensures a.lb[d] + k <= a.ub[d] ==>
              MovesFrom(a, b, se, d, aloc, bloc, k) ==
              Moves(a, b, se, d - 1, Mul(aloc + a.lb[d] + k, a.dist[d - 1]),
                    Mul(bloc + (if d == 9 then a.lb[9] else b.lb[d]) + k, b.dist[d - 1]))
              + MovesFrom(a, b, se, d, aloc, bloc, k + 1)
  {}

  /** Doing the moves in order. */
  function Apply(ms: seq<Move>, A: seq<byte>, B: seq<byte>): (r: seq<byte>)
    ensures |r| == |A|
    decreases |ms|
  {
    if ms == [] then A else Apply(ms[1..], Moved(ms[0], A, B), B)
  }

  /** memcpy */
  function Moved(m: Move, A: seq<byte>, B: seq<byte>): (r: seq<byte>)
    ensures |r| == |A|
  {
    seq(|A|, x requires 0 <= x < |A| =>
      if m.dst <= x < m.dst + m.num && m.src + x - m.dst < |B| then B[m.src + x - m.dst] else A[x])
  }

  predicate Fits(m: Move, A: nat, B: nat) {
    m.dst + m.num <= A && m.src + m.num <= B
  }

  predicate AllFit(ms: seq<Move>, A: nat, B: nat) {
    forall i :: 0 <= i < |ms| ==> Fits(ms[i], A, B)
  }

  // ---- which moves they are

  /** Two stored boxes that meet.  With ten dimensions the last lower bounds must agree. */
  predicate Pair(to: Box, from: Box) {
    && NonEmpty(to) && NonEmpty(from) && Meets(to, from) && 1 <= |to.lb| <= 10
    && (|to.lb| == 10 ==> to.lb[9] == from.lb[9])
  }

  lemma PairCommon(to: Box, from: Box)
    requires NonEmpty(to) && NonEmpty(from) && Meets(to, from) && |to.lb| >= 1
    ensures var com := Common(to, from);
            NonEmpty(com) && Includes(to, com) && Includes(from, com) && Alike(Desc(to, com), Desc(from, com))
  {
    var com := Common(to, from);
    forall d | 0 <= d < |com.lb| ensures com.lb[d] <= com.ub[d] { assert MeetOn(to, from, d); }
  }

  /** Cell c starts a row of the common box. */
  predicate Starts(to: Box, from: Box, c: Cell)
    requires IsBox(to, |to.lb|) && IsBox(from, |to.lb|)
  {
    |c| > 0 && InBox(c, Common(to, from)) && c[0] == Common(to, from).lb[0]
  }

  lemma StartsIn(to: Box, from: Box, c: Cell)
    requires IsBox(to, |to.lb|) && IsBox(from, |to.lb|) && Starts(to, from, c)
    ensures InBox(c, to) && InBox(c, from)
  {
    CommonCells(to, from, c);
  }

  /** The move of the row that starts at c. */
  function MoveAt(to: Box, from: Box, se: nat, c: Cell): Move
    requires IsBox(to, |to.lb|) && IsBox(from, |to.lb|) && Starts(to, from, c)
  {
    StartsIn(to, from, c);
    Move(Mul(Off(from, c), se), Mul(Off(to, c), se), Mul(Common(to, from).ub[0] - Common(to, from).lb[0] + 1, se))
  }

  /** aloc and bloc are what the loops outside d have computed for cell c. */
  predicate Reached(to: Box, from: Box, c: Cell, d: nat, aloc: nat, bloc: nat)
    requires IsBox(to, |to.lb|) && IsBox(from, |to.lb|) && Starts(to, from, c) && d < |c|
  {
    StartsIn(to, from, c);
    && aloc == Mul(OffFrom(to, c, d + 1), to.ub[d] - to.lb[d] + 1)
    && bloc == Mul(OffFrom(from, c, d + 1), from.ub[d] - from.lb[d] + 1)
  }

  lemma ReachedTop(to: Box, from: Box, c: Cell)
    requires Pair(to, from) && Starts(to, from, c)
    ensures Reached(to, from, c, |c| - 1, 0, 0)
  {
    StartsIn(to, from, c);
  }

  /** One turn of the loop over dimension d > 0. */
  lemma {:induction false} ReachedTurn(to: Box, from: Box, c: Cell, d: nat, aloc: nat, bloc: nat, k: nat)
    requires Pair(to, from) && Starts(to, from, c) && 0 < d < |c| && Reached(to, from, c, d, aloc, bloc)
    requires Common(to, from).lb[d] + k <= Common(to, from).ub[d]
    ensures var com := Common(to, from);
            NonEmpty(com) && Includes(to, com) && Includes(from, com) &&
            var a, b, c' := Desc(to, com), Desc(from, com), c[d := com.lb[d] + k];
            Starts(to, from, c') && c'[d + 1..] == c[d + 1..] &&
            Reached(to, from, c', d - 1, Mul(aloc + a.lb[d] + k, a.dist[d - 1]),
                    Mul(bloc + (if d == 9 then a.lb[9] else b.lb[d]) + k, b.dist[d - 1]))
  {
    hide Mul, OffFrom;
    PairCommon(to, from);
    var com := Common(to, from);
    var c' := c[d := com.lb[d] + k];
    assert c'[d + 1..] == c[d + 1..];
    StartsIn(to, from, c);
    StartsIn(to, from, c');
    OffFromSame(to, c, c', d + 1);
    OffFromSame(from, c, c', d + 1);
    OffFromStep(to, c', d);
    OffFromStep(from, c', d);
  }

  lemma {:induction false} LastMove(to: Box, from: Box, se: nat, c: Cell, aloc: nat, bloc: nat)
    requires Pair(to, from) && Starts(to, from, c) && Reached(to, from, c, 0, aloc, bloc)
    ensures var com := Common(to, from);
            NonEmpty(com) && Includes(to, com) && Includes(from, com) &&
            Moves(Desc(to, com), Desc(from, com), se, 0, aloc, bloc) == [MoveAt(to, from, se, c)]
  {
    hide Mul, OffFrom;
    PairCommon(to, from);
    StartsIn(to, from, c);
    OffFromStep(to, c, 0);
    OffFromStep(from, c, 0);
  }

  /** Every move of the loops is that of some row ... */
  lemma {:induction false} MovesSound(to: Box, from: Box, se: nat, d: nat, aloc: nat, bloc: nat, c: Cell, m: Move)
    returns (r: Cell)
    requires Pair(to, from) && Starts(to, from, c) && d < |c| && Reached(to, from, c, d, aloc, bloc)
    requires var com := Common(to, from);
             NonEmpty(com) && Includes(to, com) && Includes(from, com) &&
             m in Moves(Desc(to, com), Desc(from, com), se, d, aloc, bloc)
    ensures Starts(to, from, r) && m == MoveAt(to, from, se, r)
    decreases d, 1, 0
  {
    hide Mul, OffFrom, MovesFrom, Reached, MoveAt, Starts, Common, Pair, Desc;
    if d == 0 {
      LastMove(to, from, se, c, aloc, bloc);
      r := c;
    } else {
      r := MovesFromSound(to, from, se, d, aloc, bloc, 0, c, m);
    }
  }

  lemma {:induction false} MovesFromSound(to: Box, from: Box, se: nat, d: nat, aloc: nat, bloc: nat, k: nat, c: Cell, m: Move)
    returns (r: Cell)
    requires Pair(to, from) && Starts(to, from, c) && 0 < d < |c| && Reached(to, from, c, d, aloc, bloc)
    requires var com := Common(to, from);
             NonEmpty(com) && Includes(to, com) && Includes(from, com) &&
             m in MovesFrom(Desc(to, com), Desc(from, com), se, d, aloc, bloc, k)
    ensures Starts(to, from, r) && m == MoveAt(to, from, se, r)
    decreases d, 0, Common(to, from).ub[d] + 1 - Common(to, from).lb[d] - k
  {
    hide Mul, OffFrom, Moves, MovesFrom, Reached, MoveAt, Common;
    var com := Common(to, from);
    var a, b := Desc(to, com), Desc(from, com);
    MovesTurn(a, b, se, d, aloc, bloc, k);
    ReachedTurn(to, from, c, d, aloc, bloc, k);
    var al, bl := Mul(aloc + a.lb[d] + k, a.dist[d - 1]), Mul(bloc + (if d == 9 then a.lb[9] else b.lb[d]) + k, b.dist[d - 1]);
    if m in Moves(a, b, se, d - 1, al, bl) {
      r := MovesSound(to, from, se, d - 1, al, bl, c[d := com.lb[d] + k], m);
    } else {
      r := MovesFromSound(to, from, se, d, aloc, bloc, k + 1, c, m);
    }
  }

  /** ... and every row has its move. */
  lemma {:induction false} MovesComplete(to: Box, from: Box, se: nat, d: nat, aloc: nat, bloc: nat, c: Cell, r: Cell)
    requires Pair(to, from) && Starts(to, from, c) && d < |c| && Reached(to, from, c, d, aloc, bloc)
    requires Starts(to, from, r) && |r| == |c| && r[d + 1..] == c[d + 1..]
    ensures var com := Common(to, from);
            NonEmpty(com) && Includes(to, com) && Includes(from, com) &&
            MoveAt(to, from, se, r) in Moves(Desc(to, com), Desc(from, com), se, d, aloc, bloc)
    decreases d, 1, 0
  {
    hide Mul, OffFrom, MovesFrom, Reached, MoveAt, Common, Pair, Desc;
    if d == 0 {
      LastMove(to, from, se, c, aloc, bloc);
      assert r == [r[0]] + r[1..] && c == [c[0]] + c[1..];
    } else {
      PairCommon(to, from) by { PairParts(to, from); }
      MovesFromComplete(to, from, se, d, aloc, bloc, 0, c, r);
    }
  }

  lemma PairParts(to: Box, from: Box)
    requires Pair(to, from)
    ensures NonEmpty(to) && NonEmpty(from) && Meets(to, from) && |to.lb| >= 1
  {}

  lemma {:induction false} MovesFromComplete(to: Box, from: Box, se: nat, d: nat, aloc: nat, bloc: nat, k: nat, c: Cell, r: Cell)
    requires Pair(to, from) && Starts(to, from, c) && 0 < d < |c| && Reached(to, from, c, d, aloc, bloc)
    requires Starts(to, from, r) && |r| == |c| && r[d + 1..] == c[d + 1..] && Common(to, from).lb[d] + k <= r[d]
    ensures var com := Common(to, from);
            NonEmpty(com) && Includes(to, com) && Includes(from, com) &&
            MoveAt(to, from, se, r) in MovesFrom(Desc(to, com), Desc(from, com), se, d, aloc, bloc, k)
    decreases d, 0, Common(to, from).ub[d] + 1 - Common(to, from).lb[d] - k
  {
    hide Mul, OffFrom, Moves, MovesFrom, Reached, MoveAt, Common;
    var com := Common(to, from);
    ReachedTurn(to, from, c, d, aloc, bloc, k);
    var a, b := Desc(to, com), Desc(from, com);
    MovesTurn(a, b, se, d, aloc, bloc, k);
    var al, bl := Mul(aloc + a.lb[d] + k, a.dist[d - 1]), Mul(bloc + (if d == 9 then a.lb[9] else b.lb[d]) + k, b.dist[d - 1]);
    if r[d] == com.lb[d] + k {
      var c' := c[d := com.lb[d] + k];
      assert r[d..] == [r[d]] + r[d + 1..] && c'[d..] == [c'[d]] + c'[d + 1..];
      MovesComplete(to, from, se, d - 1, al, bl, c', r);
    } else {
      MovesFromComplete(to, from, se, d, aloc, bloc, k + 1, c, r);
    }
  }
}
