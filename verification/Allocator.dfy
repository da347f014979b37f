/** The DIMES buffer allocator (src/dimes_data.c: dimes_buf_insert_block,
    dimes_buf_insert_block_to_freelist, dimes_buffer_init, dimes_buffer_alloc,
    dimes_buffer_free): best fit with coalescing, for blocks of positive size. */
module Allocator {

  /** struct dimes_buf_block */
  datatype Block = Block(ptr: nat, size: nat)

  function End(b: Block): nat { b.ptr + b.size }

  predicate Has(b: Block, x: nat) { b.ptr <= x < End(b) }

  /** The buffer and the blocks on the two lists. */
  datatype Buf = Buf(base: nat, size: nat, free: set<Block>, used: set<Block>)

  function All(s: Buf): set<Block> { s.free + s.used }

  predicate Inside(s: Buf) {
    && s.free !! s.used
    && forall b :: b in All(s) ==> b.size > 0 && s.base <= b.ptr && End(b) <= s.base + s.size
  }

  predicate Apart(s: Buf) {
    forall b, c :: b in All(s) && c in All(s) && b != c ==> End(b) <= c.ptr || End(c) <= b.ptr
  }

  ghost predicate Taken(s: Buf, x: nat) {
    exists b :: b in All(s) && Has(b, x)
  }

  ghost predicate Covers(s: Buf) {
    forall x: nat :: s.base <= x < s.base + s.size ==> Taken(s, x)
  }

  predicate NoneAdjacent(s: Buf) {
    forall b, c :: b in s.free && c in s.free ==> End(b) != c.ptr
  }

  /** The blocks tile the buffer and no two free ones are next to each other. */
  ghost predicate Inv(s: Buf) {
    s.base > 0 && s.size > 0 && Inside(s) && Apart(s) && Covers(s) && NoneAdjacent(s)
  }

  // ---- allocation

  /** b is a smallest free block that is large enough. */
  predicate BestFit(s: Buf, size: nat, b: Block) {
    b in s.free && b.size >= size && forall c :: c in s.free && c.size >= size ==> b.size <= c.size
  }

  function Rest(b: Block, size: nat): set<Block> {
    if b.size > size then {Block(b.ptr + size, b.size - size)} else {}
  }

  function Split(s: Buf, b: Block, size: nat): Buf {
    s.(free := s.free - {b} + Rest(b, size), used := s.used + {Block(b.ptr, size)})
  }

  /** dimes_buffer_alloc: NULL is 0. */
  ghost predicate AllocStep(s: Buf, size: nat, p: nat, s': Buf) {
    if p == 0 then s' == s && forall b :: b in s.free ==> b.size < size
    else exists b :: BestFit(s, size, b) && p == b.ptr && s' == Split(s, b, size)
  }

  lemma ApartAt(s: Buf, b: Block, c: Block)
    requires Inv(s) && b in All(s) && c in All(s) && b != c
    ensures End(b) <= c.ptr || End(c) <= b.ptr
  {}

  lemma InsideAt(s: Buf, b: Block)
    requires Inv(s) && b in All(s)
    ensures b.size > 0 && s.base <= b.ptr && End(b) <= s.base + s.size && !(b in s.free && b in s.used)
  {}

  lemma {:induction false} SplitKeeps(s: Buf, b: Block, size: nat)
    requires Inv(s) && b in s.free && b.size >= size > 0
    ensures Inv(Split(s, b, size))
  {
    SplitInside(s, b, size);
    SplitApart(s, b, size);
    SplitCovers(s, b, size);
    SplitNoneAdjacent(s, b, size);
  }

  lemma {:induction false} SplitInside(s: Buf, b: Block, size: nat)
    requires Inv(s) && b in s.free && b.size >= size > 0
    ensures Inside(Split(s, b, size))
  {
    hide Inv;
    var s', u := Split(s, b, size), Block(b.ptr, size);
    InsideAt(s, b);
    forall c | c in All(s') ensures c.size > 0 && s.base <= c.ptr && End(c) <= s.base + s.size {
      if c in All(s) { InsideAt(s, c); }
    }
    forall c | c in s'.free ensures c !in s'.used {
      if c in s.free && c != b {
        InsideAt(s, c);
        ApartAt(s, b, c);
      } else if c in s.used {
        InsideAt(s, c);
        ApartAt(s, b, c);
      }
    }
  }

  lemma {:induction false} SplitApart(s: Buf, b: Block, size: nat)
    requires Inv(s) && b in s.free && b.size >= size > 0
    ensures Apart(Split(s, b, size))
  {
    hide Inv;
    var s' := Split(s, b, size);
    InsideAt(s, b);
    forall c, d | c in All(s') && d in All(s') && c != d ensures End(c) <= d.ptr || End(d) <= c.ptr {
      if c in All(s) && c != b { ApartAt(s, b, c); }
      if d in All(s) && d != b { ApartAt(s, b, d); }
      if c in All(s) && d in All(s) { ApartAt(s, c, d); }
    }
  }

  lemma {:induction false} SplitCovers(s: Buf, b: Block, size: nat)
    requires Inv(s) && b in s.free && b.size >= size > 0
    ensures Covers(Split(s, b, size))
  {
    hide Inside, Apart, NoneAdjacent;
    var s' := Split(s, b, size);
    forall x: nat | s.base <= x < s.base + s.size ensures Taken(s', x) {
      assert Taken(s, x);
      var c :| c in All(s) && Has(c, x);
      if c != b { assert c in All(s') && Has(c, x); }
      else if x < b.ptr + size { assert Block(b.ptr, size) in All(s') && Has(Block(b.ptr, size), x); }
      else { assert Block(b.ptr + size, b.size - size) in All(s') && Has(Block(b.ptr + size, b.size - size), x); }
    }
  }

  lemma {:induction false} SplitNoneAdjacent(s: Buf, b: Block, size: nat)
    requires Inv(s) && b in s.free && b.size >= size > 0
    ensures NoneAdjacent(Split(s, b, size))
  {
    hide Inside, Apart, Covers;
    var s' := Split(s, b, size);
    forall f, g | f in s'.free && g in s'.free ensures End(f) != g.ptr {
      if f in s.free && f != b { ApartAt(s, b, f); InsideAt(s, f); }
    }
  }

  // ---- release

  datatype MaybeBlock = None | Some(b: Block)

  /** f is the free block that ends where b starts, if any; g the one that starts where b
      ends. */
  predicate Before(s: Buf, b: Block, f: MaybeBlock) {
    if f.Some? then f.b in s.free && End(f.b) == b.ptr else forall c :: c in s.free ==> End(c) != b.ptr
  }

  predicate After(s: Buf, b: Block, g: MaybeBlock) {
    if g.Some? then g.b in s.free && g.b.ptr == End(b) else forall c :: c in s.free ==> c.ptr != End(b)
  }

  function SizeOf(m: MaybeBlock): nat { if m.Some? then m.b.size else 0 }

  function SetOf(m: MaybeBlock): set<Block> { if m.Some? then {m.b} else {} }

  function Grown(b: Block, f: MaybeBlock, g: MaybeBlock): Block {
    Block(if f.Some? then f.b.ptr else b.ptr, b.size + SizeOf(g) + SizeOf(f))
  }

  function Merge(s: Buf, b: Block, f: MaybeBlock, g: MaybeBlock): Buf {
    s.(free := s.free - SetOf(g) - SetOf(f) + {Grown(b, f, g)}, used := s.used - {b})
  }

  /** dimes_buffer_free: anything but the start of a used block changes nothing. */
  ghost predicate FreeStep(s: Buf, p: nat, s': Buf) {
    || (s' == s && forall b :: b in s.used ==> b.ptr != p)
    || (exists b, f, g :: b in s.used && b.ptr == p && Before(s, b, f) && After(s, b, g) && s' == Merge(s, b, f, g))
  }

  lemma {:induction false} MergeParts(s: Buf, b: Block, f: MaybeBlock, g: MaybeBlock, x: nat)
    requires Before(s, b, f) && After(s, b, g)
    ensures Has(Grown(b, f, g), x) <==> Has(b, x) || (f.Some? && Has(f.b, x)) || (g.Some? && Has(g.b, x))
  {}

  lemma {:induction false} MergeKeeps(s: Buf, b: Block, f: MaybeBlock, g: MaybeBlock)
    requires Inv(s) && b in s.used && Before(s, b, f) && After(s, b, g)
    ensures Inv(Merge(s, b, f, g))
  {
    hide Inside, Apart, Covers, NoneAdjacent;
    MergeInside(s, b, f, g);
    MergeApart(s, b, f, g);
    MergeCovers(s, b, f, g);
    MergeNoneAdjacent(s, b, f, g);
  }

  lemma {:induction false} MergeCovers(s: Buf, b: Block, f: MaybeBlock, g: MaybeBlock)
    requires Inv(s) && b in s.used && Before(s, b, f) && After(s, b, g)
    ensures Covers(Merge(s, b, f, g))
  {
    hide Inside, Apart, NoneAdjacent, Has, Grown;
    var s', m := Merge(s, b, f, g), Grown(b, f, g);
    forall x: nat | s.base <= x < s.base + s.size ensures Taken(s', x) {
      assert Taken(s, x);
      var c :| c in All(s) && Has(c, x);
      MergeParts(s, b, f, g, x);
      if Has(m, x) { assert m in All(s'); } else { assert c in All(s'); }
    }
  }

  /** The blocks that remain are apart from the merged one. */
  lemma {:induction false} ApartFromMerged(s: Buf, b: Block, f: MaybeBlock, g: MaybeBlock, c: Block)
    requires Inv(s) && b in s.used && Before(s, b, f) && After(s, b, g)
    requires c in All(s) && c != b && c !in SetOf(f) && c !in SetOf(g)
    ensures End(c) <= Grown(b, f, g).ptr || End(Grown(b, f, g)) <= c.ptr
    ensures c != Grown(b, f, g)
  {
    hide Inv;
    InsideAt(s, c);
    ApartAt(s, c, b);
    if f.Some? { ApartAt(s, c, f.b); InsideAt(s, f.b); }
    if g.Some? { ApartAt(s, c, g.b); InsideAt(s, g.b); }
    InsideAt(s, b);
  }

  /** What is left after a merge. */
  lemma MergeMembers(s: Buf, b: Block, f: MaybeBlock, g: MaybeBlock, c: Block)
    requires Inv(s) && b in s.used && Before(s, b, f) && After(s, b, g) && c in All(Merge(s, b, f, g))
    ensures c == Grown(b, f, g) || (c in All(s) && c != b && c !in SetOf(f) && c !in SetOf(g))
  {
    hide Inv, Grown;
    InsideAt(s, b);
    if f.Some? { InsideAt(s, f.b); }
    if g.Some? { InsideAt(s, g.b); }
  }

  lemma {:induction false} MergeInside(s: Buf, b: Block, f: MaybeBlock, g: MaybeBlock)
    requires Inv(s) && b in s.used && Before(s, b, f) && After(s, b, g)
    ensures Inside(Merge(s, b, f, g))
  {
    hide Inv;
    var s', m := Merge(s, b, f, g), Grown(b, f, g);
    InsideAt(s, b);
    if f.Some? { InsideAt(s, f.b); }
    if g.Some? { InsideAt(s, g.b); }
    forall c | c in All(s')
      ensures c.size > 0 && s.base <= c.ptr && End(c) <= s.base + s.size && !(c in s'.free && c in s'.used)
    {
      MergeMembers(s, b, f, g, c);
      if c in All(s) && c != b && c !in SetOf(f) && c !in SetOf(g) {
        InsideAt(s, c);
        ApartFromMerged(s, b, f, g, c);
      }
    }
  }

  lemma {:induction false} MergeApart(s: Buf, b: Block, f: MaybeBlock, g: MaybeBlock)
    requires Inv(s) && b in s.used && Before(s, b, f) && After(s, b, g)
    ensures Apart(Merge(s, b, f, g))
  {
    hide Inv, Grown, Before, After;
    var s' := Merge(s, b, f, g);
    forall c, d | c in All(s') && d in All(s') && c != d ensures End(c) <= d.ptr || End(d) <= c.ptr {
      MergeMembers(s, b, f, g, c);
      MergeMembers(s, b, f, g, d);
      if c == Grown(b, f, g) { ApartFromMerged(s, b, f, g, d); }
      else if d == Grown(b, f, g) { ApartFromMerged(s, b, f, g, c); }
      else { ApartAt(s, c, d); }
    }
  }

  lemma {:induction false} MergeNoneAdjacent(s: Buf, b: Block, f: MaybeBlock, g: MaybeBlock)
    requires Inv(s) && b in s.used && Before(s, b, f) && After(s, b, g)
    ensures NoneAdjacent(Merge(s, b, f, g))
  {
    hide Inside, Apart, Covers;
    var s', m := Merge(s, b, f, g), Grown(b, f, g);
    InsideAt(s, b);
    forall c, d | c in s'.free && d in s'.free ensures End(c) != d.ptr {
      if c != m { assert c in s.free; }
      if d != m { assert d in s.free; }
    }
  }

  // ---- everything released

  /** With nothing in use there is one free block: the whole buffer. */
  lemma {:induction false} AllReleased(s: Buf)
    requires Inv(s) && s.used == {}
    ensures s.free == {Block(s.base, s.size)}
  {
    hide Inside, Apart;
    assert Taken(s, s.base);
    var b :| b in All(s) && Has(b, s.base);
    InsideAt(s, b);
    if End(b) < s.base + s.size {
      assert Taken(s, End(b));
      var c :| c in All(s) && Has(c, End(b));
      ApartAt(s, b, c);
    }
    assert b == Block(s.base, s.size);
    forall c | c in s.free ensures c == b {
      InsideAt(s, c);
      if c != b { ApartAt(s, b, c); }
    }
  }

  // ---- whole runs

  ghost predicate Next(s: Buf, s': Buf) {
    || (exists size: nat, p :: size > 0 && AllocStep(s, size, p, s'))
    || (exists p :: FreeStep(s, p, s'))
  }

  function Init(base: nat, size: nat): Buf {
    Buf(base, size, {Block(base, size)}, {})
  }

  ghost predicate IsRun(run: seq<Buf>, base: nat, size: nat) {
    run != [] && run[0] == Init(base, size) && forall t :: 0 <= t < |run| - 1 ==> Next(run[t], run[t + 1])
  }

  lemma {:induction false} StepKeeps(s: Buf, s': Buf)
    requires Inv(s) && Next(s, s')
    ensures Inv(s') && s'.base == s.base && s'.size == s.size
  {
    hide Inv;
    if size: nat, p :| size > 0 && AllocStep(s, size, p, s') {
      if p != 0 {
        var b :| BestFit(s, size, b) && p == b.ptr && s' == Split(s, b, size);
        SplitKeeps(s, b, size);
      }
    } else {
      var p :| FreeStep(s, p, s');
      if b, f, g :| b in s.used && b.ptr == p && Before(s, b, f) && After(s, b, g) && s' == Merge(s, b, f, g) {
        MergeKeeps(s, b, f, g);
      }
    }
  }

  /** After any sequence of allocations and releases the blocks tile the buffer, no two free
      ones are adjacent, and if nothing is in use the whole buffer is one free block. */
  lemma {:induction false} RunSafe(run: seq<Buf>, base: nat, size: nat, t: nat)
    requires IsRun(run, base, size) && base > 0 && size > 0 && t < |run|
    ensures Inv(run[t]) && (run[t].used == {} ==> run[t] == Init(base, size))
    ensures run[t].base == base && run[t].size == size
  {
    hide Inv, Next;
    if t == 0 {
      InitInv(base, size);
    } else {
      RunSafe(run, base, size, t - 1);
      assert Next(run[t - 1], run[t - 1 + 1]);
      StepKeeps(run[t - 1], run[t]);
    }
    if run[t].used == {} { AllReleased(run[t]); }
  }

  lemma InitInv(base: nat, size: nat)
    requires base > 0 && size > 0
    ensures Inv(Init(base, size))
  {
    var s := Init(base, size);
    forall x: nat | s.base <= x < s.base + s.size ensures Taken(s, x) {
      assert Block(base, size) in All(s) && Has(Block(base, size), x);
    }
  }

  // ---- the lists

  predicate Sorted(l: seq<Block>) {
    forall i, j :: 0 <= i < j < |l| ==> l[i].size <= l[j].size
  }

  predicate Distinct(l: seq<Block>) {
    forall i, j :: 0 <= i < j < |l| ==> l[i] != l[j]
  }

  function Elements(l: seq<Block>): set<Block> {
    set b | b in l
  }

  /** dimes_buf_insert_block */
  method InsertBlock(b: Block, l: seq<Block>) returns (r: seq<Block>)
    requires Sorted(l) && Distinct(l) && b !in l
    ensures Sorted(r) && Distinct(r) && Elements(r) == Elements(l) + {b}
    ensures exists i :: 0 <= i <= |l| && r == Inserted(b, l, i) && forall j :: 0 <= j < i ==> l[j].size < b.size
  {
    var i := 0;
    while i < |l| && b.size > l[i].size
      invariant 0 <= i <= |l| && forall j :: 0 <= j < i ==> l[j].size < b.size
    {
      i := i + 1;
    }
    r := Inserted(b, l, i);
    InsertAt(b, l, i);
  }

  function Inserted(b: Block, l: seq<Block>, i: nat): (r: seq<Block>)
    requires i <= |l|
    ensures |r| == |l| + 1
  {
    l[..i] + [b] + l[i..]
  }

  lemma InsertedAt(b: Block, l: seq<Block>, i: nat, j: nat)
    requires i <= |l| && j <= |l|
    ensures Inserted(b, l, i)[j] == if j < i then l[j] else if j == i then b else l[j - 1]
  {}

  lemma {:induction false} InsertAt(b: Block, l: seq<Block>, i: nat)
    requires Sorted(l) && Distinct(l) && b !in l && i <= |l|
    requires (forall j :: 0 <= j < i ==> l[j].size <= b.size) && (i < |l| ==> b.size <= l[i].size)
    ensures var r := Inserted(b, l, i); Sorted(r) && Distinct(r) && Elements(r) == Elements(l) + {b}
  {
    hide Inserted, Sorted, Distinct;
    InsertOrder(b, l, i);
    forall c ensures c in Inserted(b, l, i) <==> c == b || c in l { InsertMember(b, l, i, c); }
  }

  lemma {:induction false} InsertOrder(b: Block, l: seq<Block>, i: nat)
    requires Sorted(l) && Distinct(l) && b !in l && i <= |l|
    requires (forall j :: 0 <= j < i ==> l[j].size <= b.size) && (i < |l| ==> b.size <= l[i].size)
    ensures Sorted(Inserted(b, l, i)) && Distinct(Inserted(b, l, i))
  {
    hide Inserted;
    var r := Inserted(b, l, i);
    forall j, k | 0 <= j < k < |r| ensures r[j].size <= r[k].size && r[j] != r[k] {
      InsertedAt(b, l, i, j);
      InsertedAt(b, l, i, k);
    }
  }

  lemma {:induction false} InsertMember(b: Block, l: seq<Block>, i: nat, c: Block)
    requires i <= |l|
    ensures c in Inserted(b, l, i) <==> c == b || c in l
  {
    hide Inserted;
    var r := Inserted(b, l, i);
    InsertedAt(b, l, i, i);
    if c in r {
      var j :| 0 <= j < |r| && r[j] == c;
      InsertedAt(b, l, i, j);
    }
    if c in l {
      var j :| 0 <= j < |l| && l[j] == c;
      InsertedAt(b, l, i, if j < i then j else j + 1);
    }
  }

  function Without(l: seq<Block>, i: nat): (r: seq<Block>)
    requires i < |l|
    ensures |r| == |l| - 1 && forall j :: 0 <= j < |r| ==> r[j] == l[if j < i then j else j + 1]
  {
    l[..i] + l[i + 1..]
  }

  /** list_del */
  lemma {:induction false} RemoveAt(l: seq<Block>, i: nat)
    requires Sorted(l) && Distinct(l) && i < |l|
    ensures var r := Without(l, i); Sorted(r) && Distinct(r) && Elements(r) == Elements(l) - {l[i]}
  {
    hide Without;
    var r := Without(l, i);
    forall c ensures c in r <==> c in l && c != l[i] {
      RemoveMember(l, i, c);
    }
  }

  lemma {:induction false} RemoveMember(l: seq<Block>, i: nat, c: Block)
    requires Distinct(l) && i < |l|
    ensures c in Without(l, i) <==> c in l && c != l[i]
  {
    hide Without;
    var r := Without(l, i);
    if c in r {
      var j :| 0 <= j < |r| && r[j] == c;
      var k := if j < i then j else j + 1;
      assert l[k] == c;
    }
    if c in l && c != l[i] {
      var j :| 0 <= j < |l| && l[j] == c;
      assert r[if j < i then j else j - 1] == c;
    }
  }

  /** The first block of the list that is large enough. */
  predicate FirstFit(l: seq<Block>, bytes: nat, i: nat) {
    i < |l| && l[i].size >= bytes && forall j :: 0 <= j < i ==> l[j].size < bytes
  }

  /** The block at a position of a list; none at -1. */
  function AtIndex(l: seq<Block>, i: int): MaybeBlock
    requires -1 <= i < |l|
  {
    if i < 0 then None else Some(l[i])
  }

  /** The search of dimes_buf_insert_block_to_freelist: the last block that ends where the
      new one starts, and the last that starts where it ends. */
  method FindNeighbours(l: seq<Block>, block: Block) returns (before: int, after: int)
    ensures -1 <= before < |l| && -1 <= after < |l|
    ensures if before >= 0 then End(l[before]) == block.ptr else forall j :: 0 <= j < |l| ==> End(l[j]) != block.ptr
    ensures if after >= 0 then l[after].ptr == End(block) else forall j :: 0 <= j < |l| ==> l[j].ptr != End(block)
  {
    before, after := -1, -1;
    var i := 0;
    while i < |l|
      invariant 0 <= i <= |l| && -1 <= before < i && -1 <= after < i
      invariant if before >= 0 then End(l[before]) == block.ptr else forall j :: 0 <= j < i ==> End(l[j]) != block.ptr
      invariant if after >= 0 then l[after].ptr == End(block) else forall j :: 0 <= j < i ==> l[j].ptr != End(block)
    {
      if block.ptr == End(l[i]) { before := i; }
      if l[i].ptr == End(block) { after := i; }
      i := i + 1;
    }
  }

  lemma {:induction false} NeighboursFound(s: Buf, l: seq<Block>, block: Block, before: int, after: int)
    requires s.free == Elements(l) && -1 <= before < |l| && -1 <= after < |l|
    requires if before >= 0 then End(l[before]) == block.ptr else forall j :: 0 <= j < |l| ==> End(l[j]) != block.ptr
    requires if after >= 0 then l[after].ptr == End(block) else forall j :: 0 <= j < |l| ==> l[j].ptr != End(block)
    ensures Before(s, block, AtIndex(l, before)) && After(s, block, AtIndex(l, after))
  {
    forall c | c in s.free ensures (before < 0 ==> End(c) != block.ptr) && (after < 0 ==> c.ptr != End(block)) {
      var j :| 0 <= j < |l| && l[j] == c;
    }
  }

  lemma NeighboursApart(l: seq<Block>, before: int, after: int)
    requires -1 <= before < |l| && -1 <= after < |l|
    requires AtIndex(l, before).Some? && AtIndex(l, after).Some? ==> AtIndex(l, before) != AtIndex(l, after)
    ensures before >= 0 ==> before != after
  {}

  /** Merging with both neighbours and removing them from the list. */
  method TakeOut(l: seq<Block>, block: Block, before: int, after: int) returns (r: seq<Block>, b: Block)
    requires Sorted(l) && Distinct(l) && -1 <= before < |l| && -1 <= after < |l| && (before >= 0 ==> before != after)
    ensures Sorted(r) && Distinct(r)
    ensures Elements(r) == Elements(l) - SetOf(AtIndex(l, after)) - SetOf(AtIndex(l, before))
    ensures b == Grown(block, AtIndex(l, before), AtIndex(l, after))
  {
    hide Sorted, Distinct, Elements, Without;
    r, b := l, block;
    var k := before;
    if after >= 0 {
      b := Block(b.ptr, b.size + l[after].size);
      RemoveAt(l, after);
      r := Without(l, after);
      if before > after { k := before - 1; }
    }
    assert k >= 0 ==> r[k] == l[before];
    if k >= 0 {
      b := Block(r[k].ptr, b.size + r[k].size);
      RemoveAt(r, k);
      r := Without(r, k);
    }
  }

  lemma FreshIn(l: seq<Block>, b: Block, s: set<Block>)
    requires Elements(l) == s && b !in s
    ensures b !in l
  {}

  class DimesBuffer {
    var base: nat
    var size: nat
    var freeBlocks: seq<Block>
    var usedBlocks: seq<Block>

    function View(): Buf
      reads this
    {
      Buf(base, size, Elements(freeBlocks), Elements(usedBlocks))
    }

    /** The lists are sorted by size and hold no block twice. */
    ghost predicate Valid()
      reads this
    {
      Inv(View()) && Sorted(freeBlocks) && Distinct(freeBlocks) && Sorted(usedBlocks) && Distinct(usedBlocks)
    }

    /** dimes_buffer_init, for a buffer that exists. */
    constructor (baseAddr: nat, bytes: nat)
      requires baseAddr > 0 && bytes > 0
      ensures Valid() && View() == Init(baseAddr, bytes)
    {
      base, size := baseAddr, bytes;
      usedBlocks := [];
      freeBlocks := [Block(baseAddr, bytes)];
      new;
      assert View() == Init(baseAddr, bytes);
      InitInv(baseAddr, bytes);
    }

    /** dimes_buffer_alloc */
    method Alloc(bytes: nat) returns (ptr: nat)
      requires Valid() && bytes > 0
      modifies this
      ensures Valid() && AllocStep(old(View()), bytes, ptr, View())
      ensures ptr != 0 ==> exists i: nat :: FirstFit(old(freeBlocks), bytes, i) && old(freeBlocks)[i].ptr == ptr
      ensures ptr == 0 <==> forall b :: b in old(View()).free ==> b.size < bytes
      ensures ptr != 0 ==> View().used == old(View()).used + {Block(ptr, bytes)} && Block(ptr, bytes) !in old(View()).used
      ensures ptr != 0 ==> forall u, x :: u in old(View()).used && Has(u, x) ==> !Has(Block(ptr, bytes), x)
    {
      hide Inv, Sorted, Distinct;
      ghost var s := View();
      if bytes > size {
        TooLarge(s, bytes);
        return 0;
      }
      var i := 0;
      while i < |freeBlocks| && freeBlocks[i].size < bytes
        invariant 0 <= i <= |freeBlocks| && forall j :: 0 <= j < i ==> freeBlocks[j].size < bytes
      {
        i := i + 1;
      }
      if i == |freeBlocks| { return 0; }
      var mb := freeBlocks[i];
      assert FirstFit(freeBlocks, bytes, i);
      FirstIsBest(s, freeBlocks, i, bytes);
      RemoveAt(freeBlocks, i);
      SplitKeeps(s, mb, bytes);
      SplitFresh(s, mb, bytes);
      OthersApart(s, mb, bytes);
      freeBlocks := Without(freeBlocks, i);
      if mb.size > bytes {
        freeBlocks := InsertBlock(Block(mb.ptr + bytes, mb.size - bytes), freeBlocks);
      }
      usedBlocks := InsertBlock(Block(mb.ptr, bytes), usedBlocks);
      ptr := mb.ptr;
      assert View() == Split(s, mb, bytes);
    }

    /** dimes_buf_insert_block_to_freelist */
    method InsertToFreeList(block: Block, ghost s: Buf)
      requires Sorted(freeBlocks) && Distinct(freeBlocks)
      requires Inv(s) && block in s.used && Elements(freeBlocks) == s.free
      modifies this`freeBlocks
      ensures Sorted(freeBlocks) && Distinct(freeBlocks)
      ensures exists f, g :: Before(s, block, f) && After(s, block, g)
                             && Elements(freeBlocks) == s.free - SetOf(g) - SetOf(f) + {Grown(block, f, g)}
    {
      hide *;
      var before, after := FindNeighbours(freeBlocks, block);
      ghost var f, g := AtIndex(freeBlocks, before), AtIndex(freeBlocks, after);
      NeighboursFound(s, freeBlocks, block, before, after);
      GrownFresh(s, block, f, g);
      NeighboursApart(freeBlocks, before, after);
      var rest, b := TakeOut(freeBlocks, block, before, after);
      FreshIn(rest, b, s.free - SetOf(g) - SetOf(f));
      freeBlocks := InsertBlock(b, rest);
    }

    /** dimes_buffer_free */
    method Free(ptr: nat)
      requires Valid()
      modifies this
      ensures Valid() && FreeStep(old(View()), ptr, View())
    {
      hide Inv, Sorted, Distinct;
      ghost var s := View();
      if ptr == 0 || ptr < base || ptr > base + size - 1 {
        OutOfRange(s, ptr);
        return;
      }
      var i := 0;
      while i < |usedBlocks| && usedBlocks[i].ptr != ptr
        invariant 0 <= i <= |usedBlocks| && forall j :: 0 <= j < i ==> usedBlocks[j].ptr != ptr
      {
        i := i + 1;
      }
      if i == |usedBlocks| { return; }
      var mb := usedBlocks[i];
      RemoveAt(usedBlocks, i);
      usedBlocks := Without(usedBlocks, i);
      InsertToFreeList(mb, s);
      ghost var f, g :| Before(s, mb, f) && After(s, mb, g)
                        && Elements(freeBlocks) == s.free - SetOf(g) - SetOf(f) + {Grown(mb, f, g)};
      assert View() == Merge(s, mb, f, g);
      MergeKeeps(s, mb, f, g);
    }
  }

  lemma OutOfRange(s: Buf, ptr: nat)
    requires Inv(s) && (ptr == 0 || ptr < s.base || ptr > s.base + s.size - 1)
    ensures forall b :: b in s.used ==> b.ptr != ptr
  {}

  /** What a used block grows to is not on the free list yet. */
  lemma {:induction false} GrownFresh(s: Buf, b: Block, f: MaybeBlock, g: MaybeBlock)
    requires Inv(s) && b in s.used && Before(s, b, f) && After(s, b, g)
    ensures Grown(b, f, g) !in s.free - SetOf(g) - SetOf(f)
    ensures f.Some? && g.Some? ==> f != g
  {
    hide Inv;
    InsideAt(s, b);
    if Grown(b, f, g) in s.free - SetOf(g) - SetOf(f) { ApartFromMerged(s, b, f, g, Grown(b, f, g)); }
  }

  lemma TooLarge(s: Buf, bytes: nat)
    requires Inv(s) && bytes > s.size
    ensures forall b :: b in s.free ==> b.size < bytes
  {}

  /** The first block of a sorted list that is large enough is a best fit. */
  lemma {:induction false} FirstIsBest(s: Buf, l: seq<Block>, i: nat, bytes: nat)
    requires Inv(s) && s.free == Elements(l) && Sorted(l) && i < |l| && l[i].size >= bytes
    requires forall j :: 0 <= j < i ==> l[j].size < bytes
    ensures BestFit(s, bytes, l[i]) && l[i].ptr != 0
  {
    InsideAt(s, l[i]);
    forall c | c in s.free && c.size >= bytes ensures l[i].size <= c.size {
      var j :| 0 <= j < |l| && l[j] == c;
    }
  }

  /** No used block shares a byte with what is allocated. */
  lemma {:induction false} OthersApart(s: Buf, b: Block, size: nat)
    requires Inv(s) && b in s.free && b.size >= size
    ensures forall u, x :: u in s.used && Has(u, x) ==> !Has(Block(b.ptr, size), x)
  {
    hide Inv;
    forall u, x | u in s.used && Has(u, x) ensures !Has(Block(b.ptr, size), x) {
      InsideAt(s, u);
      InsideAt(s, b);
      ApartAt(s, b, u);
    }
  }

  /** Releasing what was just allocated restores the buffer. */
  lemma {:induction false} AllocFree(s: Buf, size: nat, p: nat, s': Buf, s'': Buf)
    requires Inv(s) && size > 0 && p != 0 && AllocStep(s, size, p, s') && FreeStep(s', p, s'')
    ensures s'' == s
  {
    hide Inv;
    var b :| BestFit(s, size, b) && p == b.ptr && s' == Split(s, b, size);
    SplitKeeps(s, b, size);
    SplitFresh(s, b, size);
    var u := Block(p, size);
    assert u in s'.used && u.ptr == p;
    var c, f, g :| c in s'.used && c.ptr == p && Before(s', c, f) && After(s', c, g) && s'' == Merge(s', c, f, g);
    InsideAt(s', u);
    InsideAt(s', c);
    if c != u { ApartAt(s', u, c); }
    NoBefore(s, b, size, f);
    OnlyRest(s, b, size, g);
    if b.size > size { assert g == Some(Block(b.ptr + size, b.size - size)); } else { assert g == None; }
    assert Grown(u, f, g) == b;
    assert s''.free == s.free;
    assert s''.used == s.used;
  }

  lemma {:induction false} NoBefore(s: Buf, b: Block, size: nat, f: MaybeBlock)
    requires Inv(s) && b in s.free && b.size >= size > 0 && Before(Split(s, b, size), Block(b.ptr, size), f)
    ensures f == None
  {
    hide Inside, Apart, Covers;
  }

  lemma {:induction false} OnlyRest(s: Buf, b: Block, size: nat, g: MaybeBlock)
    requires Inv(s) && b in s.free && b.size >= size > 0 && After(Split(s, b, size), Block(b.ptr, size), g)
    ensures g == if b.size > size then Some(Block(b.ptr + size, b.size - size)) else None
  {
    hide Inside, Apart, Covers;
    var s' := Split(s, b, size);
    if b.size > size { assert Block(b.ptr + size, b.size - size) in s'.free; }
    if g.Some? && g.b in s.free && g.b != b {
      InsideAt(s, g.b);
      ApartAt(s, b, g.b);
    }
  }

  /** The two halves of a split block are not on the lists yet. */
  lemma {:induction false} SplitFresh(s: Buf, b: Block, size: nat)
    requires Inv(s) && b in s.free && b.size >= size > 0
    ensures Block(b.ptr, size) !in s.used && Rest(b, size) !! s.free
  {
    hide Inv;
    var u := Block(b.ptr, size);
    if u in s.used { InsideAt(s, u); InsideAt(s, b); if u != b { ApartAt(s, b, u); } }
    forall c | c in Rest(b, size) ensures c !in s.free {
      if c in s.free { ApartAt(s, b, c); }
    }
  }
}
