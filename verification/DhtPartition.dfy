/** Dealing the curve intervals of the global domain out to the servers
    (src/ss_data.c, dht_construct_hash). */
module DhtPartition {
  import opened Words
  import opened Intervals

  // ---- a table as the list of its indices

  function Range(v: Intv): (r: seq<nat>)
    requires v.lb <= v.ub
    ensures |r| == v.ub - v.lb + 1
    ensures forall i :: 0 <= i < |r| ==> r[i] == v.lb + i
  {
    seq(v.ub - v.lb + 1, i requires 0 <= i => v.lb + i)
  }

  /** All indices of a table, in table order. */
  function Flat(tab: seq<Intv>): seq<nat>
    requires Proper(tab)
  {
    if tab == [] then [] else Range(tab[0]) + Flat(tab[1..])
  }

  lemma {:induction false} FlatConcat(a: seq<Intv>, b: seq<Intv>)
    requires Proper(a) && Proper(b)
    ensures Proper(a + b) && Flat(a + b) == Flat(a) + Flat(b)
  {
    if a == [] {
      assert a + b == b;
    } else {
      assert (a + b)[1..] == a[1..] + b;
      FlatConcat(a[1..], b);
    }
  }

  lemma {:induction false} FlatSome(tab: seq<Intv>)
    requires Proper(tab)
    ensures |Flat(tab)| > 0 <==> tab != []
  {}

  /** An index is listed exactly when some interval has it. */
  lemma {:induction false} FlatHas(tab: seq<Intv>, x: nat)
    requires Proper(tab)
    ensures x in Flat(tab) <==> exists i :: 0 <= i < |tab| && Has(tab[i], x)
  {
    if tab != [] {
      FlatHas(tab[1..], x);
      var v, rest := tab[0], tab[1..];
      if Has(v, x) { assert Range(v)[x - v.lb] == x; }
      if i :| 0 <= i < |tab| && Has(tab[i], x) {
        assert i > 0 ==> Has(rest[i - 1], x);
      }
      if x in Flat(rest) {
        var i :| 0 <= i < |rest| && Has(rest[i], x);
        assert Has(tab[i + 1], x);
      }
    }
  }

  predicate Increasing(s: seq<nat>) {
    forall i, j :: 0 <= i < j < |s| ==> s[i] < s[j]
  }

  /** The indices of a table in order and without overlap come in increasing order. */
  lemma {:induction false} FlatIncreasing(tab: seq<Intv>)
    requires Proper(tab) && Ordered(tab)
    ensures Increasing(Flat(tab))
  {
    if tab != [] {
      FlatIncreasing(tab[1..]);
      var a, b := Range(tab[0]), Flat(tab[1..]);
      forall j | 0 <= j < |b| ensures tab[0].ub < b[j] {
        assert b[j] in b;
        FlatHas(tab[1..], b[j]);
        var i :| 0 <= i < |tab[1..]| && Has(tab[1..][i], b[j]);
        assert tab[0].ub < tab[i + 1].lb;
      }
    }
  }

  // ---- the deal

  /** A server's share: its intervals and their hull. */
  datatype Entry = Entry(rank: nat, itab: seq<Intv>, virt: Intv)

  /** Server i holds the i-th slice of sn indices. */
  ghost predicate HoldsSlice(e: Entry, i: nat, flat: seq<nat>, sn: nat) {
    && e.rank == i && Proper(e.itab) && e.itab != []
    && e.virt == Intv(e.itab[0].lb, e.itab[|e.itab| - 1].ub)
    && Mul(i, sn) + sn <= |flat|
    && Flat(e.itab) == flat[Mul(i, sn)..Mul(i, sn) + sn]
  }

  /** One entry of dht_construct_hash: `while (len > 0)` takes intervals, or the front of
      one, until the entry has sn indices. */
  method FillEntry(tab: array<Intv>, j0: nat, sn: nat, i: nat, ghost flat: seq<nat>) returns (e: Entry, j: nat)
    requires j0 <= tab.Length && sn > 0
    requires Proper(tab[j0..])
    requires Mul(i, sn) + sn <= |flat| && Flat(tab[j0..]) == flat[Mul(i, sn)..]
    modifies tab
    ensures j0 <= j <= tab.Length && Proper(tab[j..])
    ensures HoldsSlice(e, i, flat, sn) && |e.itab| <= tab.Length
    ensures Flat(tab[j..]) == flat[Mul(i, sn) + sn..]
  {
    hide *;
    var len := sn;
    var itab: seq<Intv> := [];
    j := j0;
    ghost var start := Mul(i, sn);
    FlatNone();
    while len > 0
      invariant 0 <= len <= sn && j0 <= j <= tab.Length
      invariant Proper(tab[j..]) && Proper(itab)
      invariant Flat(itab) == flat[start..start + (sn - len)]
      invariant Flat(tab[j..]) == flat[start + (sn - len)..]
      invariant |itab| == j - j0 || (len == 0 && |itab| == j - j0 + 1 && j < tab.Length)
      decreases len
    {
      ghost var pos := start + (sn - len);
      FlatSome(tab[j..]);
      ghost var rest := tab[j..];
      var v := tab[j];
      FlatHead(rest);
      var got: Intv;
      if v.ub - v.lb + 1 > len {
        got := Intv(v.lb, v.lb + len - 1);
        tab[j] := Intv(v.lb + len, v.ub);
        TakeFront(rest, len);
        assert tab[j..] == [Intv(v.lb + len, v.ub)] + rest[1..];
      } else {
        got := v;
        j := j + 1;
        assert tab[j..] == rest[1..];
      }
      var size := got.ub - got.lb + 1;
      FlatMore(itab, got);
      len := len - size;
      TakeSlices(flat, start, pos, pos + size, Range(got), Flat(tab[j..]));
      itab := itab + [got];
    }
    FlatSome(itab);
    e := Entry(i, itab, Intv(itab[0].lb, itab[|itab| - 1].ub));
    HoldsIntro(e, i, flat, sn);
  }

  lemma FlatNone()
    ensures Proper([]) && Flat([]) == []
  {}

  lemma FlatHead(tab: seq<Intv>)
    requires Proper(tab) && tab != []
    ensures tab[0].lb <= tab[0].ub && Proper(tab[1..]) && Flat(tab) == Range(tab[0]) + Flat(tab[1..])
  {}

  lemma {:induction false} FlatMore(tab: seq<Intv>, v: Intv)
    requires Proper(tab) && v.lb <= v.ub
    ensures Proper(tab + [v]) && Flat(tab + [v]) == Flat(tab) + Range(v)
  {
    FlatConcat(tab, [v]);
    assert Flat([v]) == Range(v) + Flat([]);
  }

  /** Taking len indices off the front of the first interval. */
  lemma {:induction false} TakeFront(tab: seq<Intv>, len: nat)
    requires Proper(tab) && tab != [] && 0 < len < tab[0].ub - tab[0].lb + 1
    ensures var v := tab[0]; var w := Intv(v.lb + len, v.ub);
            Proper([w] + tab[1..]) && v.lb <= v.lb + len - 1
            && Flat(tab) == Range(Intv(v.lb, v.lb + len - 1)) + Flat([w] + tab[1..])
  {
    hide Flat, Range;
    var v := tab[0];
    var w := Intv(v.lb + len, v.ub);
    var tab' := [w] + tab[1..];
    assert Proper(tab') && tab'[1..] == tab[1..];
    FlatHead(tab);
    FlatHead(tab');
    RangeSplit(v, len);
    var a, b, c := Range(Intv(v.lb, v.lb + len - 1)), Range(w), Flat(tab[1..]);
    assert (a + b) + c == a + (b + c);
  }

  lemma RangeSplit(v: Intv, len: nat)
    requires 0 < len < v.ub - v.lb + 1
    ensures Range(v) == Range(Intv(v.lb, v.lb + len - 1)) + Range(Intv(v.lb + len, v.ub))
  {}

  lemma TakeSlices(flat: seq<nat>, a: nat, b: nat, c: nat, got: seq<nat>, rest: seq<nat>)
    requires a <= b <= c <= |flat| && |got| == c - b && flat[b..] == got + rest
    ensures flat[a..c] == flat[a..b] + got && flat[c..] == rest
  {
    assert flat[b..][..c - b] == flat[b..c];
    assert flat[b..][c - b..] == flat[c..];
  }

  lemma HoldsIntro(e: Entry, i: nat, flat: seq<nat>, sn: nat)
    requires e.rank == i && Proper(e.itab) && e.itab != []
    requires e.virt == Intv(e.itab[0].lb, e.itab[|e.itab| - 1].ub)
    requires Mul(i, sn) + sn <= |flat| && Flat(e.itab) == flat[Mul(i, sn)..Mul(i, sn) + sn]
    ensures HoldsSlice(e, i, flat, sn)
  {}

  /** dht_construct_hash: every server gets floor(volume / servers) consecutive indices
      of the domain's ordered list. */
  method ConstructHash(itab: seq<Intv>, volume: nat, numEntries: nat) returns (ents: seq<Entry>)
    requires Proper(itab) && |Flat(itab)| == volume && 0 < numEntries <= volume
    ensures |ents| == numEntries
    ensures forall i :: 0 <= i < numEntries ==>
              HoldsSlice(ents[i], i, Flat(itab), volume / numEntries) && |ents[i].itab| <= |itab|
  {
    hide *;
    var sn := volume / numEntries;
    ShareBound(volume, numEntries);
    var tab := new Intv[|itab|](i requires 0 <= i < |itab| => itab[i]);
    ghost var flat := Flat(itab);
    assert tab[..] == itab && tab[0..] == tab[..];
    ents := [];
    var i, j := 0, 0;
    MulSmall(sn);
    while i < numEntries
      invariant 0 <= i <= numEntries == numEntries && |ents| == i
      invariant 0 <= j <= tab.Length == |itab| && Proper(tab[j..]) && Mul(i, sn) <= |flat|
      invariant Flat(tab[j..]) == flat[Mul(i, sn)..]
      invariant forall a :: 0 <= a < i ==> HoldsSlice(ents[a], a, flat, sn) && |ents[a].itab| <= |itab|
    {
      MulStep(i, numEntries, sn);
      var e;
      e, j := FillEntry(tab, j, sn, i, flat);
      ents := ents + [e];
      MulAdd(i, 1, sn);
      i := i + 1;
    }
  }

  lemma {:induction false} ShareBound(volume: nat, n: nat)
    requires 0 < n <= volume
    ensures volume / n > 0
    ensures Mul(n, volume / n) + volume % n == volume && volume % n < n
  {
    MulIsProduct(n, volume / n);
  }

  predicate Owns(e: Entry, x: nat) {
    Proper(e.itab) && x in Flat(e.itab)
  }

  /** All servers hold their slices. */
  ghost predicate Dealt(ents: seq<Entry>, flat: seq<nat>, sn: nat) {
    forall i :: 0 <= i < |ents| ==> HoldsSlice(ents[i], i, flat, sn)
  }

  /** Together the shares are the lowest n * sn indices ... */
  lemma {:induction false} SharesCover(ents: seq<Entry>, flat: seq<nat>, sn: nat, x: nat)
    requires sn > 0 && Dealt(ents, flat, sn) && Mul(|ents|, sn) <= |flat|
    ensures (exists i :: 0 <= i < |ents| && Owns(ents[i], x)) <==> x in flat[..Mul(|ents|, sn)]
  {
    hide Mul, Quo, Rem, Owns, HoldsSlice;
    var n := |ents|;
    if i :| 0 <= i < n && Owns(ents[i], x) {
      assert HoldsSlice(ents[i], i, flat, sn);
      var a := SlicePlace(ents[i], i, flat, sn, x);
      MulStep(i, n, sn);
      assert flat[..Mul(n, sn)][a] == x;
    }
    if x in flat[..Mul(n, sn)] {
      var a: nat :| a < Mul(n, sn) && flat[a] == x;
      QuoRem(a, sn);
      QuoBound(a, sn, n);
      var i := Quo(a, sn);
      assert HoldsSlice(ents[i], i, flat, sn);
      SliceOwns(ents[i], i, flat, sn, Rem(a, sn));
    }
  }

  /** ... each held by one server only ... */
  lemma {:induction false} SharesDisjoint(ents: seq<Entry>, flat: seq<nat>, sn: nat, x: nat, i: nat, j: nat)
    requires Dealt(ents, flat, sn) && Increasing(flat) && i < |ents| && j < |ents|
    requires Owns(ents[i], x) && Owns(ents[j], x)
    ensures i == j
  {
    hide Mul, Owns, HoldsSlice;
    assert HoldsSlice(ents[i], i, flat, sn) && HoldsSlice(ents[j], j, flat, sn);
    var a := SlicePlace(ents[i], i, flat, sn, x);
    var b := SlicePlace(ents[j], j, flat, sn, x);
    if i < j { MulStep(i, j, sn); } else if j < i { MulStep(j, i, sn); }
  }

  /** ... and exactly the volume mod n highest indices have no server. */
  lemma {:induction false} Leftover(ents: seq<Entry>, flat: seq<nat>)
    requires 0 < |ents| <= |flat| && Increasing(flat) && Dealt(ents, flat, |flat| / |ents|)
    ensures Mul(|ents|, |flat| / |ents|) <= |flat|
    ensures var rest := flat[Mul(|ents|, |flat| / |ents|)..];
            |rest| == |flat| % |ents| && forall i, r :: 0 <= i < |ents| && 0 <= r < |rest| ==> !Owns(ents[i], rest[r])
  {
    hide Mul, Owns, Dealt;
    var n, sn := |ents|, |flat| / |ents|;
    ShareBound(|flat|, n);
    var taken, rest := flat[..Mul(n, sn)], flat[Mul(n, sn)..];
    forall i, r | 0 <= i < n && 0 <= r < |rest| ensures !Owns(ents[i], rest[r]) {
      SharesCover(ents, flat, sn, rest[r]);
      forall a | 0 <= a < |taken| ensures taken[a] != rest[r] { assert flat[a] < flat[Mul(n, sn) + r]; }
    }
  }

  lemma {:induction false} SlicePlace(e: Entry, i: nat, flat: seq<nat>, sn: nat, x: nat) returns (a: nat)
    requires HoldsSlice(e, i, flat, sn) && Owns(e, x)
    ensures Mul(i, sn) <= a < Mul(i, sn) + sn <= |flat| && flat[a] == x
  {
    hide Mul, Flat;
    var s := flat[Mul(i, sn)..Mul(i, sn) + sn];
    var b: nat :| b < |s| && s[b] == x;
    a := Mul(i, sn) + b;
  }

  lemma {:induction false} SliceOwns(e: Entry, i: nat, flat: seq<nat>, sn: nat, r: nat)
    requires HoldsSlice(e, i, flat, sn) && r < sn
    ensures Mul(i, sn) + r < |flat| && Owns(e, flat[Mul(i, sn) + r])
  {
    hide Mul, Flat;
    assert flat[Mul(i, sn)..Mul(i, sn) + sn][r] == flat[Mul(i, sn) + r];
  }
}
