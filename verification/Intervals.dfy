/** One-dimensional index intervals (src/bbox.c): how often a table covers an index,
    sorting by lower bound, and merging neighbours in place. */
module Intervals {

  datatype Intv = Intv(lb: nat, ub: nat)

  predicate Has(v: Intv, x: nat) {
    v.lb <= x <= v.ub
  }

  /** The number of intervals of the table that contain x. */
  function Count(tab: seq<Intv>, x: nat): nat {
    if tab == [] then 0 else Count(tab[..|tab| - 1], x) + if Has(tab[|tab| - 1], x) then 1 else 0
  }

  lemma {:induction false} CountConcat(a: seq<Intv>, b: seq<Intv>, x: nat)
    ensures Count(a + b, x) == Count(a, x) + Count(b, x)
  {
    if b == [] {
      assert a + b == a;
    } else {
      assert (a + b)[..|a + b| - 1] == a + b[..|b| - 1];
      CountConcat(a, b[..|b| - 1], x);
    }
  }

  lemma {:induction false} CountHas(tab: seq<Intv>, x: nat)
    ensures Count(tab, x) > 0 <==> exists i :: 0 <= i < |tab| && Has(tab[i], x)
  {
    if tab != [] {
      var init := tab[..|tab| - 1];
      CountHas(init, x);
      if Count(tab, x) > 0 && !Has(tab[|tab| - 1], x) {
        var i :| 0 <= i < |init| && Has(init[i], x);
        assert Has(tab[i], x);
      }
      if i :| 0 <= i < |tab| && Has(tab[i], x) {
        assert i < |init| ==> Has(init[i], x);
      }
    }
  }

  /** Two intervals that both contain x count twice. */
  lemma {:induction false} CountTwo(tab: seq<Intv>, x: nat, i: nat, j: nat)
    requires i < j < |tab| && Has(tab[i], x) && Has(tab[j], x)
    ensures Count(tab, x) >= 2
  {
    CountConcat(tab[..j], tab[j..], x);
    assert tab == tab[..j] + tab[j..];
    CountHas(tab[..j], x);
    assert Has(tab[..j][i], x);
    CountHas(tab[j..], x);
    assert Has(tab[j..][0], x);
  }

  /** Exactly one interval contains x. */
  lemma {:induction false} CountOne(tab: seq<Intv>, x: nat, i: nat)
    requires i < |tab| && Has(tab[i], x)
    requires forall j :: 0 <= j < |tab| && j != i ==> !Has(tab[j], x)
    ensures Count(tab, x) == 1
  {
    var init := tab[..|tab| - 1];
    if i == |tab| - 1 {
      CountHas(init, x);
    } else {
      CountOne(init, x, i);
    }
  }

  // ---- tables in order

  predicate Proper(tab: seq<Intv>) {
    forall i :: 0 <= i < |tab| ==> tab[i].lb <= tab[i].ub
  }

  predicate Sorted(tab: seq<Intv>) {
    forall i, j :: 0 <= i < j < |tab| ==> tab[i].lb <= tab[j].lb
  }

  /** In order and disjoint. */
  predicate Ordered(tab: seq<Intv>) {
    forall i, j :: 0 <= i < j < |tab| ==> tab[i].ub < tab[j].lb
  }

  /** In order, disjoint, and with a gap between any two. */
  predicate Gapped(tab: seq<Intv>) {
    forall i, j :: 0 <= i < j < |tab| ==> tab[i].ub + 1 < tab[j].lb
  }

  /** A sorted table that covers no index twice is in order and disjoint. */
  lemma {:induction false} OnceIsOrdered(tab: seq<Intv>)
    requires Proper(tab) && Sorted(tab)
    requires forall x: nat :: Count(tab, x) <= 1
    ensures Ordered(tab)
  {
    forall i, j | 0 <= i < j < |tab| ensures tab[i].ub < tab[j].lb {
      var x := tab[j].lb;
      assert Count(tab, x) <= 1;
      if x <= tab[i].ub {
        CountTwo(tab, x, i, j);
      }
    }
  }

  lemma {:induction false} MultisetHead(a: seq<Intv>)
    requires a != []
    ensures multiset(a) == multiset{a[0]} + multiset(a[1..])
  {
    assert a == [a[0]] + a[1..];
  }

  lemma {:induction false} MultisetWithout(a: seq<Intv>, i: nat)
    requires i < |a|
    ensures multiset(a) == multiset{a[i]} + multiset(a[..i] + a[i + 1..])
  {
    assert a == a[..i] + [a[i]] + a[i + 1..];
  }

  lemma MultisetCancel(v: Intv, a: multiset<Intv>, b: multiset<Intv>)
    requires multiset{v} + a == multiset{v} + b
    ensures a == b
  {
    assert a == (multiset{v} + a) - multiset{v};
    assert b == (multiset{v} + b) - multiset{v};
  }

  /** Insertion by lower bound. */
  function Insert(v: Intv, tab: seq<Intv>): (r: seq<Intv>)
    ensures |r| == |tab| + 1
  {
    if tab == [] || v.lb <= tab[0].lb then [v] + tab else [tab[0]] + Insert(v, tab[1..])
  }

  lemma {:induction false} InsertPermutes(v: Intv, tab: seq<Intv>)
    ensures multiset(Insert(v, tab)) == multiset{v} + multiset(tab)
  {
    if tab == [] || v.lb <= tab[0].lb {
    } else {
      InsertPermutes(v, tab[1..]);
      MultisetHead(tab);
    }
  }

  lemma {:induction false} InsertSorts(v: Intv, tab: seq<Intv>)
    requires Sorted(tab)
    ensures Sorted(Insert(v, tab))
  {
    if tab == [] || v.lb <= tab[0].lb {
    } else {
      InsertSorts(v, tab[1..]);
      var rest := Insert(v, tab[1..]);
      InsertPermutes(v, tab[1..]);
      forall j | 0 <= j < |rest| ensures tab[0].lb <= rest[j].lb {
        assert rest[j] in multiset(rest);
        assert rest[j] == v || rest[j] in tab[1..];
      }
    }
  }

  /** The model of `qsort` with `intv_compar`. */
  function Sort(tab: seq<Intv>): (r: seq<Intv>)
    ensures |r| == |tab|
  {
    if tab == [] then [] else Insert(tab[0], Sort(tab[1..]))
  }

  lemma {:induction false} SortCorrect(tab: seq<Intv>)
    ensures multiset(Sort(tab)) == multiset(tab)
    ensures Sorted(Sort(tab))
  {
    if tab != [] {
      SortCorrect(tab[1..]);
      InsertPermutes(tab[0], Sort(tab[1..]));
      InsertSorts(tab[0], Sort(tab[1..]));
      MultisetHead(tab);
    }
  }

  /** With distinct lower bounds there is only one sorted order, so any sort agrees. */
  lemma {:induction false} SortDetermined(a: seq<Intv>, b: seq<Intv>)
    requires multiset(a) == multiset(b) && Sorted(a) && Sorted(b)
    requires forall i, j :: 0 <= i < j < |a| ==> a[i].lb != a[j].lb
    ensures a == b
  {
    SameSize(a, b);
    if a != [] {
      SameHead(a, b);
      MultisetHead(a);
      MultisetHead(b);
      MultisetCancel(a[0], multiset(a[1..]), multiset(b[1..]));
      SortDetermined(a[1..], b[1..]);
    }
  }

  lemma {:induction false} SameHead(a: seq<Intv>, b: seq<Intv>)
    requires a != [] && b != [] && multiset(a) == multiset(b) && Sorted(a) && Sorted(b)
    requires forall i, j :: 0 <= i < j < |a| ==> a[i].lb != a[j].lb
    ensures a[0] == b[0]
  {
    assert b[0] in multiset(b) && a[0] in multiset(a);
    assert b[0] in a && a[0] in b;
    var i :| 0 <= i < |a| && a[i] == b[0];
    var j :| 0 <= j < |b| && b[j] == a[0];
  }

  lemma SameSize(a: seq<Intv>, b: seq<Intv>)
    requires multiset(a) == multiset(b)
    ensures |a| == |b|
  {
    assert |multiset(a)| == |a| && |multiset(b)| == |b|;
  }

  /** Sorting does not change what is covered. */
  lemma {:induction false} CountPermuted(a: seq<Intv>, b: seq<Intv>, x: nat)
    requires multiset(a) == multiset(b)
    ensures Count(a, x) == Count(b, x)
    decreases |a|
  {
    hide Count, Has;
    SameSize(a, b);
    if a == [] {
      assert b == [];
    } else {
      var v := a[0];
      assert v in multiset(b);
      assert v in b;
      var i :| 0 <= i < |b| && b[i] == v;
      MultisetHead(a);
      MultisetWithout(b, i);
      MultisetCancel(v, multiset(a[1..]), multiset(b[..i] + b[i + 1..]));
      CountPermuted(a[1..], b[..i] + b[i + 1..], x);
      CountWithout(a, 0, x);
      CountWithout(b, i, x);
      assert a[..0] + a[1..] == a[1..];
    }
  }

  lemma {:induction false} CountWithout(a: seq<Intv>, i: nat, x: nat)
    requires i < |a|
    ensures Count(a, x) == Count(a[..i] + a[i + 1..], x) + if Has(a[i], x) then 1 else 0
  {
    assert a == a[..i] + ([a[i]] + a[i + 1..]);
    CountConcat(a[..i], [a[i]] + a[i + 1..], x);
    CountConcat([a[i]], a[i + 1..], x);
    CountConcat(a[..i], a[i + 1..], x);
    CountSingle(a[i], x);
  }

  lemma CountSingle(v: Intv, x: nat)
    ensures Count([v], x) == if Has(v, x) then 1 else 0
  {
    assert [v][..0] == [];
  }

  // ---- merging neighbours

  /** The table with every interval that starts right after the previous one merged into it. */
  function Compact(tab: seq<Intv>): (r: seq<Intv>)
    ensures |r| <= |tab| && (tab != [] ==> r != [])
    ensures tab != [] ==> r[|r| - 1].ub == tab[|tab| - 1].ub
  {
    if |tab| <= 1 then tab else
    var r, v := Compact(tab[..|tab| - 1]), tab[|tab| - 1];
    var last := r[|r| - 1];
    if last.ub + 1 == v.lb then r[..|r| - 1] + [Intv(last.lb, v.ub)] else r + [v]
  }

  /** How one more interval changes the compacted table. */
  lemma {:induction false} CompactMore(tab: seq<Intv>, v: Intv)
    requires tab != []
    ensures var r := Compact(tab); var last := r[|r| - 1];
            Compact(tab + [v]) == if last.ub + 1 == v.lb then r[..|r| - 1] + [Intv(last.lb, v.ub)] else r + [v]
  {
    assert (tab + [v])[..|tab|] == tab;
  }

  /** Merging keeps the coverage of an ordered table and leaves gaps. */
  lemma {:induction false} CompactCorrect(tab: seq<Intv>)
    requires Proper(tab) && Ordered(tab)
    ensures Proper(Compact(tab)) && Gapped(Compact(tab))
    ensures forall x: nat :: Count(Compact(tab), x) == Count(tab, x)
  {
    hide *;
    if |tab| <= 1 {
      CompactSmall(tab);
    } else {
      var init, v := tab[..|tab| - 1], tab[|tab| - 1];
      assert tab == init + [v];
      OrderedInit(tab);
      CompactCorrect(init);
      CompactMore(init, v);
      var r := Compact(init);
      CompactGaps(r, v);
      forall x: nat ensures Count(Compact(tab), x) == Count(tab, x) {
        assert Count(r, x) == Count(init, x);
        CompactCount(r, v, x);
        CountConcat(init, [v], x);
      }
    }
  }

  lemma CompactSmall(tab: seq<Intv>)
    requires |tab| <= 1 && Proper(tab)
    ensures Compact(tab) == tab && Gapped(tab)
  {}

  lemma {:induction false} OrderedInit(tab: seq<Intv>)
    requires |tab| > 1 && Proper(tab) && Ordered(tab)
    ensures Proper(tab[..|tab| - 1]) && Ordered(tab[..|tab| - 1])
    ensures tab[|tab| - 2].ub < tab[|tab| - 1].lb <= tab[|tab| - 1].ub
  {}

  lemma {:induction false} CompactGaps(r: seq<Intv>, v: Intv)
    requires r != [] && Proper(r) && Gapped(r) && r[|r| - 1].ub < v.lb <= v.ub
    ensures r[|r| - 1].lb <= r[|r| - 1].ub
    ensures var r' := if r[|r| - 1].ub + 1 == v.lb then r[..|r| - 1] + [Intv(r[|r| - 1].lb, v.ub)] else r + [v];
            Proper(r') && Gapped(r')
  {
    var last := |r| - 1;
    forall i | 0 <= i < last ensures r[i].ub + 1 < r[last].lb {}
  }

  lemma {:induction false} CompactCount(r: seq<Intv>, v: Intv, x: nat)
    requires r != [] && r[|r| - 1].lb <= r[|r| - 1].ub < v.lb <= v.ub
    ensures Count(r + [v], x) == Count(r, x) + Count([v], x)
    ensures r[|r| - 1].ub + 1 == v.lb ==>
              Count(r[..|r| - 1] + [Intv(r[|r| - 1].lb, v.ub)], x) == Count(r, x) + Count([v], x)
  {
    hide Count;
    var init, last := r[..|r| - 1], r[|r| - 1];
    assert r == init + [last];
    CountConcat(r, [v], x);
    CountConcat(init, [last], x);
    CountConcat(init, [Intv(last.lb, v.ub)], x);
    CountSingle(v, x);
    CountSingle(last, x);
    CountSingle(Intv(last.lb, v.ub), x);
  }

  /** intv_compact: merges in place and returns the new length (1 for an empty table). */
  method IntvCompact(tab: array<Intv>, num: nat) returns (n: nat)
    requires num <= tab.Length
    modifies tab
    ensures num == 0 ==> n == 1
    ensures num > 0 ==> n <= num && tab[..n] == Compact(old(tab[..num]))
  {
    hide *;
    var i, j := 0, 1;
    ghost var was := tab[..num];
    if num > 0 { CompactFirst(was); }
    while j < num
      invariant num > 0 ==> 0 <= i < j <= num && tab[..i + 1] == Compact(was[..j])
      invariant num == 0 ==> i == 0
      invariant forall k :: j <= k < num ==> tab[k] == was[k]
    {
      assert was[..j + 1] == was[..j] + [was[j]];
      CompactMore(was[..j], was[j]);
      ghost var r := tab[..i + 1];
      if tab[i].ub + 1 == tab[j].lb {
        tab[i] := Intv(tab[i].lb, tab[j].ub);
        assert tab[..i + 1] == r[..i] + [tab[i]];
      } else {
        i := i + 1;
        tab[i] := tab[j];
        assert tab[..i + 1] == r + [tab[i]];
      }
      j := j + 1;
    }
    n := i + 1;
    assert num > 0 ==> was[..num] == was;
  }

  lemma CompactFirst(tab: seq<Intv>)
    requires tab != []
    ensures Compact(tab[..1]) == tab[..1]
  {}
}
