/** The location metadata of a DIMES server (src/dimes_data.c: obj_location_list_lookup,
    metadata_s_add_obj_location, metadata_s_find_obj_location): which process holds which
    box of a variable, by version modulo the number of bins.

    A bin is searched by variable name and gets a new entry for a name it does not have;
    it is a map here. */
module Metadata {
  import opened HilbertCube
  import opened Bbox
  import opened VersionStore

  /** The put command of a client: what it put and where it is. */
  datatype Put = Put(name: string, version: nat, bb: Box, owner: nat)

  type Bins = seq<map<string, seq<Put>>>

  function ListOf(bins: Bins, i: nat, name: string): seq<Put>
    requires i < |bins|
  {
    if name in bins[i] then bins[i][name] else []
  }

  /** obj_desc_by_name_intersect */
  predicate Clash(p: Put, q: Put) {
    p.name == q.name && Meets(p.bb, q.bb)
  }

  /** obj_desc_equals_intersect */
  predicate Match(p: Put, q: Put) {
    p.name == q.name && p.version == q.version && Meets(p.bb, q.bb)
  }

  // ---- what is kept, in terms of the history of puts

  /** The t-th put went to bin i (of n) under this name. */
  predicate Went(h: seq<Put>, t: nat, n: nat, i: nat, name: string)
    requires n > 0 && t < |h|
  {
    h[t].name == name && BinOf(h[t].version, n) == i
  }

  /** The t-th put is the last one to its list that meets its box. */
  predicate Survives(h: seq<Put>, t: nat, n: nat, i: nat, name: string)
    requires n > 0 && t < |h|
  {
    && Went(h, t, n, i, name)
    && forall u :: t < u < |h| && Went(h, u, n, i, name) ==> !Meets(h[u].bb, h[t].bb)
  }

  predicate Live(h: seq<Put>, n: nat, i: nat, name: string, q: Put)
    requires n > 0
  {
    exists t :: 0 <= t < |h| && h[t] == q && Survives(h, t, n, i, name)
  }

  lemma {:induction false} LiveAfter(h: seq<Put>, p: Put, n: nat, i: nat, name: string, q: Put)
    requires n > 0
    ensures Live(h + [p], n, i, name, q) <==>
              if p.name == name && BinOf(p.version, n) == i then q == p || (Live(h, n, i, name, q) && !Meets(p.bb, q.bb))
              else Live(h, n, i, name, q)
  {
    hide BinOf, Meets;
    var h' := h + [p];
    assert h'[|h|] == p;
    if Live(h', n, i, name, q) {
      var t :| 0 <= t < |h'| && h'[t] == q && Survives(h', t, n, i, name);
      if t < |h| {
        forall u | t < u < |h| && Went(h, u, n, i, name) ensures !Meets(h[u].bb, h[t].bb) { assert Went(h', u, n, i, name); }
        assert Survives(h, t, n, i, name);
        assert Went(h', |h|, n, i, name) ==> !Meets(p.bb, q.bb);
      }
    }
    if p.name == name && BinOf(p.version, n) == i && q == p { assert Survives(h', |h|, n, i, name); }
    if Live(h, n, i, name, q) && !(p.name == name && BinOf(p.version, n) == i && Meets(p.bb, q.bb)) {
      var t :| 0 <= t < |h| && h[t] == q && Survives(h, t, n, i, name);
      forall u | t < u < |h'| && Went(h', u, n, i, name) ensures !Meets(h'[u].bb, h'[t].bb) {
        if u < |h| { assert Went(h, u, n, i, name); }
      }
      assert Survives(h', t, n, i, name);
    }
  }

  /** Two puts that are kept in one list share no cell. */
  lemma {:induction false} Disjoint(h: seq<Put>, n: nat, i: nat, name: string, t: nat, u: nat, c: Cell)
    requires n > 0 && t < |h| && u < |h| && Survives(h, t, n, i, name) && Survives(h, u, n, i, name)
    requires InBox(c, h[t].bb) && InBox(c, h[u].bb)
    ensures t == u
  {
    hide BinOf, Meets;
    SharedCellMeets(h[t].bb, h[u].bb, c);
    SharedCellMeets(h[u].bb, h[t].bb, c);
  }

  /** A location that covers a cell is that of the latest put to its bin that covered it. */
  lemma {:induction false} LatestPut(h: seq<Put>, n: nat, i: nat, name: string, q: Put, c: Cell) returns (t: nat)
    requires n > 0 && Live(h, n, i, name, q) && InBox(c, q.bb)
    ensures t < |h| && h[t] == q && Went(h, t, n, i, name)
    ensures forall u :: t < u < |h| && Went(h, u, n, i, name) ==> !InBox(c, h[u].bb)
  {
    hide BinOf, Meets;
    t :| 0 <= t < |h| && h[t] == q && Survives(h, t, n, i, name);
    forall u | t < u < |h| && Went(h, u, n, i, name) ensures !InBox(c, h[u].bb) {
      if InBox(c, h[u].bb) { SharedCellMeets(h[u].bb, q.bb, c); }
    }
  }

  // ---- the store

  /** The entries that stay when p is added. */
  function Pruned(l: seq<Put>, p: Put): seq<Put> {
    if l == [] then [] else (if Clash(p, l[0]) then [] else [l[0]]) + Pruned(l[1..], p)
  }

  lemma {:induction false} PrunedHas(l: seq<Put>, p: Put, q: Put)
    ensures q in Pruned(l, p) <==> q in l && !Clash(p, q)
  {
    hide Clash;
    if l != [] { PrunedHas(l[1..], p, q); }
  }

  lemma {:induction false} PrunedMore(l: seq<Put>, p: Put, k: nat)
    requires k < |l|
    ensures Pruned(l[..k + 1], p) == Pruned(l[..k], p) + if Clash(p, l[k]) then [] else [l[k]]
  {
    hide Clash;
    if k > 0 {
      assert l[..k + 1][1..] == l[1..][..k] && l[..k][1..] == l[1..][..k - 1];
      PrunedMore(l[1..], p, k - 1);
    }
  }

  /** The entries that match d, each added at the front of the result. */
  function Collected(l: seq<Put>, d: Put): seq<Put> {
    if l == [] then [] else Collected(l[1..], d) + if Match(d, l[0]) then [l[0]] else []
  }

  lemma {:induction false} CollectedHas(l: seq<Put>, d: Put, q: Put)
    ensures q in Collected(l, d) <==> q in l && Match(d, q)
  {
    hide Match;
    if l != [] { CollectedHas(l[1..], d, q); }
  }

  lemma {:induction false} CollectedMore(l: seq<Put>, d: Put, k: nat)
    requires k < |l|
    ensures Collected(l[..k + 1], d) == (if Match(d, l[k]) then [l[k]] else []) + Collected(l[..k], d)
  {
    hide Match;
    if k > 0 {
      assert l[..k + 1][1..] == l[1..][..k] && l[..k][1..] == l[1..][..k - 1];
      CollectedMore(l[1..], d, k - 1);
    }
  }

  class MetadataStorage {
    const maxVersions: nat
    var versionTab: Bins
    /** All puts so far. */
    ghost var history: seq<Put>

    /** Each list holds exactly the live puts. */
    ghost predicate Valid()
      reads this
    {
      && |versionTab| == maxVersions > 0
      && forall i: nat, name, q :: i < maxVersions ==>
           (q in ListOf(versionTab, i, name) <==> Live(history, maxVersions, i, name, q))
    }

    /** metadata_s_alloc */
    constructor (maxVersions: nat)
      requires maxVersions > 0
      ensures Valid() && history == [] && this.maxVersions == maxVersions
    {
      this.maxVersions := maxVersions;
      versionTab := seq(maxVersions, _ => map[]);
      history := [];
    }

    /** metadata_s_add_obj_location */
    method AddObjLocation(p: Put)
      requires Valid()
      modifies this
      ensures Valid() && history == old(history) + [p] && versionTab == AddedTo(old(versionTab), p)
    {
      hide BinOf, Live, Meets;
      var index := BinOf(p.version, maxVersions);
      var l := ListOf(versionTab, index, p.name);
      var kept, k := [], 0;
      while k < |l|
        invariant 0 <= k <= |l| && kept == Pruned(l[..k], p)
        modifies {}
      {
        PrunedMore(l, p, k);
        var clash := false;
        if p.name == l[k].name { clash := Intersects(p.bb, l[k].bb); }
        if !clash { kept := kept + [l[k]]; }
        k := k + 1;
      }
      assert l[..k] == l;
      ghost var before, was := versionTab, history;
      versionTab := versionTab[index := versionTab[index][p.name := [p] + kept]];
      history := history + [p];
      AddedLists(before, was, p, maxVersions);
      assert versionTab == AddedTo(before, p);
    }

    /** metadata_s_find_obj_location: the locations it collects. */
    method FindObjLocation(d: Put) returns (out: seq<Put>)
      requires Valid()
      ensures forall q :: q in out <==> Live(history, maxVersions, BinOf(d.version, maxVersions), d.name, q) && Match(d, q)
      ensures out == Collected(ListOf(versionTab, BinOf(d.version, maxVersions), d.name), d)
    {
      hide BinOf, Live, Meets;
      var l := ListOf(versionTab, BinOf(d.version, maxVersions), d.name);
      out := [];
      var k := 0;
      while k < |l|
        invariant 0 <= k <= |l| && out == Collected(l[..k], d)
      {
        CollectedMore(l, d, k);
        if d.name == l[k].name && d.version == l[k].version {
          var meets := Intersects(d.bb, l[k].bb);
          if meets { out := [l[k]] + out; }
        }
        k := k + 1;
      }
      assert l[..k] == l;
      forall q ensures q in out <==> q in l && Match(d, q) { CollectedHas(l, d, q); }
    }
  }

  lemma LiveName(h: seq<Put>, n: nat, i: nat, name: string, q: Put)
    requires n > 0 && Live(h, n, i, name, q)
    ensures q.name == name && BinOf(q.version, n) == i
  {}

  function AddedTo(bins: Bins, p: Put): Bins
    requires |bins| > 0
  {
    var i := BinOf(p.version, |bins|);
    bins[i := bins[i][p.name := [p] + Pruned(ListOf(bins, i, p.name), p)]]
  }

  /** The lists still hold exactly the live puts. */
  lemma {:induction false} AddedLists(bins: Bins, h: seq<Put>, p: Put, n: nat)
    requires |bins| == n > 0
    requires forall i: nat, name, q :: i < n ==> (q in ListOf(bins, i, name) <==> Live(h, n, i, name, q))
    ensures forall i: nat, name, q :: i < n ==> (q in ListOf(AddedTo(bins, p), i, name) <==> Live(h + [p], n, i, name, q))
  {
    hide BinOf, Live, Meets;
    forall i: nat, name, q | i < n ensures q in ListOf(AddedTo(bins, p), i, name) <==> Live(h + [p], n, i, name, q) {
      LiveAfter(h, p, n, i, name, q);
      assert q in ListOf(bins, i, name) <==> Live(h, n, i, name, q);
      if p.name == name && BinOf(p.version, n) == i {
        PrunedHas(ListOf(bins, i, name), p, q);
        if Live(h, n, i, name, q) { LiveName(h, n, i, name, q); }
      }
    }
  }
}
