/** The object store of a server (src/ss_data.c: ls_add_obj, ls_find_no_version,
    ls_find_next, ls_find, ls_remove): objects in bins by version modulo the number of
    bins. */
module VersionStore {
  import opened Words
  import opened Bbox

  const INT_MAX: nat := 0x7FFF_FFFF

  /** struct obj_data: its descriptor, and whether it is in use or marked for release. */
  datatype Obj = Obj(name: string, version: nat, bb: Box, refcnt: nat, fFree: bool)

  datatype Found = None | Some(od: Obj)

  function BinOf(version: nat, n: nat): (r: nat)
    requires n > 0
    ensures r < n
  {
    Modulo(version, n)
  }

  /** Objects are in the bin of their version. */
  predicate Binned(bins: seq<seq<Obj>>) {
    |bins| > 0 && forall i, j :: 0 <= i < |bins| && 0 <= j < |bins[i]| ==> BinOf(bins[i][j].version, |bins|) == i
  }

  predicate Stored(bins: seq<seq<Obj>>, od: Obj) {
    exists i, j :: 0 <= i < |bins| && 0 <= j < |bins[i]| && bins[i][j] == od
  }

  function Total(bins: seq<seq<Obj>>): nat {
    if bins == [] then 0 else Total(bins[..|bins| - 1]) + |bins[|bins| - 1]|
  }

  lemma {:induction false} TotalUpdate(bins: seq<seq<Obj>>, i: nat, bin: seq<Obj>)
    requires i < |bins|
    ensures Total(bins[i := bin]) == Total(bins) - |bins[i]| + |bin|
  {
    if i == |bins| - 1 {
      assert bins[i := bin][..i] == bins[..i];
    } else {
      TotalUpdate(bins[..|bins| - 1], i, bin);
      assert bins[i := bin][..|bins| - 1] == bins[..|bins| - 1][i := bin];
    }
  }

  /** obj_desc_by_name_intersect */
  predicate SameObject(a: Obj, b: Obj) {
    a.name == b.name && Meets(a.bb, b.bb)
  }

  /** Versions less than n apart in the same bin are equal. */
  lemma {:induction false} SameBin(x: nat, y: nat, n: nat)
    requires n > 0 && x <= y < x + n && Rem(x, n) == Rem(y, n)
    ensures x == y
  {
    if x >= n { SameBin(x - n, y - n, n); }
  }

  // ---- the next version

  /** od has the name and a later version that fits an int. */
  predicate Later(od: Obj, name: string, version: nat) {
    od.name == name && version < od.version < INT_MAX
  }

  /** r is the stored object of that name with the least later version. */
  ghost predicate IsNext(bins: seq<seq<Obj>>, name: string, version: nat, r: Found) {
    match r
    case None => forall od :: Stored(bins, od) ==> !Later(od, name, version)
    case Some(o) =>
      && Stored(bins, o) && Later(o, name, version)
      && forall od :: Stored(bins, od) && Later(od, name, version) ==> o.version <= od.version
  }

  /** What the search knows after looking at a list: r is a least later object. */
  predicate Best(l: seq<Obj>, name: string, version: nat, r: Found) {
    match r
    case None => forall j :: 0 <= j < |l| ==> !Later(l[j], name, version)
    case Some(o) =>
      && o in l && Later(o, name, version)
      && forall j :: 0 <= j < |l| && Later(l[j], name, version) ==> o.version <= l[j].version
  }

  /** No object before od in its bin has its name and version. */
  predicate FirstInBin(bins: seq<seq<Obj>>, od: Obj)
    requires |bins| > 0
  {
    var bin := bins[BinOf(od.version, |bins|)];
    exists k :: 0 <= k < |bin| && bin[k] == od
                && forall j :: 0 <= j < k ==> bin[j].name != od.name || bin[j].version != od.version
  }

  /** An object that beats what was seen is the first of its version. */
  lemma {:induction false} FirstHere(bins: seq<seq<Obj>>, b: nat, k: nat, seen: seq<Obj>, name: string, version: nat, r: Found)
    requires Binned(bins) && b < |bins| && k < |bins[b]| && Later(bins[b][k], name, version)
    requires Best(seen + bins[b][..k], name, version, r) && (r.Some? ==> bins[b][k].version < r.od.version)
    ensures FirstInBin(bins, bins[b][k])
  {
    hide BinOf;
    var bin, od := bins[b], bins[b][k];
    assert BinOf(od.version, |bins|) == b;
    forall j | 0 <= j < k ensures bin[j].name != od.name || bin[j].version != od.version {
      assert (seen + bin[..k])[|seen| + j] == bin[j];
    }
  }

  /** The bins in the order the search visits them. */
  function Visited(bins: seq<seq<Obj>>, version: nat, offset: nat): seq<Obj>
    requires |bins| > 0
  {
    if offset == 0 then [] else Visited(bins, version, offset - 1) + bins[BinOf(version + offset, |bins|)]
  }

  lemma {:induction false} VisitedHas(bins: seq<seq<Obj>>, version: nat, offset: nat, o: nat, od: Obj)
    requires |bins| > 0 && 1 <= o <= offset && od in bins[BinOf(version + o, |bins|)]
    ensures od in Visited(bins, version, offset)
  {
    hide BinOf;
    if o < offset { VisitedHas(bins, version, offset - 1, o, od); }
  }

  lemma {:induction false} VisitedOnly(bins: seq<seq<Obj>>, version: nat, offset: nat, od: Obj) returns (o: nat)
    requires |bins| > 0 && od in Visited(bins, version, offset)
    ensures 1 <= o <= offset && od in bins[BinOf(version + o, |bins|)] && Stored(bins, od)
  {
    hide BinOf;
    var bin := bins[BinOf(version + offset, |bins|)];
    if od in bin {
      var j :| 0 <= j < |bin| && bin[j] == od;
      assert bins[BinOf(version + offset, |bins|)][j] == od;
      o := offset;
    } else {
      o := VisitedOnly(bins, version, offset - 1, od);
    }
  }

  /** Every bin is visited within one round of offsets. */
  lemma {:induction false} OffsetOf(version: nat, b: nat, n: nat) returns (o: nat)
    requires b < n
    ensures 1 <= o <= n && BinOf(version + o, n) == b
  {
    hide Rem;
    var r := Rem(version + 1, n);
    o := if b >= r then 1 + b - r else 1 + b + n - r;
    RemShift(version + 1, o - 1, n);
  }

  lemma {:induction false} RemShift(x: nat, d: nat, n: nat)
    requires n > 0 && d < n
    ensures Rem(x + d, n) == if Rem(x, n) + d < n then Rem(x, n) + d else Rem(x, n) + d - n
  {
    if x >= n { RemShift(x - n, d, n); }
  }

  /** A full round finds what there is to find. */
  lemma {:induction false} FullRound(bins: seq<seq<Obj>>, name: string, version: nat, r: Found)
    requires |bins| > 0 && Best(Visited(bins, version, |bins|), name, version, r)
    ensures IsNext(bins, name, version, r)
  {
    hide BinOf, Visited;
    var l := Visited(bins, version, |bins|);
    forall od | Stored(bins, od) ensures od in l {
      var i, j :| 0 <= i < |bins| && 0 <= j < |bins[i]| && bins[i][j] == od;
      var o := OffsetOf(version, i, |bins|);
      VisitedHas(bins, version, |bins|, o, od);
    }
    if r.Some? { var o := VisitedOnly(bins, version, |bins|, r.od); }
  }

  /** An object within one round of the query is found at its own offset: it is the next. */
  lemma {:induction false} EarlyExit(bins: seq<seq<Obj>>, name: string, version: nat, offset: nat, od: Obj)
    requires Binned(bins) && 1 <= offset <= |bins| && Later(od, name, version) && od.version <= version + |bins|
    requires od in bins[BinOf(version + offset, |bins|)]
    requires forall x :: x in Visited(bins, version, offset - 1) && Later(x, name, version) ==> x.version > version + |bins|
    ensures IsNext(bins, name, version, Some(od))
  {
    hide BinOf, Visited;
    var n := |bins|;
    assert od.version == version + offset by { BinVersion(bins, version, offset, od); }
    var b := bins[BinOf(version + offset, n)];
    var k :| 0 <= k < |b| && b[k] == od;
    assert Stored(bins, od) by { assert bins[BinOf(version + offset, n)][k] == od; }
    forall x | Stored(bins, x) && Later(x, name, version) ensures od.version <= x.version {
      if x.version < od.version {
        var i, j :| 0 <= i < n && 0 <= j < |bins[i]| && bins[i][j] == x;
        VisitedHas(bins, version, offset - 1, x.version - version, x);
      }
    }
  }

  lemma {:induction false} BinVersion(bins: seq<seq<Obj>>, version: nat, offset: nat, od: Obj)
    requires Binned(bins) && 1 <= offset <= |bins| && od in bins[BinOf(version + offset, |bins|)]
    requires version < od.version <= version + |bins|
    ensures od.version == version + offset
  {
    hide Rem;
    var n := |bins|;
    var b := bins[BinOf(version + offset, n)];
    var k :| 0 <= k < |b| && b[k] == od;
    assert BinOf(od.version, n) == BinOf(version + offset, n);
    if od.version <= version + offset { SameBin(od.version, version + offset, n); }
    else { SameBin(version + offset, od.version, n); }
  }

  // ---- adding an object

  /** The first object of the bin that od replaces; the length of the bin if there is none. */
  function FirstMatch(bin: seq<Obj>, od: Obj): (k: nat)
    ensures k <= |bin| && (k < |bin| ==> SameObject(od, bin[k]))
    ensures forall j :: 0 <= j < k ==> !SameObject(od, bin[j])
  {
    if bin == [] || SameObject(od, bin[0]) then 0 else 1 + FirstMatch(bin[1..], od)
  }

  /** It is removed, or marked if it is in use. */
  function Evicted(bin: seq<Obj>, od: Obj): seq<Obj> {
    var k := FirstMatch(bin, od);
    if k == |bin| then bin
    else if bin[k].refcnt == 0 then bin[..k] + bin[k + 1..]
    else bin[k := bin[k].(fFree := true)]
  }

  function Added(bins: seq<seq<Obj>>, od: Obj): seq<seq<Obj>>
    requires |bins| > 0
  {
    var i := BinOf(od.version, |bins|);
    bins[i := [od] + Evicted(bins[i], od)]
  }

  lemma {:induction false} EvictedFrom(bin: seq<Obj>, od: Obj, j: nat) returns (i: nat)
    requires j < |Evicted(bin, od)|
    ensures i < |bin| && Evicted(bin, od)[j].(fFree := bin[i].fFree) == bin[i]
  {
    var k := FirstMatch(bin, od);
    i := if k < |bin| && bin[k].refcnt == 0 && j >= k then j + 1 else j;
  }

  /** Adding keeps the objects in their bins. */
  lemma {:induction false} AddedBinned(bins: seq<seq<Obj>>, od: Obj)
    requires Binned(bins)
    ensures Binned(Added(bins, od))
  {
    hide BinOf, Evicted;
    var b: nat, bins': seq<seq<Obj>> := BinOf(od.version, |bins|), Added(bins, od);
    forall i, j | 0 <= i < |bins'| && 0 <= j < |bins'[i]| ensures BinOf(bins'[i][j].version, |bins'|) == i {
      if i == b && j > 0 {
        var k := EvictedFrom(bins[b], od, j - 1);
        assert BinOf(bins[b][k].version, |bins|) == b;
      } else if i != b {
        assert BinOf(bins[i][j].version, |bins|) == i;
      }
    }
  }

  /** The new object is stored; whatever is no longer stored as it was has its name, meets
      its box and shares its bin, so its version differs by a multiple of the number of bins. */
  lemma {:induction false} AddedStored(bins: seq<seq<Obj>>, od: Obj, x: Obj)
    requires Binned(bins)
    ensures Stored(Added(bins, od), od)
    ensures Stored(bins, x) && !Stored(Added(bins, od), x) ==>
              SameObject(od, x) && BinOf(x.version, |bins|) == BinOf(od.version, |bins|)
  {
    hide BinOf, SameObject;
    var b: nat, bins': seq<seq<Obj>> := BinOf(od.version, |bins|), Added(bins, od);
    assert bins'[b][0] == od;
    if Stored(bins, x) {
      var i, j :| 0 <= i < |bins| && 0 <= j < |bins[i]| && bins[i][j] == x;
      if i != b {
        assert bins'[i][j] == x;
      } else {
        var k := FirstMatch(bins[b], od);
        if j != k {
          var j' := if k < |bins[b]| && bins[b][k].refcnt == 0 && j > k then j else j + 1;
          assert bins'[b][j'] == x;
        }
      }
    }
  }

  /** What adding od does to its bin: if it replaces an object, the first such object is
      gone, or is marked if it is in use; od comes in front. */
  ghost predicate Replaced(bin: seq<Obj>, bin': seq<Obj>, od: Obj) {
    if forall j :: 0 <= j < |bin| ==> !SameObject(od, bin[j]) then bin' == [od] + bin
    else exists k: nat :: ReplacedAt(bin, bin', od, k)
  }

  ghost predicate ReplacedAt(bin: seq<Obj>, bin': seq<Obj>, od: Obj, k: nat) {
    && k < |bin| && SameObject(od, bin[k]) && (forall j :: 0 <= j < k ==> !SameObject(od, bin[j]))
    && bin' == [od] + bin[..k] + (if bin[k].refcnt == 0 then [] else [bin[k].(fFree := true)]) + bin[k + 1..]
  }

  lemma {:induction false} AddedReplaces(bins: seq<seq<Obj>>, od: Obj)
    requires |bins| > 0
    ensures var b, bins' := BinOf(od.version, |bins|), Added(bins, od);
            && |bins'| == |bins| && Replaced(bins[b], bins'[b], od)
            && forall i :: 0 <= i < |bins| && i != b ==> bins'[i] == bins[i]
  {
    hide BinOf, SameObject;
    var b := BinOf(od.version, |bins|);
    var bin, bin' := bins[b], Added(bins, od)[b];
    var k := FirstMatch(bin, od);
    if k < |bin| {
      var mid := if bin[k].refcnt == 0 then [] else [bin[k].(fFree := true)];
      assert bin' == [od] + bin[..k] + mid + bin[k + 1..];
      assert ReplacedAt(bin, bin', od, k);
    }
  }

  /** The number of objects grows by one unless an unused object was replaced. */
  lemma {:induction false} ReplacedSize(bin: seq<Obj>, bin': seq<Obj>, od: Obj)
    requires Replaced(bin, bin', od)
    ensures |bin'| == |bin| || |bin'| == |bin| + 1
    ensures |bin'| == |bin| <==> exists k: nat :: ReplacedAt(bin, bin', od, k) && bin[k].refcnt == 0
  {
    hide SameObject;
    if k: nat :| ReplacedAt(bin, bin', od, k) {
      assert |bin'| == 1 + k + (if bin[k].refcnt == 0 then 0 else 1) + (|bin| - k - 1);
    }
  }

  /** struct ss_storage */
  class Storage {
    const sizeHash: nat
    var numObj: int
    var objHash: seq<seq<Obj>>

    predicate Valid()
      reads this
    {
      |objHash| == sizeHash > 0 && Binned(objHash) && numObj == Total(objHash)
    }

    constructor (maxVersions: nat)
      requires maxVersions > 0
      ensures Valid() && sizeHash == maxVersions && forall od :: !Stored(objHash, od)
    {
      sizeHash := maxVersions;
      numObj := 0;
      objHash := seq(maxVersions, _ => []);
      new;
      TotalEmpty(objHash);
    }

    /** ls_find_no_version: the position in the bin. */
    method FindNoVersion(od: Obj) returns (k: nat)
      requires Valid()
      ensures k == FirstMatch(objHash[BinOf(od.version, sizeHash)], od)
    {
      hide BinOf, Binned, Total;
      var bin := objHash[BinOf(od.version, sizeHash)];
      k := 0;
      while k < |bin|
        invariant 0 <= k <= |bin| && FirstMatch(bin, od) == k + FirstMatch(bin[k..], od)
      {
        if bin[k].name == od.name {
          var meets := Intersects(od.bb, bin[k].bb);
          if meets { return; }
        }
        assert bin[k..][1..] == bin[k + 1..];
        k := k + 1;
      }
    }

    /** ls_add_obj */
    method AddObj(od: Obj)
      requires Valid()
      modifies this
      ensures Valid() && objHash == Added(old(objHash), od)
      ensures var b := BinOf(od.version, sizeHash);
              && Replaced(old(objHash)[b], objHash[b], od) && numObj == old(numObj) + |objHash[b]| - |old(objHash)[b]|
              && forall i :: 0 <= i < sizeHash && i != b ==> objHash[i] == old(objHash)[i]
    {
      hide BinOf, Binned, Total, FirstMatch, Replaced;
      AddedReplaces(objHash, od);
      AddedBinned(objHash, od);
      var k := FindNoVersion(od);
      var index := BinOf(od.version, sizeHash);
      var bin := objHash[index];
      TotalUpdate(objHash, index, [od] + Evicted(bin, od));
      if k < |bin| {
        if bin[k].refcnt == 0 {
          bin := bin[..k] + bin[k + 1..];
          numObj := numObj - 1;
        } else {
          bin := bin[k := bin[k].(fFree := true)];
        }
      }
      objHash := objHash[index := [od] + bin];
      numObj := numObj + 1;
    }

    /** ls_find_next.  All versions are unsigned 32-bit and the sum below does not wrap. */
    method FindNext(name: string, version: nat) returns (r: Found)
      requires Valid() && version + sizeHash < 0x1_0000_0000
      ensures IsNext(objHash, name, version, r) && (r.Some? ==> FirstInBin(objHash, r.od))
    {
      hide BinOf, Binned, IsNext, Total, Visited, FirstInBin;
      r := None;
      var nextVer, offset := INT_MAX, 1;
      ghost var bins := objHash;
      VisitedNone(bins, version);
      while offset <= sizeHash
        invariant 1 <= offset <= sizeHash + 1
        invariant Best(Visited(bins, version, offset - 1), name, version, r)
        invariant nextVer == if r.Some? then r.od.version else INT_MAX
        invariant r.Some? ==> nextVer > version + sizeHash && FirstInBin(bins, r.od)
      {
        var list := objHash[BinOf(version + offset, sizeHash)];
        var j := 0;
        ghost var seen := Visited(bins, version, offset - 1);
        assert seen + list[..0] == seen;
        while j < |list|
          invariant 0 <= j <= |list|
          invariant Best(seen + list[..j], name, version, r)
          invariant nextVer == if r.Some? then r.od.version else INT_MAX
          invariant r.Some? ==> nextVer > version + sizeHash && FirstInBin(bins, r.od)
        {
          var od := list[j];
          assert seen + list[..j + 1] == (seen + list[..j]) + [od];
          BestMore(seen + list[..j], name, version, r, od);
          if od.name == name && od.version >= version + 1 && od.version < nextVer {
            FirstHere(bins, BinOf(version + offset, sizeHash), j, seen, name, version, r);
            if od.version <= version + sizeHash {
              LaterFar(seen, list[..j], name, version, r, sizeHash);
              EarlyExit(bins, name, version, offset, od);
              return Some(od);
            }
            r := Some(od);
            nextVer := od.version;
          }
          j := j + 1;
        }
        assert list[..j] == list;
        VisitedMore(bins, version, offset);
        offset := offset + 1;
      }
      FullRound(bins, name, version, r);
    }
  }

  /** bbox_does_intersect; boxes of different dimensions do not. */
  method Intersects(a: Box, b: Box) returns (r: bool)
    ensures r == Meets(a, b)
  {
    if |a.lb| == |a.ub| == |b.lb| == |b.ub| {
      r := BboxDoesIntersect(a, b);
    } else {
      r := false;
    }
  }

  lemma {:induction false} TotalEmpty(bins: seq<seq<Obj>>)
    requires forall i :: 0 <= i < |bins| ==> bins[i] == []
    ensures Total(bins) == 0
  {
    if bins != [] { TotalEmpty(bins[..|bins| - 1]); }
  }

  lemma VisitedNone(bins: seq<seq<Obj>>, version: nat)
    requires |bins| > 0
    ensures Visited(bins, version, 0) == []
  {}

  lemma VisitedMore(bins: seq<seq<Obj>>, version: nat, offset: nat)
    requires |bins| > 0 && offset > 0
    ensures Visited(bins, version, offset) == Visited(bins, version, offset - 1) + bins[BinOf(version + offset, |bins|)]
  {}

  lemma {:induction false} BestMore(l: seq<Obj>, name: string, version: nat, r: Found, od: Obj)
    requires Best(l, name, version, r)
    ensures Best(l + [od], name, version,
                 if Later(od, name, version) && (r.None? || od.version < r.od.version) then Some(od) else r)
  {
    var l' := l + [od];
    forall j | 0 <= j < |l'| ensures l'[j] == od || (j < |l| && l'[j] == l[j]) {}
  }

  /** If the best so far is beyond one round, so is everything seen. */
  lemma {:induction false} LaterFar(seen: seq<Obj>, more: seq<Obj>, name: string, version: nat, r: Found, n: nat)
    requires Best(seen + more, name, version, r) && (r.Some? ==> r.od.version > version + n)
    ensures forall x :: x in seen && Later(x, name, version) ==> x.version > version + n
  {
    forall x | x in seen && Later(x, name, version) ensures x.version > version + n {
      var j :| 0 <= j < |seen| && seen[j] == x;
      assert (seen + more)[j] == x;
    }
  }
}
