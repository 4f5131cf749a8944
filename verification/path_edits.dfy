/**
 * Insertion and station removal keep the single-path invariant. Whenever
 * either edit succeeds on a list that forms one simple path, the new list
 * forms one simple path too, and its stations are the old ones with exactly
 * one station added (insertion) or taken out (removal), the others keeping
 * their order.
 */
module PathEdits {
  import opened Lists
  import opened SectionValue
  import opened Topology
  import opened Path

  /** Any path order of a list shows that the list is a single path. */
  lemma Witness(secs: seq<Section>, order: seq<Section>)
    requires IsPathOrder(secs, order)
    ensures SinglePath(secs)
  {
  }

  /** The station an insertion adds: whichever end of `s` the line does not have yet. */
  function AddedStation(ps: seq<Station>, s: Section): (x: Station)
    ensures x == s.up || x == s.down
    ensures s.up in ps ==> x == s.down
    ensures s.up !in ps ==> x == s.up
  {
    if s.up in ps then s.down else s.up
  }

  /** A successful insertion into a simple path leaves a simple path (one more station). */
  lemma InsertKeepsPath(secs: seq<Section>, s: Section)
    requires SinglePath(secs)
    ensures Insert(secs, s).Ok? ==> SinglePath(Insert(secs, s).value)
  {
    if Insert(secs, s).Ok? {
      var order :| IsPathOrder(secs, order);
      var no, i := InsertPath(secs, order, s);
      Witness(Insert(secs, s).value, no);
    }
  }

  /**
   * Station by station: after a successful insertion, whichever order walks the
   * new path visits the old stations in their old order with the one new
   * station slotted in between (or at an end).
   */
  lemma InsertAddsStation(secs: seq<Section>, order: seq<Section>, s: Section)
    requires IsPathOrder(secs, order) && Insert(secs, s).Ok?
    ensures AddedStation(Stations(order), s) !in Stations(order)
    ensures forall no :: IsPathOrder(Insert(secs, s).value, no) ==>
              exists i :: 0 <= i <= |Stations(order)| &&
                Stations(no) == Stations(order)[..i] + [AddedStation(Stations(order), s)] + Stations(order)[i..]
  {
    var no0, i := InsertPath(secs, order, s);
    forall no | IsPathOrder(Insert(secs, s).value, no)
      ensures Stations(no) == Stations(order)[..i] + [AddedStation(Stations(order), s)] + Stations(order)[i..]
    {
      PathStationsUnique(Insert(secs, s).value, no0, no);
    }
  }

  /**
   * The path after a successful insertion: the new station is slotted into the
   * old station sequence, which otherwise keeps its order.
   */
  lemma InsertPath(secs: seq<Section>, order: seq<Section>, s: Section) returns (no: seq<Section>, i: nat)
    requires IsPathOrder(secs, order)
    requires Insert(secs, s).Ok?
    ensures IsPathOrder(Insert(secs, s).value, no)
    ensures AddedStation(Stations(order), s) !in Stations(order)
    ensures i <= |Stations(order)|
    ensures Stations(no) == Stations(order)[..i] + [AddedStation(Stations(order), s)] + Stations(order)[i..]
  {
    var r := Insert(secs, s).value;
    InsertCases(secs, s);
    OnLineIffVisited(secs, order, s.up);
    OnLineIffVisited(secs, order, s.down);
    match FindSameUpOrDown(Connectable(secs, s), s)
    case None => no, i := ExtendPath(secs, order, s, r);
    case Some(o) => no, i := SplitPath(secs, order, s, o, r);
  }

  /** Appending a section that shares no end with any section: it extends the path at one end. */
  lemma ExtendPath(secs: seq<Section>, order: seq<Section>, s: Section, r: seq<Section>) returns (no: seq<Section>, i: nat)
    requires IsPathOrder(secs, order)
    requires (s.up in Stations(order)) != (s.down in Stations(order))
    requires forall c :: c in secs ==> !c.IsSameUpOrDownStation(s)
    requires r == secs + [s]
    ensures IsPathOrder(r, no)
    ensures i <= |Stations(order)|
    ensures Stations(no) == Stations(order)[..i] + [AddedStation(Stations(order), s)] + Stations(order)[i..]
  {
    var ps := Stations(order);
    if s.up in ps {
      var k :| 0 <= k <= |order| && ps[k] == s.up;
      SectionsAtStation(secs, order, k);
      assert k == |order|;
      ChainAppend(order, s);
      InsertAtEnds(ps, s.down);
      no, i := order + [s], |ps|;
    } else {
      var k :| 0 <= k <= |order| && ps[k] == s.down;
      SectionsAtStation(secs, order, k);
      assert k == 0;
      ChainPrepend(order, s);
      InsertAtEnds(ps, s.up);
      no, i := [s] + order, 0;
      assert multiset(r) == multiset(no);
    }
  }

  /** Carving a section out of the path section it shares an end with: the path gains a station inside. */
  lemma SplitPath(secs: seq<Section>, order: seq<Section>, s: Section, o: Section, r: seq<Section>) returns (no: seq<Section>, i: nat)
    requires IsPathOrder(secs, order)
    requires (s.up in Stations(order)) != (s.down in Stations(order))
    requires o in secs && o.IsSameUpOrDownStation(s) && s.distance < o.distance
    requires r == RemoveFirst(secs, o) + [s, o.Slice(s).value]
    ensures IsPathOrder(r, no)
    ensures i <= |Stations(order)|
    ensures Stations(no) == Stations(order)[..i] + [AddedStation(Stations(order), s)] + Stations(order)[i..]
  {
    var ps := Stations(order);
    assert o in multiset(order);
    assert o.HaveStation(o.up) && o.HaveStation(o.down);
    OnLineIffVisited(secs, order, o.up);
    OnLineIffVisited(secs, order, o.down);
    if o.up == s.up {
      var k :| 0 <= k <= |order| && ps[k] == s.up;
      StartsAt(order, o, k);
      no := SplitAfter(secs, order, k, s, r);
      i := k + 1;
    } else {
      var k :| 0 <= k <= |order| && ps[k] == s.down;
      EndsAt(order, o, k);
      no := SplitBefore(secs, order, k, s, r);
      i := k;
    }
  }

  /** `s` starts where section `k` of the path starts and ends at a new station: it takes the first part of section `k`. */
  lemma SplitAfter(secs: seq<Section>, order: seq<Section>, k: nat, s: Section, r: seq<Section>) returns (no: seq<Section>)
    requires IsPathOrder(secs, order) && k < |order|
    requires s.up == order[k].up && s.down !in Stations(order) && s.distance < order[k].distance
    requires r == RemoveFirst(secs, order[k]) + [s, order[k].Slice(s).value]
    ensures IsPathOrder(r, no)
    ensures Stations(no) == Stations(order)[..k + 1] + [s.down] + Stations(order)[k + 1..]
  {
    var rest := order[k].Slice(s).value;
    assert order[k].down == Stations(order)[k + 1];
    ReplaceMultiset(secs, order, k, [s, rest]);
    no := SplitAt(order, k, s, rest, r);
  }

  /** `s` ends where section `k - 1` of the path ends and starts at a new station: it takes the last part of that section. */
  lemma SplitBefore(secs: seq<Section>, order: seq<Section>, k: nat, s: Section, r: seq<Section>) returns (no: seq<Section>)
    requires IsPathOrder(secs, order) && 0 < k <= |order|
    requires s.down == order[k - 1].down && s.up !in Stations(order) && s.distance < order[k - 1].distance
    requires r == RemoveFirst(secs, order[k - 1]) + [s, order[k - 1].Slice(s).value]
    ensures IsPathOrder(r, no)
    ensures Stations(no) == Stations(order)[..k] + [s.up] + Stations(order)[k..]
  {
    var rest := order[k - 1].Slice(s).value;
    SwapLastTwo(RemoveFirst(secs, order[k - 1]), s, rest);
    ReplaceMultiset(secs, order, k - 1, [rest, s]);
    no := SplitAt(order, k - 1, rest, s, r);
  }

  /** Station `k` of the path is where section `k` starts and section `k - 1` ends, when they exist. */
  lemma SectionsAtStation(secs: seq<Section>, order: seq<Section>, k: nat)
    requires IsPathOrder(secs, order) && k <= |order|
    ensures k < |order| ==> order[k] in secs && order[k].up == Stations(order)[k]
    ensures 0 < k ==> order[k - 1] in secs && order[k - 1].down == Stations(order)[k]
  {
    if k < |order| {
      assert order[k] in multiset(secs);
    }
    if 0 < k {
      assert order[k - 1] in multiset(secs);
    }
  }

  /** Section `k` of the path replaced, in the list, by two sections through a new station. */
  lemma SplitAt(order: seq<Section>, k: nat, left: Section, right: Section, r: seq<Section>) returns (no: seq<Section>)
    requires IsChain(order) && k < |order|
    requires left.up == Stations(order)[k] && right.down == Stations(order)[k + 1]
    requires left.down == right.up && left.down !in Stations(order)
    requires multiset(r) == multiset(order[..k] + [left, right] + order[k + 1..])
    ensures IsPathOrder(r, no)
    ensures Stations(no) == Stations(order)[..k + 1] + [left.down] + Stations(order)[k + 1..]
  {
    ChainSplit(order, k, left, right);
    no := order[..k] + [left, right] + order[k + 1..];
  }

  /** A successful removal from a simple path leaves a simple path (one station fewer). */
  lemma RemoveKeepsPath(secs: seq<Section>, station: Station)
    requires SinglePath(secs)
    ensures RemoveStation(secs, station).Ok? ==> SinglePath(RemoveStation(secs, station).value)
  {
    if RemoveStation(secs, station).Ok? {
      var order :| IsPathOrder(secs, order);
      var no, k := RemovePath(secs, order, station);
      Witness(RemoveStation(secs, station).value, no);
    }
  }

  /**
   * Station by station: after a successful removal, whichever order walks the
   * new path visits the old stations in their old order without `station`.
   */
  lemma RemoveDropsStation(secs: seq<Section>, order: seq<Section>, station: Station)
    requires IsPathOrder(secs, order) && RemoveStation(secs, station).Ok?
    ensures forall no :: IsPathOrder(RemoveStation(secs, station).value, no) ==>
              exists k :: 0 <= k < |Stations(order)| && Stations(order)[k] == station &&
                Stations(no) == Stations(order)[..k] + Stations(order)[k + 1..]
  {
    var no0, k := RemovePath(secs, order, station);
    forall no | IsPathOrder(RemoveStation(secs, station).value, no)
      ensures Stations(no) == Stations(order)[..k] + Stations(order)[k + 1..]
    {
      PathStationsUnique(RemoveStation(secs, station).value, no0, no);
    }
  }

  /** The path after a successful removal: the station is cut out of the station sequence, the rest keeps its order. */
  lemma RemovePath(secs: seq<Section>, order: seq<Section>, station: Station) returns (no: seq<Section>, k: nat)
    requires IsPathOrder(secs, order)
    requires RemoveStation(secs, station).Ok?
    ensures IsPathOrder(RemoveStation(secs, station).value, no)
    ensures k < |Stations(order)| && Stations(order)[k] == station
    ensures Stations(no) == Stations(order)[..k] + Stations(order)[k + 1..]
  {
    RemoveCases(secs, station);
    no, k := CutStation(secs, order, station, RemoveStation(secs, station).value);
  }

  /** Cutting a station out of a path, given the two ways the list is rebuilt. */
  lemma CutStation(secs: seq<Section>, order: seq<Section>, station: Station, r: seq<Section>) returns (no: seq<Section>, k: nat)
    requires IsPathOrder(secs, order)
    requires OnLine(secs, station) && |secs| != 1
    requires RemovedAs(secs, station, r)
    ensures IsPathOrder(r, no)
    ensures k < |Stations(order)| && Stations(order)[k] == station
    ensures Stations(no) == Stations(order)[..k] + Stations(order)[k + 1..]
  {
    var ps := Stations(order);
    var n := |order|;
    OnLineIffVisited(secs, order, station);
    k :| 0 <= k <= n && ps[k] == station;
    assert |secs| == n by {
      assert |multiset(secs)| == |multiset(order)|;
    }
    PathSectionsOnce(secs, order);
    if k == 0 {
      no := CutFirst(secs, order, r);
    } else if k == n {
      no := CutLast(secs, order, r);
    } else {
      no := CutInterior(secs, order, k, r);
    }
  }

  /** Cutting the first station: the first section of the path is dropped. */
  lemma CutFirst(secs: seq<Section>, order: seq<Section>, r: seq<Section>) returns (no: seq<Section>)
    requires IsPathOrder(secs, order) && |order| >= 2
    requires forall x :: x in secs ==> multiset(secs)[x] == 1
    requires RemovedAs(secs, Stations(order)[0], r)
    ensures IsPathOrder(r, no)
    ensures Stations(no) == Stations(order)[..0] + Stations(order)[0 + 1..]
  {
    EndTouching(secs, order, 0, 0);
    no := DropFirst(secs, order, r);
  }

  /** Cutting the last station: the last section of the path is dropped. */
  lemma CutLast(secs: seq<Section>, order: seq<Section>, r: seq<Section>) returns (no: seq<Section>)
    requires IsPathOrder(secs, order) && |order| >= 2
    requires forall x :: x in secs ==> multiset(secs)[x] == 1
    requires RemovedAs(secs, Stations(order)[|order|], r)
    ensures IsPathOrder(r, no)
    ensures Stations(no) == Stations(order)[..|order|] + Stations(order)[|order| + 1..]
  {
    EndTouching(secs, order, |order|, |order| - 1);
    no := DropLast(secs, order, r);
  }

  /** Cutting an interior station: the two sections touching it give way to their merge. */
  lemma CutInterior(secs: seq<Section>, order: seq<Section>, k: nat, r: seq<Section>) returns (no: seq<Section>)
    requires IsPathOrder(secs, order) && 0 < k < |order|
    requires forall x :: x in secs ==> multiset(secs)[x] == 1
    requires RemovedAs(secs, Stations(order)[k], r)
    ensures IsPathOrder(r, no)
    ensures Stations(no) == Stations(order)[..k] + Stations(order)[k + 1..]
  {
    var station := Stations(order)[k];
    InteriorTouching(secs, order, k);
    var rem := Removable(secs, station);
    assert rem[0] in rem && rem[1] in rem;
    var merged := rem[0].Combine(rem[1], station).value;
    no := MergeInterior(secs, order, k, rem[0], rem[1], merged, r);
  }

  /** The sections touching station `k` of a path: those of the path order that start or end there. */
  lemma TouchingCounts(secs: seq<Section>, order: seq<Section>, k: nat, c: Section)
    requires IsPathOrder(secs, order) && k <= |order|
    requires forall x :: x in secs ==> multiset(secs)[x] == 1
    ensures multiset(Removable(secs, Stations(order)[k]))[c]
      == if (k < |order| && c == order[k]) || (0 < k && c == order[k - 1]) then 1 else 0
  {
    var st := Stations(order)[k];
    if c.HaveStation(st) && c in secs {
      assert c in multiset(order);
      if c.up == st {
        StartsAt(order, c, k);
      } else {
        EndsAt(order, c, k);
      }
    }
    if k < |order| {
      assert order[k] in multiset(secs);
    }
    if 0 < k {
      assert order[k - 1] in multiset(secs);
    }
  }

  /** Dropping the first section of a path of two or more. */
  lemma DropFirst(secs: seq<Section>, order: seq<Section>, r: seq<Section>) returns (no: seq<Section>)
    requires IsPathOrder(secs, order) && |order| >= 2
    requires r == RemoveFirst(secs, order[0])
    ensures IsPathOrder(r, no)
    ensures Stations(no) == Stations(order)[..0] + Stations(order)[1..]
  {
    RemoveFirstSplice(secs, order, 0);
    ChainDropFirst(order);
    CutAtEnds(Stations(order));
    no := order[1..];
  }

  /** Dropping the last section of a path of two or more. */
  lemma DropLast(secs: seq<Section>, order: seq<Section>, r: seq<Section>) returns (no: seq<Section>)
    requires IsPathOrder(secs, order) && |order| >= 2
    requires r == RemoveFirst(secs, order[|order| - 1])
    ensures IsPathOrder(r, no)
    ensures Stations(no) == Stations(order)[..|order|] + Stations(order)[|order| + 1..]
  {
    var n := |order|;
    RemoveFirstSplice(secs, order, n - 1);
    ChainDropLast(order);
    CutAtEnds(Stations(order));
    no := order[..n - 1];
  }

  /** Exactly one section touches the first (last) station of a path: the first (last) one. */
  lemma EndTouching(secs: seq<Section>, order: seq<Section>, k: nat, j: nat)
    requires IsPathOrder(secs, order) && |order| >= 2
    requires forall x :: x in secs ==> multiset(secs)[x] == 1
    requires (k == 0 && j == 0) || (k == |order| && j == |order| - 1)
    ensures Removable(secs, Stations(order)[k]) == [order[j]]
  {
    var rem := Removable(secs, Stations(order)[k]);
    forall c ensures multiset(rem)[c] == multiset{order[j]}[c] {
      TouchingCounts(secs, order, k, c);
    }
    SingletonOf(rem, order[j]);
  }

  /** Exactly two sections touch an interior station of a path: the ones before and after it. */
  lemma InteriorTouching(secs: seq<Section>, order: seq<Section>, k: nat)
    requires IsPathOrder(secs, order) && 0 < k < |order|
    requires forall x :: x in secs ==> multiset(secs)[x] == 1
    ensures var rem := Removable(secs, Stations(order)[k]);
      && |rem| == 2
      && ((rem[0] == order[k - 1] && rem[1] == order[k]) || (rem[0] == order[k] && rem[1] == order[k - 1]))
  {
    var rem := Removable(secs, Stations(order)[k]);
    forall c ensures multiset(rem)[c] == multiset{order[k - 1], order[k]}[c] {
      TouchingCounts(secs, order, k, c);
    }
    PairOf(rem, order[k - 1], order[k]);
  }

  /** Removing an interior station: its two sections are replaced by their merge. */
  lemma MergeInterior(secs: seq<Section>, order: seq<Section>, k: nat, a: Section, b: Section, merged: Section, r: seq<Section>)
    returns (no: seq<Section>)
    requires IsPathOrder(secs, order) && 0 < k < |order|
    requires (a == order[k - 1] && b == order[k]) || (a == order[k] && b == order[k - 1])
    requires a in secs && b in secs && multiset(secs)[a] == 1 && multiset(secs)[b] == 1
    requires a.Combine(b, Stations(order)[k]) == Ok(merged)
    requires r == RemoveFirst(RemoveFirst(RemoveFirst(secs + [merged], a), b), a)
    ensures IsPathOrder(r, no)
    ensures Stations(no) == Stations(order)[..k] + Stations(order)[k + 1..]
  {
    MergedSpan(order, k, a, b, merged);
    RemovePairFacts(secs, a, b, merged);
    MergeMultiset(order, k, a, b, merged, r);
    no := MergeAt(order, k, merged, r);
  }

  /** The merge of the two sections at station `k` runs from station `k - 1` to station `k + 1`. */
  lemma MergedSpan(order: seq<Section>, k: nat, a: Section, b: Section, merged: Section)
    requires IsChain(order) && 0 < k < |order|
    requires (a == order[k - 1] && b == order[k]) || (a == order[k] && b == order[k - 1])
    requires a.Combine(b, Stations(order)[k]) == Ok(merged)
    ensures merged.up == Stations(order)[k - 1] && merged.down == Stations(order)[k + 1]
    ensures a != b && merged != a && merged != b
  {
    var ps := Stations(order);
    assert order[k - 1].up == ps[k - 1] && order[k - 1].down == ps[k];
    assert order[k].up == ps[k] && order[k].down == ps[k + 1];
    assert ps[k + 1] != ps[k] && ps[k - 1] != ps[k] && ps[k - 1] != ps[k + 1];
  }

  /** Sections `k - 1` and `k` of the path replaced, in the list, by one section skipping station `k`. */
  lemma MergeAt(order: seq<Section>, k: nat, merged: Section, r: seq<Section>) returns (no: seq<Section>)
    requires IsChain(order) && 0 < k < |order|
    requires merged.up == Stations(order)[k - 1] && merged.down == Stations(order)[k + 1]
    requires multiset(r) == multiset(order[..k - 1] + [merged] + order[k + 1..])
    ensures IsPathOrder(r, no)
    ensures Stations(no) == Stations(order)[..k] + Stations(order)[k + 1..]
  {
    no := order[..k - 1] + [merged] + order[k + 1..];
    ChainMerge(order, k, merged);
  }
}
