/**
 * The invariant a line's sections keep: taken in a suitable order they form
 * one simple path, each section starting where the previous one ends and no
 * station visited twice. This module states that invariant and derives the
 * facts the station ordering relies on: where the path starts and ends, how to
 * walk it, and that its station order is determined by the sections alone.
 */
module Path {
  import opened Lists
  import opened SectionValue
  import opened Topology

  /** The stations an ordered chain of sections visits: the first up station, then every down station. */
  function Stations(order: seq<Section>): (r: seq<Station>)
    requires |order| > 0
  {
    [order[0].up] + Downs(order)
  }

  /** Section `i` of `order` runs from station `i` to station `i + 1` of `ps`. */
  ghost predicate Spans(order: seq<Section>, ps: seq<Station>)
  {
    && |ps| == |order| + 1
    && forall i :: 0 <= i < |order| ==> order[i].up == ps[i] && order[i].down == ps[i + 1]
  }

  /** Some section of the list runs from `x` to `y`. */
  ghost predicate Joined(secs: seq<Section>, x: Station, y: Station)
  {
    exists c :: c in secs && c.up == x && c.down == y
  }

  /** A non-empty chain of consecutive sections that never revisits a station. */
  ghost predicate IsChain(order: seq<Section>)
  {
    |order| > 0 && Spans(order, Stations(order)) && Distinct(Stations(order))
  }

  /** `order` is the list `secs` rearranged into a simple path. */
  ghost predicate IsPathOrder(secs: seq<Section>, order: seq<Section>)
  {
    IsChain(order) && multiset(order) == multiset(secs)
  }

  /** The line's global invariant: its sections form exactly one simple path. */
  ghost predicate SinglePath(secs: seq<Section>)
  {
    exists order :: IsPathOrder(secs, order)
  }

  /** A chain is determined by the stations it spans. */
  lemma ChainFrom(order: seq<Section>, ps: seq<Station>)
    requires |order| > 0 && Spans(order, ps) && Distinct(ps)
    ensures IsChain(order) && Stations(order) == ps
  {
    var st := Stations(order);
    assert |st| == |ps|;
    forall i | 0 <= i < |ps| ensures st[i] == ps[i] {
      if i > 0 {
        assert st[i] == Downs(order)[i - 1] == order[i - 1].down;
      }
    }
  }

  /** In a chain, the only section that starts at station `k` is section `k`. */
  lemma StartsAt(order: seq<Section>, c: Section, k: nat)
    requires IsChain(order) && c in order && k <= |order| && c.up == Stations(order)[k]
    ensures k < |order| && c == order[k]
  {
    var ps := Stations(order);
    var j :| 0 <= j < |order| && order[j] == c;
    assert ps[j] == c.up;
    DistinctIndex(ps, j, k);
  }

  /** In a chain, the only section that ends at station `k` is section `k - 1`. */
  lemma EndsAt(order: seq<Section>, c: Section, k: nat)
    requires IsChain(order) && c in order && k <= |order| && c.down == Stations(order)[k]
    ensures 0 < k && c == order[k - 1]
  {
    var ps := Stations(order);
    var j :| 0 <= j < |order| && order[j] == c;
    assert ps[j + 1] == c.down;
    DistinctIndex(ps, j + 1, k);
  }

  /** A station is on the line exactly when the path visits it. */
  lemma OnLineIffVisited(secs: seq<Section>, order: seq<Section>, x: Station)
    requires IsPathOrder(secs, order)
    ensures OnLine(secs, x) <==> x in Stations(order)
  {
    var ps := Stations(order);
    if OnLine(secs, x) {
      var c :| c in secs && c.HaveStation(x);
      assert c in multiset(order);
      var j :| 0 <= j < |order| && order[j] == c;
      assert x == ps[j] || x == ps[j + 1];
    }
    if x in ps {
      var k :| 0 <= k < |ps| && ps[k] == x;
      if k < |order| {
        assert order[k] in multiset(secs);
        assert order[k].HaveStation(x);
      } else {
        assert order[k - 1] in multiset(secs);
        assert order[k - 1].HaveStation(x);
      }
    }
  }

  /** A path never repeats a section, so each of its sections occurs once in the list. */
  lemma PathSectionsOnce(secs: seq<Section>, order: seq<Section>)
    requires IsPathOrder(secs, order)
    ensures forall c :: c in secs ==> multiset(secs)[c] == 1
  {
    assert Distinct(order) by {
      forall i, j | 0 <= i < j < |order| ensures order[i] != order[j] {
        assert order[i].up == Stations(order)[i] && order[j].up == Stations(order)[j];
      }
    }
    DistinctCountsOnce(order);
  }

  /** Section `i` of the list, located in the path order. */
  lemma Locate(secs: seq<Section>, order: seq<Section>, i: nat) returns (j: nat)
    requires IsPathOrder(secs, order) && i < |secs|
    ensures j < |order| && order[j] == secs[i]
    ensures secs[i].up == Stations(order)[j] && secs[i].down == Stations(order)[j + 1]
  {
    assert secs[i] in multiset(order);
    j :| 0 <= j < |order| && order[j] == secs[i];
  }

  /** Section `j` of the path order, located in the list. */
  lemma Find(secs: seq<Section>, order: seq<Section>, j: nat) returns (i: nat)
    requires IsPathOrder(secs, order) && j < |order|
    ensures i < |secs| && secs[i] == order[j]
    ensures Ups(secs)[i] == Stations(order)[j] && Downs(secs)[i] == Stations(order)[j + 1]
  {
    assert order[j] in multiset(secs);
    i :| 0 <= i < |secs| && secs[i] == order[j];
  }

  /** The up stations of the list are the path's stations but the last; the down stations, all but the first. */
  lemma UpsAndDowns(secs: seq<Section>, order: seq<Section>, x: Station)
    requires IsPathOrder(secs, order)
    ensures x in Ups(secs) <==> x in Stations(order)[..|order|]
    ensures x in Downs(secs) <==> x in Stations(order)[1..]
  {
    UpsOfPath(secs, order, x);
    DownsOfPath(secs, order, x);
  }

  lemma UpsOfPath(secs: seq<Section>, order: seq<Section>, x: Station)
    requires IsPathOrder(secs, order)
    ensures x in Ups(secs) <==> x in Stations(order)[..|order|]
  {
    var ps := Stations(order);
    var n := |order|;
    if x in Ups(secs) {
      var i :| 0 <= i < |secs| && Ups(secs)[i] == x;
      var j := Locate(secs, order, i);
      assert ps[..n][j] == x;
    }
    if x in ps[..n] {
      var j :| 0 <= j < n && ps[..n][j] == x;
      var i := Find(secs, order, j);
      assert Ups(secs)[i] == x;
    }
  }

  lemma DownsOfPath(secs: seq<Section>, order: seq<Section>, x: Station)
    requires IsPathOrder(secs, order)
    ensures x in Downs(secs) <==> x in Stations(order)[1..]
  {
    var ps := Stations(order);
    var n := |order|;
    if x in Downs(secs) {
      var i :| 0 <= i < |secs| && Downs(secs)[i] == x;
      var j := Locate(secs, order, i);
      assert ps[1..][j] == x;
    }
    if x in ps[1..] {
      var j :| 0 <= j < n && ps[1..][j] == x;
      var i := Find(secs, order, j);
      assert Downs(secs)[i] == x;
    }
  }

  /** The path's first station is the first up station that is no down station. */
  lemma FirstStationIsStart(secs: seq<Section>, order: seq<Section>)
    requires IsPathOrder(secs, order)
    ensures FindFirstStation(Ups(secs), Downs(secs)) == Some(Stations(order)[0])
  {
    var ps := Stations(order);
    var n := |order|;
    UpsAndDowns(secs, order, ps[0]);
    assert ps[..n][0] == ps[0];
    assert ps[0] !in ps[1..];
    var r := FindFirstStation(Ups(secs), Downs(secs));
    UpsAndDowns(secs, order, r.value);
    var k :| 0 <= k < n && ps[..n][k] == r.value;
    if k > 0 {
      assert ps[1..][k - 1] == r.value;
    }
  }

  /** The path's last station is the first down station that is no up station. */
  lemma EndStationIsEnd(secs: seq<Section>, order: seq<Section>)
    requires IsPathOrder(secs, order)
    ensures FindEndStation(Ups(secs), Downs(secs)) == Some(Stations(order)[|order|])
  {
    var ps := Stations(order);
    var n := |order|;
    UpsAndDowns(secs, order, ps[n]);
    assert ps[1..][n - 1] == ps[n];
    assert ps[n] !in ps[..n];
    var r := FindEndStation(Ups(secs), Downs(secs));
    UpsAndDowns(secs, order, r.value);
    var k :| 0 <= k < n && ps[1..][k] == r.value;
  }

  /** Walking forward: the section found to start at station `k` is section `k`. */
  lemma NextSection(secs: seq<Section>, order: seq<Section>, k: nat)
    requires IsPathOrder(secs, order) && k < |order|
    ensures FindSectionByUp(secs, Stations(order)[k]) == Some(order[k])
  {
    var r := FindSectionByUp(secs, Stations(order)[k]);
    assert order[k] in multiset(secs);
    assert r.Some?;
    assert r.value in multiset(order);
    StartsAt(order, r.value, k);
  }

  /** Two path orders of the same sections agree up to station `k`, by walking both from the common start. */
  lemma {:induction false} SameStationAt(secs: seq<Section>, o1: seq<Section>, o2: seq<Section>, k: nat)
    requires IsPathOrder(secs, o1) && IsPathOrder(secs, o2) && k <= |o1|
    ensures |o1| == |o2| && Stations(o1)[k] == Stations(o2)[k]
  {
    assert |o1| == |multiset(o1)| == |multiset(o2)| == |o2|;
    if k == 0 {
      FirstStationIsStart(secs, o1);
      FirstStationIsStart(secs, o2);
    } else {
      SameStationAt(secs, o1, o2, k - 1);
      NextSection(secs, o1, k - 1);
      NextSection(secs, o2, k - 1);
    }
  }

  /** The stations of a single path are fixed by its sections, whatever order witnesses it. */
  lemma PathStationsUnique(secs: seq<Section>, o1: seq<Section>, o2: seq<Section>)
    requires IsPathOrder(secs, o1) && IsPathOrder(secs, o2)
    ensures Stations(o1) == Stations(o2)
  {
    SameStationAt(secs, o1, o2, 0);
    forall k | 0 <= k < |Stations(o1)| ensures Stations(o1)[k] == Stations(o2)[k] {
      SameStationAt(secs, o1, o2, k);
    }
  }

  /** A single path visits one station more than it has sections, and exactly the stations on the line. */
  lemma PathVisitsLine(secs: seq<Section>, order: seq<Section>)
    requires IsPathOrder(secs, order)
    ensures |Stations(order)| == |secs| + 1
    ensures forall x :: x in Stations(order) <==> OnLine(secs, x)
  {
    assert |order| == |multiset(order)| == |secs|;
    forall x ensures x in Stations(order) <==> OnLine(secs, x) {
      OnLineIffVisited(secs, order, x);
    }
  }

  /** A single path runs from the one station no section ends at to the one station no section starts at. */
  lemma PathTermini(secs: seq<Section>, order: seq<Section>)
    requires IsPathOrder(secs, order)
    ensures Stations(order)[0] in Ups(secs) && Stations(order)[0] !in Downs(secs)
    ensures Stations(order)[|order|] in Downs(secs) && Stations(order)[|order|] !in Ups(secs)
  {
    FirstStationIsStart(secs, order);
    EndStationIsEnd(secs, order);
  }

  /** Neighbouring stations of a single path are joined by a section of the line. */
  lemma PathNeighbours(secs: seq<Section>, order: seq<Section>)
    requires IsPathOrder(secs, order)
    ensures forall i :: 0 <= i < |order| ==> Joined(secs, Stations(order)[i], Stations(order)[i + 1])
  {
    forall i | 0 <= i < |order| ensures Joined(secs, Stations(order)[i], Stations(order)[i + 1]) {
      assert order[i] in multiset(secs);
    }
  }

  /** Extending a chain by a section ending at its first station, coming from a new station. */
  lemma ChainPrepend(order: seq<Section>, s: Section)
    requires IsChain(order) && s.down == Stations(order)[0] && s.up !in Stations(order)
    ensures IsChain([s] + order) && Stations([s] + order) == [s.up] + Stations(order)
  {
    var ps := Stations(order);
    var no := [s] + order;
    var nps := [s.up] + ps;
    assert nps == ps[..0] + [s.up] + ps[0..];
    DistinctInsert(ps, 0, s.up);
    forall i | 0 <= i < |no| ensures no[i].up == nps[i] && no[i].down == nps[i + 1] {
      if i > 0 {
        assert no[i] == order[i - 1];
      }
    }
    ChainFrom(no, nps);
  }

  /** Extending a chain by a section starting at its last station, going to a new station. */
  lemma ChainAppend(order: seq<Section>, s: Section)
    requires IsChain(order) && s.up == Stations(order)[|order|] && s.down !in Stations(order)
    ensures IsChain(order + [s]) && Stations(order + [s]) == Stations(order) + [s.down]
  {
    var ps := Stations(order);
    var no := order + [s];
    var nps := ps + [s.down];
    assert nps == ps[..|ps|] + [s.down] + ps[|ps|..];
    DistinctInsert(ps, |ps|, s.down);
    forall i | 0 <= i < |no| ensures no[i].up == nps[i] && no[i].down == nps[i + 1] {
      if i < |order| {
        assert no[i] == order[i];
      }
    }
    ChainFrom(no, nps);
  }

  /** Replacing section `k` of a chain by two sections through a new station. */
  lemma ChainSplit(order: seq<Section>, k: nat, left: Section, right: Section)
    requires IsChain(order) && k < |order|
    requires left.up == Stations(order)[k] && right.down == Stations(order)[k + 1]
    requires left.down == right.up && left.down !in Stations(order)
    ensures var no := order[..k] + [left, right] + order[k + 1..];
      IsChain(no) && Stations(no) == Stations(order)[..k + 1] + [left.down] + Stations(order)[k + 1..]
  {
    var ps := Stations(order);
    var no := order[..k] + [left, right] + order[k + 1..];
    var nps := ps[..k + 1] + [left.down] + ps[k + 1..];
    DistinctInsert(ps, k + 1, left.down);
    assert |no| == |order| + 1;
    forall i | 0 <= i < |no| ensures no[i].up == nps[i] && no[i].down == nps[i + 1] {
      if i < k {
        assert no[i] == order[i];
      } else if i == k {
        assert no[i] == left;
      } else if i == k + 1 {
        assert no[i] == right;
      } else {
        assert no[i] == order[i - 1];
      }
    }
    ChainFrom(no, nps);
  }

  /** Dropping the first section of a chain of two or more. */
  lemma ChainDropFirst(order: seq<Section>)
    requires IsChain(order) && |order| >= 2
    ensures IsChain(order[1..]) && Stations(order[1..]) == Stations(order)[1..]
  {
    var ps := Stations(order);
    var no, nps := order[1..], ps[1..];
    assert nps == ps[..0] + ps[0 + 1..];
    DistinctDrop(ps, 0);
    forall i | 0 <= i < |no| ensures no[i].up == nps[i] && no[i].down == nps[i + 1] {
      assert no[i] == order[i + 1];
    }
    ChainFrom(no, nps);
  }

  /** Dropping the last section of a chain of two or more. */
  lemma ChainDropLast(order: seq<Section>)
    requires IsChain(order) && |order| >= 2
    ensures var n := |order|;
      IsChain(order[..n - 1]) && Stations(order[..n - 1]) == Stations(order)[..n]
  {
    var n := |order|;
    var ps := Stations(order);
    assert ps[..n] == ps[..n] + ps[n + 1..];
    DistinctDrop(ps, n);
    var no, nps := order[..n - 1], ps[..n];
    forall i | 0 <= i < |no| ensures no[i].up == nps[i] && no[i].down == nps[i + 1] {
      assert no[i] == order[i];
    }
    ChainFrom(no, nps);
  }

  /** Replacing sections `k - 1` and `k` of a chain by one section that skips station `k`. */
  lemma ChainMerge(order: seq<Section>, k: nat, merged: Section)
    requires IsChain(order) && 0 < k < |order|
    requires merged.up == Stations(order)[k - 1] && merged.down == Stations(order)[k + 1]
    ensures var no := order[..k - 1] + [merged] + order[k + 1..];
      IsChain(no) && Stations(no) == Stations(order)[..k] + Stations(order)[k + 1..]
  {
    var ps := Stations(order);
    var no := order[..k - 1] + [merged] + order[k + 1..];
    var nps := ps[..k] + ps[k + 1..];
    DistinctDrop(ps, k);
    assert |no| == |order| - 1;
    forall i | 0 <= i < |no| ensures no[i].up == nps[i] && no[i].down == nps[i + 1] {
      if i < k - 1 {
        assert no[i] == order[i];
      } else if i == k - 1 {
        assert no[i] == merged;
      } else {
        assert no[i] == order[i + 1];
      }
    }
    ChainFrom(no, nps);
  }
}
