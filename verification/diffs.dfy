/**
 * What `getDifferentList` reports once a line has been edited, in both
 * directions: the sections the edited line has and the old one lacks (the rows
 * to store), and the sections the old line has and the edited one lacks (the
 * rows to delete). An insertion stores the new section, plus the remainder when
 * it was carved into a section, and deletes only that section. A station removal
 * deletes exactly the sections touching the station and stores only their merge.
 */
module LineDiffs {
  import opened Lists
  import opened SectionValue
  import opened Topology
  import opened Path
  import opened PathEdits

  /** Nothing survives `removeAll` of a list that holds every element. */
  lemma WithoutCovered<T(!new)>(s: seq<T>, t: seq<T>)
    requires forall x :: x in s ==> x in t
    ensures Without(s, t) == []
  {
    if |Without(s, t)| > 0 {
      assert Without(s, t)[0] in Without(s, t);
    }
  }

  /** `removeAll` on a one-element list. */
  lemma WithoutOne<T(!new)>(x: T, t: seq<T>)
    requires x !in t
    ensures Without([x], t) == [x]
  {
    assert [x][1..] == [];
  }

  /**
   * Filtering out the sections another list holds is filtering out the sections
   * at `station`, when the other list holds exactly those not at `station`.
   */
  lemma {:induction false} FilterAgree(secs: seq<Section>, t: seq<Section>, station: Station)
    requires forall c :: c in secs ==> (c in t <==> !c.HaveStation(station))
    ensures Without(secs, t) == Removable(secs, station)
  {
    if |secs| > 0 {
      assert secs[0] in secs;
      assert forall c :: c in secs[1..] ==> c in secs;
      FilterAgree(secs[1..], t, station);
    }
  }

  /** Neither the inserted section nor the remainder carved for it was on the line, since each has the new station. */
  lemma NewPieces(secs: seq<Section>, s: Section)
    requires Insert(secs, s).Ok?
    ensures s !in secs
    ensures var found := FindSameUpOrDown(Connectable(secs, s), s);
      found.Some? ==> found.value.Slice(s).value !in secs
  {
    InsertCases(secs, s);
    if s in secs {
      assert OnLine(secs, s.up) && OnLine(secs, s.down);
    }
  }

  /** Extending a line by a section it lacks stores that section alone. */
  lemma AppendDiff(secs: seq<Section>, s: Section)
    requires s !in secs
    ensures Without(secs + [s], secs) == [s]
  {
    WithoutConcat(secs, [s], secs);
    WithoutCovered(secs, secs);
    WithoutOne(s, secs);
  }

  /** Replacing a section of the line by two sections it lacks stores those two, in order. */
  lemma CarveDiff(secs: seq<Section>, o: Section, s: Section, rest: Section)
    requires s !in secs && rest !in secs
    ensures Without(RemoveFirst(secs, o) + [s, rest], secs) == [s, rest]
  {
    var kept := RemoveFirst(secs, o);
    WithoutConcat(kept, [s, rest], secs);
    WithoutCovered(kept, secs);
    assert [s, rest] == [s] + [rest];
    WithoutConcat([s], [rest], secs);
    WithoutOne(s, secs);
    WithoutOne(rest, secs);
  }

  /**
   * The rows an insertion stores: the new section alone when it extends the
   * line, or the new section and the remainder of the section it was carved
   * out of, in that order.
   */
  lemma InsertDiffAdded(secs: seq<Section>, s: Section)
    requires Insert(secs, s).Ok?
    ensures var found, r := FindSameUpOrDown(Connectable(secs, s), s), Insert(secs, s).value;
      && (found.None? ==> Without(r, secs) == [s])
      && (found.Some? ==> exists rest :: SplitInto(found.value, s, rest) && Without(r, secs) == [s, rest])
  {
    InsertCases(secs, s);
    NewPieces(secs, s);
    match FindSameUpOrDown(Connectable(secs, s), s)
    case None =>
      AppendDiff(secs, s);
    case Some(o) =>
      var rest := o.Slice(s).value;
      assert SplitInto(o, s, rest);
      CarveDiff(secs, o, s, rest);
  }

  /** When the other list lacks just one element of `s`, and `s` holds it once, `removeAll` leaves that element alone. */
  lemma OnlyMissing<T(!new)>(s: seq<T>, t: seq<T>, x: T)
    requires multiset(s)[x] == 1 && x !in t
    requires forall y :: y in s && y != x ==> y in t
    ensures Without(s, t) == [x]
  {
    var w := Without(s, t);
    forall y ensures multiset(w)[y] == multiset{x}[y] {
    }
    SingletonOf(w, x);
  }

  /** Replacing a section that occurs once by two sections the line lacks deletes that section alone. */
  lemma CarveDiffRemoved(secs: seq<Section>, o: Section, s: Section, rest: Section)
    requires multiset(secs)[o] == 1 && s !in secs && rest !in secs
    ensures Without(secs, RemoveFirst(secs, o) + [s, rest]) == [o]
  {
    var kept := RemoveFirst(secs, o);
    assert multiset(kept) + multiset{o} == multiset(secs);
    assert multiset(kept)[o] == 0 by {
      assert (multiset(kept) + multiset{o})[o] == multiset(secs)[o];
    }
    forall y | y in secs && y != o ensures y in kept + [s, rest] {
      assert (multiset(kept) + multiset{o})[y] == multiset(secs)[y];
      assert y in kept;
    }
    OnlyMissing(secs, kept + [s, rest], o);
  }

  /**
   * The rows an insertion into a single path deletes: none when the new section
   * extends the line, or just the section it was carved out of.
   */
  lemma InsertDiffRemoved(secs: seq<Section>, s: Section)
    requires SinglePath(secs) && Insert(secs, s).Ok?
    ensures var found, r := FindSameUpOrDown(Connectable(secs, s), s), Insert(secs, s).value;
      && (found.None? ==> Without(secs, r) == [])
      && (found.Some? ==> Without(secs, r) == [found.value])
  {
    InsertCases(secs, s);
    match FindSameUpOrDown(Connectable(secs, s), s)
    case None =>
      WithoutCovered(secs, secs + [s]);
    case Some(o) =>
      var order :| IsPathOrder(secs, order);
      PathSectionsOnce(secs, order);
      NewPieces(secs, s);
      CarveDiffRemoved(secs, o, s, o.Slice(s).value);
  }

  /** After a successful removal from a single path, no section of the line touches the station. */
  lemma RemoveStationGone(secs: seq<Section>, station: Station)
    requires SinglePath(secs) && RemoveStation(secs, station).Ok?
    ensures !OnLine(RemoveStation(secs, station).value, station)
  {
    var order :| IsPathOrder(secs, order);
    var no, k := RemovePath(secs, order, station);
    var ps := Stations(order);
    var q := ps[..k] + ps[k + 1..];
    forall j | 0 <= j < |q| ensures q[j] != station {
      if j < k {
        assert q[j] == ps[j];
      } else {
        assert q[j] == ps[j + 1];
      }
    }
    OnLineIffVisited(RemoveStation(secs, station).value, no, station);
  }

  /** The rows a station removal from a single path deletes: exactly the sections touching the station, in list order. */
  lemma RemoveDiffRemoved(secs: seq<Section>, station: Station)
    requires AllValid(secs) && SinglePath(secs) && RemoveStation(secs, station).Ok?
    ensures Without(secs, RemoveStation(secs, station).value) == Removable(secs, station)
  {
    RemoveEffect(secs, station);
    RemoveStationGone(secs, station);
    var rem, r := Removable(secs, station), RemoveStation(secs, station).value;
    assert rem[0] in rem;
    forall c | c in secs ensures c in r <==> !c.HaveStation(station) {
      if c.HaveStation(station) {
      } else if |rem| == 2 {
        assert rem[1] in rem;
        var merged := rem[0].Combine(rem[1], station).value;
        assert (multiset(r) + multiset{rem[0], rem[1]})[c] == (multiset(secs) + multiset{merged})[c];
      } else {
        assert (multiset(r) + multiset{rem[0]})[c] == multiset(secs)[c];
      }
    }
    FilterAgree(secs, r, station);
  }

  /** Swapping two sections for a merge that occurs once in the result stores that merge alone. */
  lemma MergeDiff(secs: seq<Section>, r: seq<Section>, a: Section, b: Section, merged: Section)
    requires multiset(r) + multiset{a, b} == multiset(secs) + multiset{merged}
    requires merged != a && merged != b && multiset(r)[merged] == 1
    ensures Without(r, secs) == [merged]
  {
    assert (multiset(r) + multiset{a, b})[merged] == (multiset(secs) + multiset{merged})[merged];
    var w := Without(r, secs);
    forall x ensures multiset(w)[x] == multiset{merged}[x] {
      if x != merged && x in r {
        assert (multiset(r) + multiset{a, b})[x] == (multiset(secs) + multiset{merged})[x];
      }
    }
    SingletonOf(w, merged);
  }

  /** Dropping one section stores nothing. */
  lemma DropDiff(secs: seq<Section>, r: seq<Section>, a: Section)
    requires multiset(r) + multiset{a} == multiset(secs)
    ensures Without(r, secs) == []
  {
    forall x | x in r ensures x in secs {
      assert (multiset(r) + multiset{a})[x] == multiset(secs)[x];
    }
    WithoutCovered(r, secs);
  }

  /**
   * The rows a station removal from a single path stores: the merge of the two
   * sections at the station, or nothing when the station was a terminus.
   */
  lemma RemoveDiffAdded(secs: seq<Section>, station: Station)
    requires AllValid(secs) && SinglePath(secs) && RemoveStation(secs, station).Ok?
    ensures var rem, r := Removable(secs, station), RemoveStation(secs, station).value;
      && (|rem| == 2 ==> Without(r, secs) == [rem[0].Combine(rem[1], station).value])
      && (|rem| != 2 ==> Without(r, secs) == [])
  {
    RemoveEffect(secs, station);
    var rem, r := Removable(secs, station), RemoveStation(secs, station).value;
    if |rem| == 2 {
      var order :| IsPathOrder(secs, order);
      var no, k := RemovePath(secs, order, station);
      PathSectionsOnce(r, no);
      var merged := rem[0].Combine(rem[1], station).value;
      assert merged in r by {
        assert (multiset(r) + multiset{rem[0], rem[1]})[merged] >= 1;
        assert merged != rem[0] && merged != rem[1] by {
          assert rem[0] in rem && rem[1] in rem;
        }
      }
      MergeDiff(secs, r, rem[0], rem[1], merged);
    } else {
      DropDiff(secs, r, rem[0]);
    }
  }
}
