/**
 * The sections of one subway line, held in a mutable list. `Add` and `Delete`
 * edit the list in place, step by step as the line's domain object does, and
 * either succeed or report the error that the original raises, leaving the
 * list untouched. Each edit is proved to compute the list that `Insert` or
 * `RemoveStation` specifies and to keep the line one simple path; the station
 * ordering walks that path from its start to its end.
 */
module LineSections {
  import opened Lists
  import opened SectionValue
  import opened Topology
  import opened Path
  import opened PathEdits

  /** How a state-changing call ends: normally, or with the error that the original throws. */
  datatype Outcome = Done | Fail(error: Error)

  class Sections {
    var sections: seq<Section>

    /** A line never has an empty list, and every section in it has a positive length. */
    ghost predicate Valid()
      reads this
    {
      |sections| > 0 && AllValid(sections)
    }

    /** A line built from a non-empty list of sections keeps a copy of it. */
    constructor (list: seq<Section>)
      requires |list| > 0 && AllValid(list)
      ensures Valid() && sections == list
    {
      sections := list;
    }

    /** A line of one section. */
    constructor Single(s: Section)
      requires s.Valid()
      ensures Valid() && sections == [s]
    {
      sections := [s];
    }

    /** Building a line from a list: an empty list is refused. */
    static method Create(list: seq<Section>) returns (r: Result<Sections>)
      requires AllValid(list)
      ensures r.Err? <==> |list| == 0
      ensures r.Err? ==> r.error == EmptySections
      ensures r.Ok? ==> fresh(r.value) && r.value.Valid() && r.value.sections == list
    {
      if |list| == 0 {
        return Err(EmptySections);
      }
      var line := new Sections(list);
      return Ok(line);
    }

    /**
     * `add`: the connectable sections are gathered and checked, then `s` is
     * either carved into the section sharing its up or down station (that
     * section is removed and `s` and the remainder appended) or appended.
     */
    method Add(s: Section) returns (outcome: Outcome)
      requires Valid() && s.Valid()
      modifies this
      ensures Valid()
      ensures Insert(old(sections), s).Ok? ==> outcome == Done && sections == Insert(old(sections), s).value
      ensures Insert(old(sections), s).Err? ==> outcome == Fail(Insert(old(sections), s).error) && sections == old(sections)
      ensures old(SinglePath(sections)) ==> SinglePath(sections)
    {
      ghost var before := sections;
      var connectable := Connectable(sections, s);
      if |connectable| == 0 {
        return Fail(DisconnectedSegment);
      }
      if AnyHaveUpStation(connectable, s) && AnyHaveDownStation(connectable, s) {
        return Fail(DuplicateSegment);
      }
      match FindSameUpOrDown(connectable, s) {
        case None =>
          sections := sections + [s];
        case Some(origin) =>
          if origin.IsShortAndEqualDistanceThan(s) {
            return Fail(SegmentTooLong);
          }
          AddMiddleSection(origin, s);
      }
      outcome := Done;
      if SinglePath(before) {
        InsertKeepsPath(before, s);
      }
    }

    /**
     * `addMiddleSection`: `origin` gives way to `insert` followed by what is
     * left of `origin` once `insert` is carved out of it.
     */
    method AddMiddleSection(origin: Section, insert: Section)
      requires insert.distance < origin.distance
      modifies this
      ensures sections == RemoveFirst(old(sections), origin) + [insert, origin.Slice(insert).value]
    {
      sections := RemoveFirst(sections, origin);
      sections := sections + [insert];
      sections := sections + [origin.Slice(insert).value];
    }

    /**
     * `delete`: the sections touching `station` are gathered and checked; two
     * of them are replaced by their merge, and the first of them is removed in
     * every case (a second time after a merge, which then finds nothing).
     */
    method Delete(station: Station) returns (outcome: Outcome)
      requires Valid()
      modifies this
      ensures Valid()
      ensures RemoveStation(old(sections), station).Ok? ==> outcome == Done && sections == RemoveStation(old(sections), station).value
      ensures RemoveStation(old(sections), station).Err? ==>
                outcome == Fail(RemoveStation(old(sections), station).error) && sections == old(sections)
      ensures old(SinglePath(sections)) ==> SinglePath(sections)
    {
      ghost var before := sections;
      var removable := Removable(sections, station);
      if |removable| == 0 {
        return Fail(StationNotInLine);
      }
      if |sections| == 1 {
        return Fail(SingleSegmentLine);
      }
      if |removable| == 2 {
        match removable[0].Combine(removable[1], station) {
          case Err(e) =>
            return Fail(e);
          case Ok(merged) =>
            RemoveInMiddle(removable[0], removable[1], merged);
        }
      }
      sections := RemoveFirst(sections, removable[0]);
      RemoveCases(before, station);
      outcome := Done;
      if SinglePath(before) {
        RemoveKeepsPath(before, station);
      }
    }

    /** `removeInMiddle`: the merge of the two sections is appended, then each of them is removed. */
    method RemoveInMiddle(first: Section, second: Section, merged: Section)
      modifies this
      ensures sections == RemoveFirst(RemoveFirst(old(sections) + [merged], first), second)
    {
      sections := sections + [merged];
      sections := RemoveFirst(sections, first);
      sections := RemoveFirst(sections, second);
    }

    /** `getDifferentList`: this line's sections that `other` does not have, in this line's order. */
    method GetDifferentList(other: Sections) returns (r: seq<Section>)
      ensures forall c :: c in r <==> c in sections && c !in other.sections
      ensures forall c :: multiset(r)[c] == if c in other.sections then 0 else multiset(sections)[c]
      ensures r == Without(sections, other.sections)
    {
      r := Without(sections, other.sections);
    }

    /**
     * `getSortedStations`: the two termini are found from the up and down
     * stations, then the path between them is walked.
     */
    method GetSortedStations() returns (r: seq<Station>)
      requires SinglePath(sections)
      ensures forall order :: IsPathOrder(sections, order) ==> r == Stations(order)
      ensures |r| == |sections| + 1 && Distinct(r)
      ensures forall x :: x in r <==> OnLine(sections, x)
      ensures r[0] in Ups(sections) && r[0] !in Downs(sections)
      ensures r[|r| - 1] in Downs(sections) && r[|r| - 1] !in Ups(sections)
      ensures forall i :: 0 <= i < |r| - 1 ==> Joined(sections, r[i], r[i + 1])
    {
      var ups := Ups(sections);
      var downs := Downs(sections);
      ghost var order :| IsPathOrder(sections, order);
      FirstStationIsStart(sections, order);
      EndStationIsEnd(sections, order);
      var first := FindFirstStation(ups, downs).value;
      var end := FindEndStation(ups, downs).value;
      r := SortStations(first, end, order);
      PathVisitsLine(sections, order);
      PathTermini(sections, order);
      PathNeighbours(sections, order);
      forall o | IsPathOrder(sections, o) ensures r == Stations(o) {
        PathStationsUnique(sections, order, o);
      }
    }

    /**
     * `sortStations`: starting from the up terminus, each section's down
     * station is appended, following the section that starts there, until the
     * section ending at the down terminus; that terminus closes the list.
     */
    method SortStations(first: Station, end: Station, ghost order: seq<Section>) returns (r: seq<Station>)
      requires IsPathOrder(sections, order)
      requires first == Stations(order)[0] && end == Stations(order)[|order|]
      ensures r == Stations(order)
    {
      ghost var ps := Stations(order);
      r := [first];
      NextSection(sections, order, 0);
      var target := FindSectionByUp(sections, first).value;
      ghost var k := 0;
      while !target.IsSameDownStation(end)
        invariant k < |order| && target == order[k]
        invariant r == ps[..k + 1]
        decreases |order| - k
      {
        r := r + [target.down];
        assert target.down == ps[k + 1];
        k := k + 1;
        NextSection(sections, order, k);
        target := FindSectionByUp(sections, target.down).value;
      }
      assert target.down == ps[k + 1];
      DistinctIndex(ps, k + 1, |order|);
      r := r + [end];
    }

    /** `copy`: a new line holding the same sections. */
    method Copy() returns (c: Sections)
      requires Valid()
      ensures fresh(c) && c.Valid() && c.sections == sections
    {
      c := new Sections(sections);
    }
  }
}
