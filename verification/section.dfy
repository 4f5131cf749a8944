/**
 * A section of a subway line: a directed edge from an up station to a down
 * station with a length. Sections are values; splitting and merging build new
 * ones, and every construction checks that the length is positive.
 */
module SectionValue {

  /** Stations are opaque identifiers compared by equality. */
  type Station = int

  /** The failures the line's domain raises (as exceptions in the original). */
  datatype Error =
    | InvalidSegment       // a length that is not positive
    | DisjointSegments     // `combine` with a station that is not on both sections
    | DisconnectedSegment  // `add` of a section that touches no station of the line
    | DuplicateSegment     // `add` of a section whose two stations are both on the line
    | SegmentTooLong       // `add` that would split a section that is not longer
    | StationNotInLine     // `delete` of a station that no section touches
    | SingleSegmentLine    // `delete` on a line that has one section
    | EmptySections        // a line built from no sections

  datatype Result<T> = Ok(value: T) | Err(error: Error)

  /** Equality of sections is equality of (up, down, distance); the persisted id is not modelled. */
  datatype Section = Section(up: Station, down: Station, distance: int)
  {
    /** What every constructed section satisfies. */
    predicate Valid() { distance > 0 }

    predicate IsSameUpStation(station: Station) { up == station }

    predicate IsSameDownStation(station: Station) { down == station }

    predicate HaveStation(station: Station) { IsSameUpStation(station) || IsSameDownStation(station) }

    /** `section`'s up station is one of this section's endpoints. */
    predicate HaveUpStation(section: Section) { IsSameUpStation(section.up) || IsSameDownStation(section.up) }

    /** `section`'s down station is one of this section's endpoints. */
    predicate HaveDownStation(section: Section) { IsSameUpStation(section.down) || IsSameDownStation(section.down) }

    predicate HaveAnyStation(section: Section) { HaveUpStation(section) || HaveDownStation(section) }

    /** Same up station, or same down station, as `section`. */
    predicate IsSameUpOrDownStation(section: Section)
    {
      IsSameUpStation(section.up) || IsSameDownStation(section.down)
    }

    predicate IsShortAndEqualDistanceThan(section: Section) { distance <= section.distance }

    /**
     * What is left of this section once `insert` is carved out of it. When both
     * end at the same station the remainder runs from this section's up station to
     * `insert`'s up station; otherwise from `insert`'s down station to this
     * section's down station. Fails when nothing positive is left.
     */
    function Slice(insert: Section): (r: Result<Section>)
      ensures r.Err? <==> distance <= insert.distance
      ensures r.Err? ==> r.error == InvalidSegment
      ensures r.Ok? ==> r.value.Valid() && r.value.distance + insert.distance == distance
      ensures r.Ok? && insert.down == down ==> r.value.up == up && r.value.down == insert.up
      ensures r.Ok? && insert.down != down ==> r.value.up == insert.down && r.value.down == down
    {
      if IsSameDownStation(insert.down) then NewSection(up, insert.up, distance - insert.distance)
      else NewSection(insert.down, down, distance - insert.distance)
    }

    /**
     * Merges this section with `target` at `connect`: the result keeps the outer
     * stations and the summed length. Fails unless `connect` is an endpoint of both.
     */
    function Combine(target: Section, connect: Station): (r: Result<Section>)
      ensures !HaveStation(connect) || !target.HaveStation(connect) ==> r == Err(DisjointSegments)
      ensures HaveStation(connect) && target.HaveStation(connect) ==>
                (r.Ok? <==> distance + target.distance > 0)
      ensures r.Ok? ==> r.value.Valid() && r.value.distance == distance + target.distance
      ensures r.Ok? && down == connect ==> r.value.up == up && r.value.down == target.down
      ensures r.Ok? && down != connect ==> r.value.up == target.up && r.value.down == down
    {
      if !HaveStation(connect) || !target.HaveStation(connect) then Err(DisjointSegments)
      else if IsSameDownStation(connect) then NewSection(up, target.down, distance + target.distance)
      else NewSection(target.up, down, distance + target.distance)
    }
  }

  /** The constructor: a section exists exactly when its length is positive, and then holds its arguments. */
  function NewSection(up: Station, down: Station, distance: int): (r: Result<Section>)
    ensures r.Ok? <==> distance > 0
    ensures r.Err? ==> r.error == InvalidSegment
    ensures r.Ok? ==> r.value.Valid() && r.value.up == up && r.value.down == down && r.value.distance == distance
  {
    if distance <= 0 then Err(InvalidSegment) else Ok(Section(up, down, distance))
  }

  /** The tests of one station against a section: its up end, its down end, or either end. */
  lemma StationTests(c: Section, x: Station)
    ensures c.IsSameUpStation(x) <==> x == c.up
    ensures c.IsSameDownStation(x) <==> x == c.down
    ensures c.HaveStation(x) <==> x in {c.up, c.down}
  {
  }

  /**
   * The tests of one section against another: whether one of its stations is an
   * endpoint here, and whether both start or both end at the same station. Sharing
   * a station and sharing an up or a down station are symmetric, and sharing an
   * up or a down station is a way of sharing a station.
   */
  lemma SharedStationTests(c: Section, s: Section)
    ensures c.HaveUpStation(s) <==> c.HaveStation(s.up)
    ensures c.HaveDownStation(s) <==> c.HaveStation(s.down)
    ensures c.HaveAnyStation(s) <==> s.HaveAnyStation(c)
    ensures c.HaveAnyStation(s) <==> {c.up, c.down} * {s.up, s.down} != {}
    ensures c.IsSameUpOrDownStation(s) <==> s.IsSameUpOrDownStation(c)
    ensures c.IsSameUpOrDownStation(s) ==> c.HaveAnyStation(s)
  {
    var shared := {c.up, c.down} * {s.up, s.down};
    if c.HaveUpStation(s) {
      assert s.up in shared;
    } else if c.HaveDownStation(s) {
      assert s.down in shared;
    }
  }

  /**
   * A section is "short and equal" against another exactly when that other cannot
   * be carved out of it; of two sections, at least one is short and equal against
   * the other.
   */
  lemma TooShortIffNoSlice(c: Section, s: Section)
    ensures c.IsShortAndEqualDistanceThan(s) <==> c.Slice(s).Err?
    ensures c.IsShortAndEqualDistanceThan(s) || s.IsShortAndEqualDistanceThan(c)
  {
  }

  /** Merging two consecutive sections and then carving either one back out gives the other one. */
  lemma CombineThenSlice(a: Section, b: Section)
    requires a.Valid() && b.Valid()
    requires a.down == b.up && b.up != b.down
    ensures a.Combine(b, a.down).Ok?
    ensures a.Combine(b, a.down).value.Slice(a) == Ok(b)
    ensures a.Combine(b, a.down).value.Slice(b) == Ok(a)
  {
    var c := a.Combine(b, a.down).value;
    assert c == Section(a.up, b.down, a.distance + b.distance);
  }

  /** Carving `insert` out of a longer section it shares an end with, and merging the two pieces back, restores the section. */
  lemma SliceThenCombine(whole: Section, insert: Section)
    requires insert.Valid() && insert.distance < whole.distance
    requires insert.up == whole.up || insert.down == whole.down
    ensures whole.Slice(insert).Ok?
    ensures insert.down == whole.down ==> whole.Slice(insert).value.Combine(insert, insert.up) == Ok(whole)
    ensures insert.down != whole.down ==> insert.Combine(whole.Slice(insert).value, insert.down) == Ok(whole)
  {
  }
}
