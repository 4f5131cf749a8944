/**
 * The queries over a line's list of sections (stream filters and maps in the
 * original) and the two edits, insertion and station removal, stated as
 * functions from the old list to the new one or to the error raised.
 */
module Topology {
  import opened Lists
  import opened SectionValue

  datatype Option<T> = None | Some(value: T)

  /** Every section in the list was built by the checking constructor. */
  predicate AllValid(secs: seq<Section>)
  {
    forall c :: c in secs ==> c.Valid()
  }

  /** Some section of the list has `station` as an endpoint. */
  predicate OnLine(secs: seq<Section>, station: Station)
  {
    exists c :: c in secs && c.HaveStation(station)
  }

  /** The up stations, in list order: one per section, and a station is listed exactly when some section starts there. */
  function Ups(secs: seq<Section>): (r: seq<Station>)
    ensures |r| == |secs|
    ensures forall x :: x in r <==> exists c :: c in secs && c.up == x
  {
    var r := seq(|secs|, i requires 0 <= i < |secs| => secs[i].up);
    assert forall x :: x in r <==> exists c :: c in secs && c.up == x by {
      forall x ensures x in r <==> exists c :: c in secs && c.up == x {
        if x in r {
          var i :| 0 <= i < |secs| && r[i] == x;
          assert secs[i] in secs;
        }
        if exists c :: c in secs && c.up == x {
          var c :| c in secs && c.up == x;
          var i :| 0 <= i < |secs| && secs[i] == c;
          assert r[i] == x;
        }
      }
    }
    r
  }

  /** The down stations, in list order: one per section, and a station is listed exactly when some section ends there. */
  function Downs(secs: seq<Section>): (r: seq<Station>)
    ensures |r| == |secs|
    ensures forall x :: x in r <==> exists c :: c in secs && c.down == x
  {
    var r := seq(|secs|, i requires 0 <= i < |secs| => secs[i].down);
    assert forall x :: x in r <==> exists c :: c in secs && c.down == x by {
      forall x ensures x in r <==> exists c :: c in secs && c.down == x {
        if x in r {
          var i :| 0 <= i < |secs| && r[i] == x;
          assert secs[i] in secs;
        }
        if exists c :: c in secs && c.down == x {
          var c :| c in secs && c.down == x;
          var i :| 0 <= i < |secs| && secs[i] == c;
          assert r[i] == x;
        }
      }
    }
    r
  }

  /** The length of the whole line. */
  function TotalDistance(secs: seq<Section>): (r: int)
  {
    if |secs| == 0 then 0 else secs[0].distance + TotalDistance(secs[1..])
  }

  lemma {:induction false} TotalDistanceConcat(a: seq<Section>, b: seq<Section>)
    ensures TotalDistance(a + b) == TotalDistance(a) + TotalDistance(b)
  {
    if |a| == 0 {
      assert a + b == b;
    } else {
      assert (a + b)[1..] == a[1..] + b;
      TotalDistanceConcat(a[1..], b);
    }
  }

  /** Removing a section of the list shortens the line by exactly that section's length. */
  lemma {:induction false} TotalDistanceRemoveFirst(secs: seq<Section>, x: Section)
    ensures x in secs ==> TotalDistance(RemoveFirst(secs, x)) == TotalDistance(secs) - x.distance
    ensures x !in secs ==> TotalDistance(RemoveFirst(secs, x)) == TotalDistance(secs)
  {
    if |secs| > 0 && secs[0] != x {
      TotalDistanceRemoveFirst(secs[1..], x);
      TotalDistanceConcat([secs[0]], RemoveFirst(secs[1..], x));
    }
  }

  /** The length of a line does not depend on the order of its sections. */
  lemma {:induction false} TotalDistanceMultiset(x: seq<Section>, y: seq<Section>)
    requires multiset(x) == multiset(y)
    ensures TotalDistance(x) == TotalDistance(y)
  {
    if |x| == 0 {
      assert |y| == |multiset(y)| == 0;
    } else {
      assert x == [x[0]] + x[1..];
      assert x[0] in multiset(y);
      var y' := RemoveFirst(y, x[0]);
      TotalDistanceRemoveFirst(y, x[0]);
      MultisetCancel(multiset(x[1..]), multiset(y'), multiset{x[0]});
      TotalDistanceMultiset(x[1..], y');
    }
  }

  /** `findConnectableSections` without its emptiness check: the sections sharing a station with `s`, in list order. */
  function Connectable(secs: seq<Section>, s: Section): (r: seq<Section>)
    ensures forall c :: c in r <==> c in secs && c.HaveAnyStation(s)
    ensures forall c :: multiset(r)[c] == if c.HaveAnyStation(s) then multiset(secs)[c] else 0
  {
    if |secs| == 0 then []
    else
      assert secs == [secs[0]] + secs[1..];
      if secs[0].HaveAnyStation(s) then [secs[0]] + Connectable(secs[1..], s)
      else Connectable(secs[1..], s)
  }

  /** Gathering connectable sections works element by element, so they keep their order in the list. */
  lemma {:induction false} ConnectableConcat(a: seq<Section>, b: seq<Section>, s: Section)
    ensures Connectable(a + b, s) == Connectable(a, s) + Connectable(b, s)
  {
    if |a| > 0 {
      var ab := a + b;
      assert ab[0] == a[0] && ab[1..] == a[1..] + b;
      ConnectableConcat(a[1..], b, s);
      if a[0].HaveAnyStation(s) {
        assert [a[0]] + (Connectable(a[1..], s) + Connectable(b, s)) == ([a[0]] + Connectable(a[1..], s)) + Connectable(b, s);
      }
    } else {
      assert a + b == b;
    }
  }

  /** `findRemovableSections`: the sections touching `station`, in list order. */
  function Removable(secs: seq<Section>, station: Station): (r: seq<Section>)
    ensures forall c :: c in r <==> c in secs && c.HaveStation(station)
    ensures forall c :: multiset(r)[c] == if c.HaveStation(station) then multiset(secs)[c] else 0
  {
    if |secs| == 0 then []
    else
      assert secs == [secs[0]] + secs[1..];
      if secs[0].HaveStation(station) then [secs[0]] + Removable(secs[1..], station)
      else Removable(secs[1..], station)
  }

  /** Gathering the sections at a station works element by element, so they keep their order in the list. */
  lemma {:induction false} RemovableConcat(a: seq<Section>, b: seq<Section>, station: Station)
    ensures Removable(a + b, station) == Removable(a, station) + Removable(b, station)
  {
    if |a| > 0 {
      var ab := a + b;
      assert ab[0] == a[0] && ab[1..] == a[1..] + b;
      RemovableConcat(a[1..], b, station);
      if a[0].HaveStation(station) {
        assert [a[0]] + (Removable(a[1..], station) + Removable(b, station)) == ([a[0]] + Removable(a[1..], station)) + Removable(b, station);
      }
    } else {
      assert a + b == b;
    }
  }

  /** Some section of `cs` has `s`'s up station as an endpoint. */
  predicate AnyHaveUpStation(cs: seq<Section>, s: Section)
  {
    exists c :: c in cs && c.HaveUpStation(s)
  }

  /** Some section of `cs` has `s`'s down station as an endpoint. */
  predicate AnyHaveDownStation(cs: seq<Section>, s: Section)
  {
    exists c :: c in cs && c.HaveDownStation(s)
  }

  /**
   * Asking the connectable sections whether one of them has the new section's up
   * (down) station as an endpoint is asking whether that station is on the line.
   */
  lemma ConnectableTouches(secs: seq<Section>, s: Section)
    ensures AnyHaveUpStation(Connectable(secs, s), s) <==> OnLine(secs, s.up)
    ensures AnyHaveDownStation(Connectable(secs, s), s) <==> OnLine(secs, s.down)
  {
    if OnLine(secs, s.up) {
      var c :| c in secs && c.HaveStation(s.up);
      assert c in Connectable(secs, s);
    }
    if OnLine(secs, s.down) {
      var c :| c in secs && c.HaveStation(s.down);
      assert c in Connectable(secs, s);
    }
  }

  /** The first section of `cs` that starts where `s` starts or ends where `s` ends. */
  function FindSameUpOrDown(cs: seq<Section>, s: Section): (r: Option<Section>)
    ensures r.Some? ==> r.value in cs && r.value.IsSameUpOrDownStation(s)
    ensures r.Some? ==> exists i :: 0 <= i < |cs| && cs[i] == r.value && forall j :: 0 <= j < i ==> !cs[j].IsSameUpOrDownStation(s)
    ensures r.None? ==> forall c :: c in cs ==> !c.IsSameUpOrDownStation(s)
  {
    if |cs| == 0 then None
    else if cs[0].IsSameUpOrDownStation(s) then Some(cs[0])
    else
      assert cs == [cs[0]] + cs[1..];
      var r := FindSameUpOrDown(cs[1..], s);
      assert r.Some? ==> exists i :: 0 <= i < |cs| && cs[i] == r.value && forall j :: 0 <= j < i ==> !cs[j].IsSameUpOrDownStation(s) by {
        if r.Some? {
          var i :| 0 <= i < |cs[1..]| && cs[1..][i] == r.value && forall j :: 0 <= j < i ==> !cs[1..][j].IsSameUpOrDownStation(s);
          assert cs[i + 1] == r.value;
          forall j | 0 <= j < i + 1 ensures !cs[j].IsSameUpOrDownStation(s) {
            if j > 0 {
              assert cs[j] == cs[1..][j - 1];
            }
          }
        }
      }
      r
  }

  /** `findSectionIncludingUpStation`: the first section that starts at `station`. */
  function FindSectionByUp(secs: seq<Section>, station: Station): (r: Option<Section>)
    ensures r.Some? ==> r.value in secs && r.value.up == station
    ensures r.None? ==> forall c :: c in secs ==> c.up != station
  {
    if |secs| == 0 then None
    else if secs[0].IsSameUpStation(station) then Some(secs[0])
    else
      assert secs == [secs[0]] + secs[1..];
      FindSectionByUp(secs[1..], station)
  }

  /** `findFirstStation`: the first up station that is no down station. */
  function FindFirstStation(ups: seq<Station>, downs: seq<Station>): (r: Option<Station>)
    ensures r.Some? ==> r.value in ups && r.value !in downs
    ensures r.None? ==> forall u :: u in ups ==> u in downs
  {
    if |ups| == 0 then None
    else
      assert ups == [ups[0]] + ups[1..];
      if ups[0] !in downs then
        assert ups[0] in ups;
        Some(ups[0])
      else FindFirstStation(ups[1..], downs)
  }

  /** `findEndStation`: the first down station left once every up station is removed. */
  function FindEndStation(ups: seq<Station>, downs: seq<Station>): (r: Option<Station>)
    ensures r.Some? ==> r.value in downs && r.value !in ups
    ensures r.None? ==> forall d :: d in downs ==> d in ups
  {
    var rest := Without(downs, ups);
    if |rest| == 0 then None
    else
      assert rest[0] in rest && rest[0] in downs && rest[0] !in ups;
      Some(rest[0])
  }

  /**
   * `add`: the list after inserting `s`, or the error raised. A section that
   * touches no station is refused, and so is one whose two stations are both on
   * the line. If a connectable section starts where `s` starts or ends where `s`
   * ends, `s` is carved out of it (it must be strictly longer) and the remainder
   * is kept; otherwise `s` extends the line at one end.
   */
  function Insert(secs: seq<Section>, s: Section): (r: Result<seq<Section>>)
    ensures r == Err(DisconnectedSegment) <==> !OnLine(secs, s.up) && !OnLine(secs, s.down)
    ensures r == Err(DuplicateSegment) <==> OnLine(secs, s.up) && OnLine(secs, s.down)
    ensures var found := FindSameUpOrDown(Connectable(secs, s), s);
      r == Err(SegmentTooLong) <==> OnLine(secs, s.up) != OnLine(secs, s.down) && found.Some? && found.value.distance <= s.distance
    ensures var found := FindSameUpOrDown(Connectable(secs, s), s);
      r.Ok? <==> OnLine(secs, s.up) != OnLine(secs, s.down) && (found.None? || s.distance < found.value.distance)
    ensures r.Ok? ==> |r.value| == |secs| + 1 && s in r.value
    ensures r.Ok? && AllValid(secs) && s.Valid() ==> AllValid(r.value)
  {
    var connectable := Connectable(secs, s);
    if |connectable| == 0 then
      assert forall c :: c in secs ==> !c.HaveAnyStation(s);
      Err(DisconnectedSegment)
    else
      assert connectable[0] in connectable;
      if AnyHaveUpStation(connectable, s) && AnyHaveDownStation(connectable, s) then
        Err(DuplicateSegment)
      else
        match FindSameUpOrDown(connectable, s)
        case None => Ok(secs + [s])
        case Some(origin) =>
          if origin.IsShortAndEqualDistanceThan(s) then Err(SegmentTooLong)
          else
            var rest := origin.Slice(s).value;
            Ok(RemoveFirst(secs, origin) + [s, rest])
  }

  /**
   * `delete`: the list after removing `station`, or the error raised. The
   * station must be on the line, and a line of one section keeps it. When two
   * sections touch the station they are replaced by their merge; otherwise the
   * first section touching it is dropped.
   */
  function RemoveStation(secs: seq<Section>, station: Station): (r: Result<seq<Section>>)
    ensures r == Err(StationNotInLine) <==> !OnLine(secs, station)
    ensures r == Err(SingleSegmentLine) <==> OnLine(secs, station) && |secs| == 1
    ensures AllValid(secs) ==> (r.Ok? <==> OnLine(secs, station) && |secs| != 1)
    ensures r.Ok? && AllValid(secs) ==> |r.value| == |secs| - 1 && AllValid(r.value)
  {
    var removable := Removable(secs, station);
    if |removable| == 0 then
      assert forall c :: c in secs ==> !c.HaveStation(station);
      Err(StationNotInLine)
    else
      assert removable[0] in removable;
      if |secs| == 1 then Err(SingleSegmentLine)
      else if |removable| == 2 then
        assert removable[1] in removable;
        match removable[0].Combine(removable[1], station)
        case Err(e) => Err(e)
        case Ok(merged) =>
          PairCounts(secs, station);
          RemovePairFacts(secs, removable[0], removable[1], merged);
          Ok(RemoveFirst(RemoveFirst(RemoveFirst(secs + [merged], removable[0]), removable[1]), removable[0]))
      else
        Ok(RemoveFirst(secs, removable[0]))
  }

  /** The two ways a successful insertion rebuilds the list: appended at an end, or carved into a section. */
  lemma InsertCases(secs: seq<Section>, s: Section)
    requires Insert(secs, s).Ok?
    ensures OnLine(secs, s.up) != OnLine(secs, s.down)
    ensures var found := FindSameUpOrDown(Connectable(secs, s), s);
      && (found.None? ==> Insert(secs, s).value == secs + [s] && forall c :: c in secs ==> !c.IsSameUpOrDownStation(s))
      && (found.Some? ==>
            && found.value in secs && found.value.IsSameUpOrDownStation(s) && s.distance < found.value.distance
            && Insert(secs, s).value == RemoveFirst(secs, found.value) + [s, found.value.Slice(s).value])
  {
  }

  /**
   * `s` and `rest` are `whole` cut in two at one inner station: `s` keeps one end of
   * `whole`, `rest` the other, they meet at the cut, and their lengths add up.
   */
  ghost predicate SplitInto(whole: Section, s: Section, rest: Section)
  {
    && rest.Valid()
    && s.distance + rest.distance == whole.distance
    && ((s.up == whole.up && rest.up == s.down && rest.down == whole.down)
        || (s.down == whole.down && rest.up == whole.up && rest.down == s.up))
  }

  /**
   * What a successful insertion does to the list. With no section sharing an
   * end with `s`, the line is extended by `s`. Otherwise the first such section
   * is replaced by two pieces: `s` and the remainder, which together span it.
   */
  lemma InsertEffect(secs: seq<Section>, s: Section)
    requires Insert(secs, s).Ok?
    ensures var found, r := FindSameUpOrDown(Connectable(secs, s), s), Insert(secs, s).value;
      && (found.None? ==> r == secs + [s] && forall c :: c in secs ==> !c.IsSameUpOrDownStation(s))
      && (found.Some? ==>
            && found.value in secs
            && exists rest :: SplitInto(found.value, s, rest) && multiset(r) + multiset{found.value} == multiset(secs) + multiset{s, rest})
  {
    InsertCases(secs, s);
    match FindSameUpOrDown(Connectable(secs, s), s)
    case None =>
    case Some(o) =>
      CarveEffect(secs, o, s);
  }

  /** Carving `s` into a longer section `o` of the line it starts or ends with swaps `o` for two pieces that span it. */
  lemma CarveEffect(secs: seq<Section>, o: Section, s: Section)
    requires o in secs && s.distance < o.distance && o.IsSameUpOrDownStation(s)
    ensures SplitInto(o, s, o.Slice(s).value)
    ensures multiset(RemoveFirst(secs, o) + [s, o.Slice(s).value]) + multiset{o} == multiset(secs) + multiset{s, o.Slice(s).value}
  {
  }

  /**
   * `r` is the list `delete` builds once its checks pass: the first section
   * touching `station` dropped, or, when two touch it, both replaced by their merge.
   */
  ghost predicate RemovedAs(secs: seq<Section>, station: Station, r: seq<Section>)
  {
    var rem := Removable(secs, station);
    && 0 < |rem|
    && (|rem| != 2 ==> r == RemoveFirst(secs, rem[0]))
    && (|rem| == 2 ==>
          && rem[0].Combine(rem[1], station).Ok?
          && r == RemoveFirst(RemoveFirst(RemoveFirst(secs + [rem[0].Combine(rem[1], station).value], rem[0]), rem[1]), rem[0]))
  }

  /** A successful removal passed both checks and rebuilt the list in one of the two ways. */
  lemma RemoveCases(secs: seq<Section>, station: Station)
    requires RemoveStation(secs, station).Ok?
    ensures OnLine(secs, station) && |secs| != 1
    ensures RemovedAs(secs, station, RemoveStation(secs, station).value)
  {
  }

  /** The two sections touching a station account for all copies of themselves in the list. */
  lemma PairCounts(secs: seq<Section>, station: Station)
    requires |Removable(secs, station)| == 2
    ensures var a, b := Removable(secs, station)[0], Removable(secs, station)[1];
      && a in secs && b in secs
      && (a == b ==> multiset(secs)[a] == 2)
      && (a != b ==> multiset(secs)[a] == 1 && multiset(secs)[b] == 1)
  {
    var rem := Removable(secs, station);
    var a, b := rem[0], rem[1];
    assert rem == [a, b];
    assert multiset(rem) == multiset{a, b};
    assert a in rem && b in rem;
  }

  /** What the three removals after a merge do to the list: drop both merged sections, keep the merge. */
  lemma RemovePairFacts(secs: seq<Section>, a: Section, b: Section, merged: Section)
    requires a in secs && b in secs
    requires a == b ==> multiset(secs)[a] == 2
    requires a != b ==> multiset(secs)[a] == 1 && multiset(secs)[b] == 1
    ensures merged != a && merged != b ==>
      var r := RemoveFirst(RemoveFirst(RemoveFirst(secs + [merged], a), b), a);
      && multiset(r) + multiset{a, b} == multiset(secs) + multiset{merged}
      && |r| == |secs| - 1
      && (forall y :: y in r ==> y in secs || y == merged)
  {
    if merged == a || merged == b { return; }
    var r1 := RemoveFirst(secs + [merged], a);
    assert multiset(r1) + multiset{a} == multiset(secs) + multiset{merged};
    assert (multiset(r1) + multiset{a})[b] == (multiset(secs) + multiset{merged})[b];
    assert (multiset(r1) + multiset{a})[a] == (multiset(secs) + multiset{merged})[a];
    assert multiset(r1)[b] > 0;
    var r2 := RemoveFirst(r1, b);
    assert multiset(r2) + multiset{b} == multiset(r1);
    assert (multiset(r2) + multiset{b})[a] == multiset(r1)[a];
    assert multiset(r2)[a] == 0;
    assert RemoveFirst(r2, a) == r2;
  }

  /** The length of a line of two sections. */
  lemma TotalDistancePair(a: Section, b: Section)
    ensures TotalDistance([a]) == a.distance
    ensures TotalDistance([a, b]) == a.distance + b.distance
  {
    assert [a][1..] == [];
    assert [a, b][1..] == [b];
    assert [b][1..] == [];
  }

  /**
   * Carving a section into the line keeps the line's length; extending the line
   * at an end lengthens it by the new section.
   */
  lemma InsertTotalDistance(secs: seq<Section>, s: Section)
    requires Insert(secs, s).Ok?
    ensures (exists c :: c in secs && c.IsSameUpOrDownStation(s)) ==>
              TotalDistance(Insert(secs, s).value) == TotalDistance(secs)
    ensures (forall c :: c in secs ==> !c.IsSameUpOrDownStation(s)) ==>
              TotalDistance(Insert(secs, s).value) == TotalDistance(secs) + s.distance
  {
    InsertCases(secs, s);
    match FindSameUpOrDown(Connectable(secs, s), s)
    case None =>
      TotalDistanceConcat(secs, [s]);
      TotalDistancePair(s, s);
    case Some(o) =>
      var rest := o.Slice(s).value;
      TotalDistanceRemoveFirst(secs, o);
      TotalDistanceConcat(RemoveFirst(secs, o), [s, rest]);
      TotalDistancePair(s, rest);
  }

  /**
   * What a successful removal does to the list. With two sections at the
   * station, both give way to their merge and the line keeps its length; with
   * one, that section alone is dropped and the line is shorter by its length.
   */
  lemma RemoveEffect(secs: seq<Section>, station: Station)
    requires AllValid(secs) && RemoveStation(secs, station).Ok?
    ensures var rem, r := Removable(secs, station), RemoveStation(secs, station).value;
      && (|rem| == 2 ==>
            && multiset(r) + multiset{rem[0], rem[1]} == multiset(secs) + multiset{rem[0].Combine(rem[1], station).value}
            && TotalDistance(r) == TotalDistance(secs))
      && (|rem| != 2 ==>
            && multiset(r) + multiset{rem[0]} == multiset(secs)
            && TotalDistance(r) == TotalDistance(secs) - rem[0].distance)
  {
    RemoveCases(secs, station);
    var rem, r := Removable(secs, station), RemoveStation(secs, station).value;
    assert rem[0] in rem;
    if |rem| == 2 {
      assert rem[1] in rem;
      PairCounts(secs, station);
      MergeKeepsLength(secs, rem[0], rem[1], rem[0].Combine(rem[1], station).value, r);
    } else {
      TotalDistanceRemoveFirst(secs, rem[0]);
    }
  }

  /** Replacing two sections by their merge keeps the list's elements balanced and its length. */
  lemma MergeKeepsLength(secs: seq<Section>, a: Section, b: Section, merged: Section, r: seq<Section>)
    requires a in secs && b in secs && a.Valid() && b.Valid()
    requires a == b ==> multiset(secs)[a] == 2
    requires a != b ==> multiset(secs)[a] == 1 && multiset(secs)[b] == 1
    requires merged.distance == a.distance + b.distance
    requires r == RemoveFirst(RemoveFirst(RemoveFirst(secs + [merged], a), b), a)
    ensures multiset(r) + multiset{a, b} == multiset(secs) + multiset{merged}
    ensures TotalDistance(r) == TotalDistance(secs)
  {
    RemovePairFacts(secs, a, b, merged);
    assert multiset(r + [a, b]) == multiset(secs + [merged]);
    TotalDistanceMultiset(r + [a, b], secs + [merged]);
    TotalDistanceConcat(r, [a, b]);
    TotalDistanceConcat(secs, [merged]);
    TotalDistancePair(a, b);
    TotalDistancePair(merged, merged);
  }
}
