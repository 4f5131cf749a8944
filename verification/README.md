# Subway line sections, modelled in Dafny

A subway line is stored as an unordered list of sections. Each section is a
directed edge from an up station to a down station with a positive length.
The line's domain object `Sections` supports four operations:

- adding a section, either extending the line at one end or carving the new
  section out of an existing one;
- deleting a station, either dropping an end section or merging the two
  sections around the station;
- listing the sections one line has and another has not;
- listing the stations from the up terminus to the down terminus.

This project models those operations and proves what they promise.

- **Stations and sections.** `SectionValue` models a section as a value:
  construction checks the length, `Slice` carves one section out of another,
  and `Combine` merges two.
- **Lists.** `Lists` states the two `java.util.List` operations the code
  relies on: remove-first-occurrence and remove-all.
- **Specifications of the edits.** `Topology` specifies insertion and station
  removal as functions from the old list to the new list or to the error
  raised. It also proves how each edit changes the total line length.
- **The path invariant.** `Path` states the line's global invariant: the
  sections can be ordered into one simple path. It derives what the station
  ordering needs: the termini, how to walk the path, and that the station
  sequence is unique.
- **The edits keep the path.** `PathEdits` proves that both edits keep a
  single path. Insertion adds exactly one station to the station sequence and
  removal takes out exactly one; all other stations keep their order.
- **What the service stores and deletes.** `LineDiffs` proves what
  `getDifferentList` reports between the old and the edited list, in both
  directions. These are the rows the service deletes and stores after each edit.
- **The class.** `LineSections.Sections` is the class. It has a mutable
  `sections` sequence, and its methods update it step by step as the Java
  code does. Each method's contract ties its result to the specification
  functions above.

Stations are integers compared by equality. A Java exception becomes a
`Result` or `Outcome` value carrying an `Error`, and the list is left as it
was.

## Model

| member | source | states |
|---|---|---|
| SectionValue.NewSection | src/main/java/wooteco/subway/domain/Section.java:16-25 | a section is built exactly when the distance is positive, and then holds the given stations and distance; otherwise the error is the invalid-length one |
| SectionValue.Section.Slice | src/main/java/wooteco/subway/domain/Section.java:27-33 | fails exactly when the inserted section is not shorter; when both share the down station the remainder runs from this up station to the inserted up station, otherwise from the inserted down station to this down station; remainder plus inserted length equals this length |
| SectionValue.Section.Combine | src/main/java/wooteco/subway/domain/Section.java:35-48 | fails with the disjoint error unless the connecting station is an endpoint of both; otherwise the merge keeps the outer stations (chosen by whether this section ends at the connecting station) and sums the lengths |
| SectionValue.StationTests | src/main/java/wooteco/subway/domain/Section.java:56-66 | a station is the section's up end, its down end, or one of its two ends |
| SectionValue.SharedStationTests | src/main/java/wooteco/subway/domain/Section.java:68-82 | another section's up (down) station is an endpoint here exactly when this section has that station; sharing any station means the two endpoint sets meet, and it is symmetric; sharing the up or the down station is symmetric and implies sharing a station |
| SectionValue.TooShortIffNoSlice | src/main/java/wooteco/subway/domain/Section.java:84-86 | a section is "short and equal" against another exactly when slicing that other out of it fails; of any two sections, at least one is short and equal against the other |
| SectionValue.CombineThenSlice | src/main/java/wooteco/subway/domain/Section.java:27-42 | merging two consecutive sections and slicing either one back out gives the other one |
| SectionValue.SliceThenCombine | src/main/java/wooteco/subway/domain/Section.java:27-42 | slicing a shorter section out of a section it shares an end with, then merging the pieces, restores the section |
| Lists.RemoveFirst | src/main/java/wooteco/subway/domain/Sections.java:49 | `List.remove(Object)`: if present, one copy of the element is gone and nothing else changes; if absent, the list is unchanged |
| Lists.RemoveFirstAt | src/main/java/wooteco/subway/domain/Sections.java:49 | `List.remove(Object)` removes the first copy: the elements before it and after it stay, in their order |
| Lists.Without | src/main/java/wooteco/subway/domain/Sections.java:98-103 | `removeAll`: an element is kept exactly when the other list lacks it, and kept with all its copies |
| Lists.WithoutConcat | src/main/java/wooteco/subway/domain/Sections.java:98-103 | `removeAll` works element by element, so the survivors keep their original order |
| Topology.Ups | src/main/java/wooteco/subway/domain/Sections.java:191-195 | the up station list holds one entry per section, and holds a station exactly when some section starts there |
| Topology.Downs | src/main/java/wooteco/subway/domain/Sections.java:185-189 | the down station list holds one entry per section, and holds a station exactly when some section ends there |
| Topology.Connectable | src/main/java/wooteco/subway/domain/Sections.java:71-78 | exactly the sections sharing a station with the new section, each with all its copies |
| Topology.ConnectableConcat | src/main/java/wooteco/subway/domain/Sections.java:71-78 | the filter works section by section, so the connectable sections keep their order in the list |
| Topology.Removable | src/main/java/wooteco/subway/domain/Sections.java:105-109 | exactly the sections touching the station, each with all its copies |
| Topology.RemovableConcat | src/main/java/wooteco/subway/domain/Sections.java:105-109 | the filter works section by section, so the sections at the station keep their order in the list |
| Topology.ConnectableTouches | src/main/java/wooteco/subway/domain/Sections.java:60-65 | some connectable section has the new section's up (down) station as an endpoint exactly when that station is on the line |
| Topology.FindSameUpOrDown | src/main/java/wooteco/subway/domain/Sections.java:35-37 | finds the first connectable section sharing the up or the down station of the new one (every earlier one shares neither), or reports that none does |
| Topology.FindSectionByUp | src/main/java/wooteco/subway/domain/Sections.java:165-170 | finds a section starting at the station, or reports that none does |
| Topology.FindFirstStation | src/main/java/wooteco/subway/domain/Sections.java:178-183 | finds an up station that is no down station, or reports that every up station is also a down station |
| Topology.FindEndStation | src/main/java/wooteco/subway/domain/Sections.java:172-176 | finds a down station that is no up station, or reports that every down station is also an up station |
| Topology.Insert | src/main/java/wooteco/subway/domain/Sections.java:31-84 | disconnected exactly when neither station is on the line; duplicate exactly when both are; with exactly one station on the line, too-long exactly when the first section sharing the up or the down station is not longer than the new one, and success exactly when there is no such section or it is longer; on success the list grows by one, holds the new section, and stays valid |
| Topology.RemoveStation | src/main/java/wooteco/subway/domain/Sections.java:86-130 | not-in-line exactly when no section touches the station; single-section exactly when it does and one section is left; on a valid list it succeeds otherwise, shrinks by one and stays valid |
| Topology.InsertEffect | src/main/java/wooteco/subway/domain/Sections.java:35-52 | with no section sharing the up or the down station, the line is extended by the new section; otherwise that section gives way to two pieces, the new section and a remainder, which meet at the new station, keep its two ends and add up to its length |
| Topology.InsertTotalDistance | src/main/java/wooteco/subway/domain/Sections.java:39-52 | carving a section into the line keeps the total length; appending at an end adds the new section's length |
| Topology.RemoveEffect | src/main/java/wooteco/subway/domain/Sections.java:91-95 | with two sections at the station, both give way to their merge and the total length is kept; with one, that section alone is removed and the length drops by its distance |
| Topology.MergeKeepsLength | src/main/java/wooteco/subway/domain/Sections.java:111-118 | appending the merge and removing both merged sections swaps the two for the merge and keeps the total length |
| LineDiffs.InsertDiffAdded | src/main/java/wooteco/subway/service/LineService.java:103-113 | after an insertion the edited line's extra sections are the new section alone, or the new section followed by the remainder of the section it was carved out of |
| LineDiffs.InsertDiffRemoved | src/main/java/wooteco/subway/service/LineService.java:103-113 | after an insertion into a single path the old line's missing sections are none, or just the section the new one was carved out of |
| LineDiffs.RemoveStationGone | src/main/java/wooteco/subway/domain/Sections.java:86-118 | after a successful removal from a single path no section touches the station |
| LineDiffs.RemoveDiffAdded | src/main/java/wooteco/subway/service/LineService.java:103-113 | after a removal from a single path the edited line's extra section is the merge of the two sections at the station, or there is none when the station was a terminus |
| LineDiffs.RemoveDiffRemoved | src/main/java/wooteco/subway/service/LineService.java:103-113 | after a removal from a single path the old line's missing sections are exactly the sections that touched the station, in list order |
| Path.OnLineIffVisited | src/main/java/wooteco/subway/domain/Sections.java:60-69 | on a single path, a station is on the line exactly when the path visits it |
| Path.FirstStationIsStart | src/main/java/wooteco/subway/domain/Sections.java:178-183 | on a single path, the first up station that is no down station is the path's first station |
| Path.EndStationIsEnd | src/main/java/wooteco/subway/domain/Sections.java:172-176 | on a single path, the first down station that is no up station is the path's last station |
| Path.NextSection | src/main/java/wooteco/subway/domain/Sections.java:165-170 | on a single path, the section found starting at station k is the k-th section of the path |
| Path.PathStationsUnique | src/main/java/wooteco/subway/domain/Sections.java:136-144 | every ordering of the sections into a path visits the same station sequence |
| Path.PathVisitsLine | src/main/java/wooteco/subway/domain/Sections.java:136-144 | a single path visits one station more than there are sections, and exactly the stations on the line |
| Path.PathTermini | src/main/java/wooteco/subway/domain/Sections.java:140-141 | a single path starts at a station no section ends at and ends at a station no section starts at |
| Path.PathNeighbours | src/main/java/wooteco/subway/domain/Sections.java:150-163 | neighbouring stations of a single path are joined by a section of the line |
| PathEdits.InsertKeepsPath | src/main/java/wooteco/subway/domain/Sections.java:31-52 | a successful insertion into a single path leaves a single path |
| PathEdits.InsertAddsStation | src/main/java/wooteco/subway/domain/Sections.java:31-52 | after a successful insertion, the stations are the old ones in their old order with the one new station slotted in |
| PathEdits.RemoveKeepsPath | src/main/java/wooteco/subway/domain/Sections.java:86-118 | a successful station removal from a single path leaves a single path |
| PathEdits.RemoveDropsStation | src/main/java/wooteco/subway/domain/Sections.java:86-118 | after a successful removal, the stations are the old ones in their old order without the removed one |
| LineSections.Sections.constructor | src/main/java/wooteco/subway/domain/Sections.java:20-23 | a line built from a non-empty list holds that list |
| LineSections.Sections.Single | src/main/java/wooteco/subway/domain/Sections.java:16-18 | a line built from one section holds just that section |
| LineSections.Sections.Create | src/main/java/wooteco/subway/domain/Sections.java:20-29 | building from a list fails with the empty-sections error exactly when the list is empty; otherwise a new line holds the list |
| LineSections.Sections.Add | src/main/java/wooteco/subway/domain/Sections.java:31-46 | the new list is the one `Topology.Insert` specifies, or the list is unchanged and its error is reported; a single path stays a single path |
| LineSections.Sections.AddMiddleSection | src/main/java/wooteco/subway/domain/Sections.java:48-52 | the origin section is removed, and the new section and the origin's remainder are appended |
| LineSections.Sections.Delete | src/main/java/wooteco/subway/domain/Sections.java:86-96 | the new list is the one `Topology.RemoveStation` specifies, or the list is unchanged and its error is reported; a single path stays a single path |
| LineSections.Sections.RemoveInMiddle | src/main/java/wooteco/subway/domain/Sections.java:111-118 | the merge is appended, then the first and the second touching section are each removed once |
| LineSections.Sections.GetDifferentList | src/main/java/wooteco/subway/domain/Sections.java:98-103 | the sections of this line that the other line lacks, with their multiplicities, in this line's order |
| LineSections.Sections.GetSortedStations | src/main/java/wooteco/subway/domain/Sections.java:136-144 | on a single path: the path's station sequence (the same for every path order), one station more than there are sections, none twice, exactly the line's stations, starting at the up-only station, ending at the down-only station, each neighbouring pair joined by a section |
| LineSections.Sections.SortStations | src/main/java/wooteco/subway/domain/Sections.java:150-163 | walking from the first station along the sections that start where the previous one ended, up to the end station, yields the path's station sequence |
| LineSections.Sections.Copy | src/main/java/wooteco/subway/domain/Sections.java:146-148 | a new line holding the same sections |

## Left out

- Section ids, the station names and the exception messages are not modelled. Stations are integers, so the null checks of the section constructor (Section.java:17-18) have nothing to check.
- `equals` and `hashCode` (Section.java:104-120) have no member of their own. The datatype `Section(up, down, distance)` has exactly the equality they define, and the list operations use it.
- The getters and `toString` are not modelled. `getSections` (Sections.java:132-134) is not modelled either: the model reads the `sections` field directly, and its read-only view wrapper is left out.
- SectionValue.Section.Combine: the summed length uses unbounded integers. In the original, a sum beyond the 32-bit `int` range wraps to a negative value, and the constructor then refuses it.
- LineSections.Sections.GetSortedStations: requires that the sections form one simple path. On other lists the original can loop forever in its walk or fail to find a terminus, and those runs are not modelled.
- LineSections.Sections.Add: requires the added section to have a positive length, as every constructed section does.
- LineSections.Sections.Delete: requires a valid line, on which merging the two sections at a station cannot fail. The merge's error path is still modelled and is passed through as the original would throw it.
- LineSections.Sections.constructor: requires a non-empty list. The error for an empty list is modelled by `Create`.
- Lists.RemoveFirst: its own contract gives the multiset effect only. Which copy goes (the first, with the rest kept in order) is stated by `Lists.RemoveFirstAt`, kept apart so that every proof using `RemoveFirst` stays small.
- Topology.Connectable: its own contract gives membership and multiplicity. That the list order is kept is stated by `Topology.ConnectableConcat`.
- Topology.Removable: its own contract gives membership and multiplicity. That the list order is kept, which the positions 0 and 1 in `delete` depend on, is stated by `Topology.RemovableConcat`.
- A copy made by the constructors and `copy` is independent of its source because sequences are values; aliasing of the Java `ArrayList` is not modelled.
- The service, controller and DTO layers (both `LineService` classes, `ErrorDto`, `LineControllerTest`) are not part of this model. The only service behaviour stated is which sections `getDifferentList` hands to the service after an edit (`LineDiffs`). The database calls are left out.
