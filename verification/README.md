# Subway line sections — a Dafny model

This project models the domain core of a subway-line administration service:

- the **section collection** of a line (`Sections`): an ordered list of
  sections, each an up station, a down station and a distance. Adding a
  section first checks that its two stations are not both already on the
  line, throwing `IllegalArgumentException` if they are, and otherwise appends
  it at the end. Two views are derived from the list: the stations of all
  sections in order with repeats removed (first occurrence kept), and the
  sum of all distances;
- the **line aggregate** (`Line`): a line is constructed from a name, a
  colour, two terminal stations and a distance, and `updateLine` rewrites
  only the name and the colour.

The model is functional. A section list is an immutable `seq<Section>`;
`AddSection` returns `Ok(new list)` or `Err(IllegalArgument)`, and
`SectionsAfterAdd` gives the list the collection holds after the call,
which is the old list when the call throws. A station is a value-compared
identifier (`StationId`). The source compares stations with `equals`, in
`containsAll` and in `distinct`; `Station.java` is not part of this model.
Value equality is what the unit tests expect: `SectionTest.java:55-62` builds
fresh `Station.from(...)` objects for stations already on the line and
expects the section to be refused.

Files:

- `domain.dfy` (module `Domain`): station identifiers, the `Section`
  record with its `Stations()` pair, and the `Outcome`, `Result` and
  `Option` datatypes.
- `sections.dfy` (module `Sections`): the duplicate check, `AddSection`,
  the station view (`Flatten`, `Distinct` and the loop `GetStations`),
  `TotalDistance` with its 32-bit counterpart `JavaTotalDistance`, and
  lemmas about them.
- `line.dfy` (module `Lines`): the `Line` record, `NewLine`, `UpdateLine`
  and lemmas about the update.
- `scenarios.dfy` (module `Scenarios`): the unit-test scenarios, worked
  out on a line whose first section runs from station 1 to station 2
  with distance 10.

The station view is specified by the predicate `IsStationView`, which has
three parts: no duplicates, the same members as the sections (`Occurs(ss, st)`
says that some section has `st` as its up or down station), and
first-occurrence order (`FirstIndex(xs, x)` is the position of the first
occurrence of `x`). `StationViewIsUnique` shows that these three properties pin
the view down exactly.

## Model

| member | source | states |
|---|---|---|
| Sections.Flatten | src/main/java/nextstep/subway/domain/Sections.java:36-38 | the flattened station list has two entries per section, in list order and up station first, and a station is in it iff it is the up or down station of some section |
| Sections.StationSet | src/main/java/nextstep/subway/domain/Sections.java:29-31 | the collected station set holds exactly the stations that occur in some section |
| Sections.ContainsAllStations | src/main/java/nextstep/subway/domain/Sections.java:28-33 | true iff both the up and the down station of the new section occur among the existing sections |
| Sections.ValidateNotDuplicate | src/main/java/nextstep/subway/domain/Sections.java:22-26 | fails with IllegalArgument iff both stations of the new section already occur on the line |
| Sections.AddSection | src/main/java/nextstep/subway/domain/Sections.java:17-20 | throws IllegalArgument iff both stations already occur. On success the list grows by exactly one, keeps all earlier entries, ends with the new section, and its total distance grows by exactly the new distance. Adding to an empty collection always succeeds |
| Sections.SectionsAfterAdd | src/main/java/nextstep/subway/domain/Sections.java:17-20 | validation comes before the append: a refused section leaves the list exactly as it was, an accepted one is appended, and the old list is always a prefix of the new one |
| Sections.TotalDistance | src/main/java/nextstep/subway/domain/Sections.java:43-45 | the total of a list with no negative distance is not negative |
| Sections.TotalDistanceBoundsEach | src/main/java/nextstep/subway/domain/Sections.java:43-45 | with no negative distance, the total is at least the distance of each single section |
| Sections.Wrap32 | src/main/java/nextstep/subway/domain/Sections.java:44 | Java `int` addition wraps a value into the range from -2^31 to 2^31 - 1. The wrapped value differs from the exact one by a multiple of 2^32, and a value already in range is unchanged |
| Sections.Wrap32AddCongruent | src/main/java/nextstep/subway/domain/Sections.java:44 | wrapping an intermediate sum before the next addition gives the same result as wrapping only at the end |
| Sections.JavaTotalDistance | src/main/java/nextstep/subway/domain/Sections.java:43-45 | the total Java returns is always an `int`. Its partner `JavaTotalDistanceWraps` ties it to the exact total |
| Sections.JavaTotalDistanceBoundsEach | src/main/java/nextstep/subway/domain/Sections.java:43-45 | with no negative distance and an exact total that fits in an `int`, the returned total is at least each single section's distance |
| Sections.JavaTotalDistanceOverflows | src/main/java/nextstep/subway/domain/Sections.java:44 | without that fit the bound fails: two sections of distance 2^31 - 1 give a returned total of -2 |
| Sections.JavaTotalDistanceWraps | src/main/java/nextstep/subway/domain/Sections.java:43-45 | the total as Java computes it, a left-to-right `int` sum, is the exact total wrapped into the `int` range, and equals the exact total whenever that fits in an `int` |
| Sections.TotalDistanceConcat | src/main/java/nextstep/subway/domain/Sections.java:43-45 | the distance sum is additive: the total of two concatenated lists is the sum of their totals |
| Sections.TotalDistanceAppend | src/main/java/nextstep/subway/domain/Sections.java:43-45 | appending one section adds exactly its distance to the total |
| Sections.Distinct | src/main/java/nextstep/subway/domain/Sections.java:39 | the de-duplicated list has no repeats, has exactly the members of its input, and is no longer than its input |
| Sections.DistinctKeepsFirstOccurrenceOrder | src/main/java/nextstep/subway/domain/Sections.java:39 | de-duplication keeps the order of first occurrences: an earlier element of the result first occurs earlier in the input |
| Sections.DistinctIsUnique | src/main/java/nextstep/subway/domain/Sections.java:35-41 | any repeat-free list with the input's members in first-occurrence order is the de-duplicated list, so the three properties determine the station view completely |
| Sections.AppendIfUnseen | src/main/java/nextstep/subway/domain/Sections.java:39 | one de-duplication step appends the station exactly when it is new, and the seen-set keeps holding exactly the stations emitted so far |
| Sections.DistinctIsStationView | src/main/java/nextstep/subway/domain/Sections.java:35-41 | de-duplicating the flattened list gives a station view: no duplicates, a station is in it iff it is the up or down station of some section, and stations appear in first-occurrence order |
| Sections.StationViewIsUnique | src/main/java/nextstep/subway/domain/Sections.java:35-41 | any list with those three properties is exactly the de-duplicated flattened list |
| Sections.GetStations | src/main/java/nextstep/subway/domain/Sections.java:35-41 | the loop with a seen-set returns the station view. It has no duplicates and contains a station iff it is the up or down station of some section. It keeps the first-occurrence order of the flattened list and has at most two stations per section |
| Sections.RepeatedSectionRejected | src/main/java/nextstep/subway/domain/Sections.java:22-33 | a section that repeats both endpoints of an existing section is refused with IllegalArgument, whatever its distance |
| Sections.DistinctFlattenSnoc | src/main/java/nextstep/subway/domain/Sections.java:35-41 | appending a section extends the station view by its up station and then its down station, each only if it is not yet in the view |
| Sections.AddSectionExtendsStations | src/main/java/nextstep/subway/domain/Sections.java:17-41 | after a successful add, the old station view is a prefix of the new one. The new view holds one or two more stations: the new up station and then the new down station, each only if it was not already there |
| Lines.NewLine | src/main/java/nextstep/subway/domain/Line.java:33-39 | a constructed line's getters return exactly the supplied name, colour, up station, down station and distance, and it has no id yet |
| Lines.UpdateLine | src/main/java/nextstep/subway/domain/Line.java:41-44 | the update sets name and colour to the given values and leaves id, up station, down station and distance unchanged |
| Lines.UpdateLineIdempotent | src/main/java/nextstep/subway/domain/Line.java:41-44 | applying the same update twice gives the same line as applying it once |
| Lines.UpdateLineLastWins | src/main/java/nextstep/subway/domain/Line.java:41-44 | of two successive updates only the second is visible |
| Lines.UpdateLineWithCurrentValues | src/main/java/nextstep/subway/domain/Line.java:41-44 | updating a line to its own name and colour changes nothing |
| Lines.UpdateNewLine | src/main/java/nextstep/subway/domain/Line.java:33-44 | updating a freshly constructed line equals constructing it with the new name and colour |
| Scenarios.SameSectionRejected | src/test/java/nextstep/subway/domain/SectionTest.java:54-62 | re-adding the existing pair of stations with another distance is refused |
| Scenarios.ExtendDownTerminal | src/test/java/nextstep/subway/domain/SectionTest.java:98-108 | adding a section after the down terminal gives three stations and total distance 20 |
| Scenarios.ExtendUpTerminal | src/test/java/nextstep/subway/domain/SectionTest.java:86-96 | adding a section before the up terminal gives three stations (the new one listed last) and total distance 15 |
| Scenarios.AddSharingUpStation | src/test/java/nextstep/subway/domain/SectionTest.java:74-84 | a section sharing only the up station is appended unchanged: three stations and total distance 15, as the test expects |
| Scenarios.DisconnectedSectionAccepted | src/test/java/nextstep/subway/domain/SectionTest.java:64-72 | the collection accepts a section touching no existing station, because it only refuses sections whose two stations are both known |

## Left out

- Section splitting is not modelled, because `Sections.java` does none. `addSection` checks only for duplicates and then appends. It never inserts a section between two stations or merges it into a path. It does not refuse a section that touches no existing station or is longer than the one it would split. It keeps no path invariant.
- The unit tests at `SectionTest.java:43-51` and `SectionTest.java:64-72` expect those refusals anyway. They call `Line.of` and `Line.addSection`, and `Line.java` defines neither. The model follows `Sections.java`, and `Scenarios.DisconnectedSectionAccepted` records that behaviour.
- The station view is the de-duplicated list of stations in the order sections were added. It is not a walk along the path from the up terminal. A station added before the up terminal is therefore listed last (`Scenarios.ExtendUpTerminal`).
- `Line` performs no validation, so the model accepts any name, colour, stations and distance (including distance ≤ 0), as the constructor does. `Line.java` has no `Sections` field, and the model does not link the two either.
- Sections.TotalDistance: the sum is over unbounded integers. `totalDistance` returns Java's 32-bit `int` sum, which wraps on overflow. That wrapped value is `JavaTotalDistance`. `JavaTotalDistanceWraps` shows that the two agree exactly when the total fits in an `int`, and that otherwise the Java value is the total wrapped into the `int` range.
- Sections.TotalDistanceBoundsEach: stated for the unbounded sum. Java's wrapped total can be smaller than one section's distance (`JavaTotalDistanceOverflows`). `JavaTotalDistanceBoundsEach` restates the bound for the Java total when the exact total fits in an `int`.
- Sections.TotalDistanceConcat: stated for the unbounded sum. The Java `int` sum is additive only modulo 2^32.
- Sections.TotalDistanceAppend: stated for the unbounded sum, as above.
- Sections.AddSection: the total-distance clause uses the unbounded sum, so it says nothing about Java `int` overflow of the total.
- Section distances and the line's `distance` are unbounded integers. The source stores both as Java `int` values, so distances outside the `int` range are not excluded.
- `Section.stations()` is assumed to return the list `[up, down]`, up station first (`Section.Stations()` in `domain.dfy`). The first-occurrence order of the station view depends on this. `Section.java` is not part of this model.
- `null` references are not modelled: stations, names and colours are always present. `Section.java` and `Station.java` are not part of this model. Their null checks (`SectionTest.java:33-41`) and their equality are represented only by value equality on `StationId`.
- Persistence: entity mapping, id generation (`id` stays `None` on a constructed line), lazy loading, cascade and orphan removal, and the unique-name column constraint belong to the ORM framework.
- The HTTP acceptance tests and controllers, which run against a live server.
- `LineRequest`, a data-transfer object whose constructor stores nothing, so its getters return default values. It has no logic to model.
