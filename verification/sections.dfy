/**
 The section collection of a line: an append-only, ordered list of sections
 that refuses a section whose two stations are both already on it, and two
 derived views, the distinct stations in order and the total distance.
 */
module Sections {
  import opened Domain

  /** Station `st` is the up or the down station of some section of `ss`. */
  ghost predicate Occurs(ss: seq<Section>, st: StationId) {
    exists i :: 0 <= i < |ss| && st in ss[i].Stations()
  }

  /** No station appears twice in `xs`. */
  predicate NoDuplicates(xs: seq<StationId>) {
    forall a, b :: 0 <= a < b < |xs| ==> xs[a] != xs[b]
  }

  /** The stations of every section in list order:
      [up 0, down 0, up 1, down 1, ...]. */
  function Flatten(ss: seq<Section>): (r: seq<StationId>)
    ensures |r| == 2 * |ss|
    ensures forall i :: 0 <= i < |ss| ==> r[2 * i] == ss[i].up && r[2 * i + 1] == ss[i].down
    ensures forall st :: st in r <==> Occurs(ss, st)
  {
    if |ss| == 0 then []
    else
      var prefix := ss[..|ss| - 1];
      var r := Flatten(prefix) + ss[|ss| - 1].Stations();
      assert forall st :: Occurs(prefix, st) ==> Occurs(ss, st) by {
        forall st | Occurs(prefix, st) ensures Occurs(ss, st) {
          var i :| 0 <= i < |prefix| && st in prefix[i].Stations();
          assert ss[i] == prefix[i];
        }
      }
      assert forall st :: Occurs(ss, st) ==> Occurs(prefix, st) || st in ss[|ss| - 1].Stations() by {
        forall st | Occurs(ss, st) ensures Occurs(prefix, st) || st in ss[|ss| - 1].Stations() {
          var i :| 0 <= i < |ss| && st in ss[i].Stations();
          if i < |ss| - 1 {
            assert prefix[i] == ss[i];
          }
        }
      }
      r
  }

  /** The set of every station of every section. */
  function StationSet(ss: seq<Section>): (r: set<StationId>)
    ensures forall st :: st in r <==> Occurs(ss, st)
  {
    set st | st in Flatten(ss)
  }

  /** Both stations of `s` are already stations of `ss`. */
  function ContainsAllStations(ss: seq<Section>, s: Section): (r: bool)
    ensures r <==> Occurs(ss, s.up) && Occurs(ss, s.down)
  {
    var known := StationSet(ss);
    forall st | st in s.Stations() :: st in known
  }

  /** Refuses `s` when both of its stations are already on the line. */
  function ValidateNotDuplicate(ss: seq<Section>, s: Section): (r: Outcome)
    ensures r == Fail(IllegalArgument) <==> Occurs(ss, s.up) && Occurs(ss, s.down)
  {
    if ContainsAllStations(ss, s) then Fail(IllegalArgument) else Pass
  }

  /** Sum of the distances of all sections, as a mathematical integer.
      When no distance is negative, neither is the sum. */
  function TotalDistance(ss: seq<Section>): (r: int)
    ensures (forall i :: 0 <= i < |ss| ==> ss[i].distance >= 0) ==> r >= 0
  {
    if |ss| == 0 then 0
    else
      assert forall i :: 1 <= i < |ss| ==> ss[1..][i - 1] == ss[i];
      ss[0].distance + TotalDistance(ss[1..])
  }

  /** With no negative distance, the total is at least the distance of every
      single section. */
  lemma {:induction false} TotalDistanceBoundsEach(ss: seq<Section>, i: nat)
    requires forall j :: 0 <= j < |ss| ==> ss[j].distance >= 0
    requires i < |ss|
    ensures ss[i].distance <= TotalDistance(ss)
  {
    assert forall j :: 1 <= j < |ss| ==> ss[1..][j - 1] == ss[j];
    if i > 0 {
      TotalDistanceBoundsEach(ss[1..], i - 1);
    }
  }

  /** Two to the 32nd: the modulus of Java `int` arithmetic. */
  const Int32Modulus: int := 0x1_0000_0000

  /** The smallest Java `int`. */
  const Int32Min: int := -0x8000_0000

  /** `x` reduced into the Java `int` range, as two's-complement addition
      wraps it. */
  function Wrap32(x: int): (r: int)
    ensures Int32Min <= r < Int32Min + Int32Modulus
    ensures (x - r) % Int32Modulus == 0
    ensures Int32Min <= x < Int32Min + Int32Modulus ==> r == x
  {
    (x - Int32Min) % Int32Modulus + Int32Min
  }

  /** Wrapping an intermediate sum does not change the wrapped result of
      adding to it: Java's per-step wrap equals one wrap at the end. */
  lemma Wrap32AddCongruent(a: int, d: int)
    ensures Wrap32(Wrap32(a) + d) == Wrap32(a + d)
  {
  }

  /** The total as Java computes it: `IntStream.sum` adds the distances left
      to right in 32-bit `int` arithmetic, wrapping on every addition. */
  function JavaTotalDistance(ss: seq<Section>): (r: int)
    ensures Int32Min <= r < Int32Min + Int32Modulus
  {
    if |ss| == 0 then 0
    else Wrap32(JavaTotalDistance(ss[..|ss| - 1]) + ss[|ss| - 1].distance)
  }

  /** Java's wrapping sum is the mathematical total reduced into the `int`
      range, and equals it whenever the total fits in an `int`. */
  lemma {:induction false} JavaTotalDistanceWraps(ss: seq<Section>)
    ensures JavaTotalDistance(ss) == Wrap32(TotalDistance(ss))
    ensures Int32Min <= TotalDistance(ss) < Int32Min + Int32Modulus ==>
              JavaTotalDistance(ss) == TotalDistance(ss)
  {
    if |ss| > 0 {
      var prefix := ss[..|ss| - 1];
      var last := ss[|ss| - 1];
      JavaTotalDistanceWraps(prefix);
      assert ss == prefix + [last];
      TotalDistanceAppend(prefix, last);
      Wrap32AddCongruent(TotalDistance(prefix), last.distance);
    }
  }

  /** When no distance is negative and the exact total fits in an `int`,
      the total Java returns is at least the distance of every section. */
  lemma JavaTotalDistanceBoundsEach(ss: seq<Section>, i: nat)
    requires forall j :: 0 <= j < |ss| ==> ss[j].distance >= 0
    requires TotalDistance(ss) < Int32Min + Int32Modulus
    requires i < |ss|
    ensures ss[i].distance <= JavaTotalDistance(ss)
  {
    TotalDistanceBoundsEach(ss, i);
    JavaTotalDistanceWraps(ss);
  }

  /** Without the fit condition the bound fails: two sections of the largest
      `int` distance give a Java total of -2. */
  lemma JavaTotalDistanceOverflows()
    ensures JavaTotalDistance([Section(1, 2, 0x7fff_ffff), Section(2, 3, 0x7fff_ffff)]) == -2
  {
  }

  /** Total distance is additive over concatenation. */
  lemma {:induction false} TotalDistanceConcat(a: seq<Section>, b: seq<Section>)
    ensures TotalDistance(a + b) == TotalDistance(a) + TotalDistance(b)
  {
    if |a| == 0 {
      assert a + b == b;
    } else {
      assert (a + b)[1..] == a[1..] + b;
      TotalDistanceConcat(a[1..], b);
    }
  }

  /** Appending one section adds exactly its distance to the total. */
  lemma TotalDistanceAppend(ss: seq<Section>, s: Section)
    ensures TotalDistance(ss + [s]) == TotalDistance(ss) + s.distance
  {
    TotalDistanceConcat(ss, [s]);
    assert [s][1..] == [];
  }

  /** Adds `s` to the end of `ss`, after checking that it does not repeat
      two stations already on the line. */
  function AddSection(ss: seq<Section>, s: Section): (r: Result<seq<Section>>)
    ensures r == Err(IllegalArgument) <==> Occurs(ss, s.up) && Occurs(ss, s.down)
    ensures r.Ok? ==> |r.value| == |ss| + 1 && r.value[..|ss|] == ss && r.value[|ss|] == s
    ensures |ss| == 0 ==> r.Ok?
    ensures r.Ok? ==> TotalDistance(r.value) == TotalDistance(ss) + s.distance
  {
    match ValidateNotDuplicate(ss, s)
    case Fail(e) => Err(e)
    case Pass =>
      TotalDistanceAppend(ss, s);
      Ok(ss + [s])
  }

  /** The section list held after `AddSection(ss, s)` returns or throws:
      a refused section leaves the list exactly as it was. */
  function SectionsAfterAdd(ss: seq<Section>, s: Section): (r: seq<Section>)
    ensures Occurs(ss, s.up) && Occurs(ss, s.down) ==> r == ss
    ensures !(Occurs(ss, s.up) && Occurs(ss, s.down)) ==> |r| == |ss| + 1 && r[|ss|] == s
    ensures r[..|ss|] == ss
  {
    match AddSection(ss, s)
    case Ok(next) => next
    case Err(_) => ss
  }

  /** The position of the first occurrence of `x` in `xs`. */
  function FirstIndex(xs: seq<StationId>, x: StationId): (r: nat)
    requires x in xs
    ensures r < |xs| && xs[r] == x && x !in xs[..r]
  {
    var prefix := xs[..|xs| - 1];
    if x in prefix then
      var i := FirstIndex(prefix, x);
      assert xs[..i] == prefix[..i];
      i
    else
      assert xs[..|xs| - 1] == prefix;
      |xs| - 1
  }

  /** Every two elements of `r` that occur in `xs` are ordered as their
      first occurrences in `xs` are. */
  ghost predicate FirstOccurrenceOrder(xs: seq<StationId>, r: seq<StationId>) {
    forall a, b :: 0 <= a < b < |r| && r[a] in xs && r[b] in xs ==> FirstIndex(xs, r[a]) < FirstIndex(xs, r[b])
  }

  /** `r` extended by `x` unless `x` is already in it. */
  function KeepNew(r: seq<StationId>, x: StationId): seq<StationId> {
    if x in r then r else r + [x]
  }

  /** The elements of `xs` with every repeat removed, each kept at its first
      occurrence. */
  function Distinct(xs: seq<StationId>): (r: seq<StationId>)
    ensures NoDuplicates(r)
    ensures forall x :: x in r <==> x in xs
    ensures |r| <= |xs|
  {
    if |xs| == 0 then []
    else
      var last := xs[|xs| - 1];
      assert xs == xs[..|xs| - 1] + [last];
      KeepNew(Distinct(xs[..|xs| - 1]), last)
  }

  /** Removing duplicates keeps the order of first occurrences: an element
      earlier in `Distinct(xs)` first occurs earlier in `xs`. */
  lemma {:induction false} DistinctKeepsFirstOccurrenceOrder(xs: seq<StationId>)
    ensures FirstOccurrenceOrder(xs, Distinct(xs))
  {
    if |xs| > 0 {
      var prefix := xs[..|xs| - 1];
      var last := xs[|xs| - 1];
      DistinctKeepsFirstOccurrenceOrder(prefix);
      var d := Distinct(prefix);
      var r := Distinct(xs);
      forall a, b | 0 <= a < b < |r| ensures FirstIndex(xs, r[a]) < FirstIndex(xs, r[b]) {
        assert r[a] in prefix;
        assert FirstIndex(xs, r[a]) == FirstIndex(prefix, r[a]);
        if b < |d| {
          assert r[b] == d[b];
          assert FirstIndex(xs, r[b]) == FirstIndex(prefix, r[b]);
        } else {
          assert r[b] == last && last !in prefix;
        }
      }
    }
  }

  /** A sequence is empty or has its first element as a member. Stated
      without a precondition so that a caller whose facts already rule out
      a non-empty sequence can use it without an infeasible branch. */
  lemma EmptyOrHasFirst(t: seq<StationId>)
    ensures |t| == 0 || t[0] in t
  {
  }

  /** In a list ordered by first occurrence in `xs`, an element whose first
      occurrence is the last position of `xs` must be the list's last. */
  lemma LatestFirstOccurrenceIsLast(xs: seq<StationId>, t: seq<StationId>, k: nat)
    requires forall x :: x in t ==> x in xs
    requires FirstOccurrenceOrder(xs, t)
    requires k < |t| && t[k] in xs && FirstIndex(xs, t[k]) == |xs| - 1
    ensures k == |t| - 1
  {
    var y := t[|t| - 1];
    assert y in xs;
    assert FirstIndex(xs, y) < |xs|;
  }

  /** When the last element of `xs` repeats an earlier one, a list ordered
      by first occurrence in `xs` is ordered by first occurrence in the
      prefix too, and has the prefix's members. */
  lemma UniqueOnRepeatedLast(xs: seq<StationId>, t: seq<StationId>)
    requires |xs| > 0 && xs[|xs| - 1] in xs[..|xs| - 1]
    requires forall x :: x in t <==> x in xs
    requires FirstOccurrenceOrder(xs, t)
    ensures forall x :: x in t <==> x in xs[..|xs| - 1]
    ensures FirstOccurrenceOrder(xs[..|xs| - 1], t)
  {
  }

  /** When the last element of `xs` is new, a list with the members of `xs`
      in first-occurrence order ends with it. */
  lemma NewLastEndsView(xs: seq<StationId>, t: seq<StationId>)
    requires |xs| > 0 && xs[|xs| - 1] !in xs[..|xs| - 1]
    requires forall x :: x in t <==> x in xs
    requires FirstOccurrenceOrder(xs, t)
    ensures |t| > 0 && t[|t| - 1] == xs[|xs| - 1]
  {
    var last := xs[|xs| - 1];
    assert last in t;
    var k :| 0 <= k < |t| && t[k] == last;
    assert FirstIndex(xs, last) == |xs| - 1;
    LatestFirstOccurrenceIsLast(xs, t, k);
  }

  /** Dropping the new last element from both lists keeps their members
      equal. */
  lemma NewLastDropMembers(xs: seq<StationId>, t: seq<StationId>, prefix: seq<StationId>, init: seq<StationId>, last: StationId)
    requires xs == prefix + [last] && last !in prefix
    requires t == init + [last] && NoDuplicates(t)
    requires forall x :: x in t <==> x in xs
    ensures NoDuplicates(init)
    ensures forall x :: x in init <==> x in prefix
  {
    assert forall j :: 0 <= j < |init| ==> init[j] == t[j];
    forall x ensures x in init <==> x in prefix {
      if x in init {
        var j :| 0 <= j < |init| && init[j] == x;
        assert t[j] == x && t[|t| - 1] == last && j != |t| - 1;
        assert x in xs && x != last;
      }
      if x in prefix {
        assert x in xs && x != last;
      }
    }
  }

  /** Dropping the new last element from both lists keeps the
      first-occurrence order. */
  lemma NewLastDropOrder(xs: seq<StationId>, t: seq<StationId>, prefix: seq<StationId>, init: seq<StationId>)
    requires |xs| > 0 && prefix == xs[..|xs| - 1]
    requires |t| > 0 && init == t[..|t| - 1]
    requires FirstOccurrenceOrder(xs, t)
    ensures FirstOccurrenceOrder(prefix, init)
  {
  }

  /** `Distinct` is the only duplicate-free arrangement of the elements of
      `xs` in first-occurrence order. */
  lemma {:induction false} DistinctIsUnique(xs: seq<StationId>, t: seq<StationId>)
    requires NoDuplicates(t)
    requires forall x :: x in t <==> x in xs
    requires FirstOccurrenceOrder(xs, t)
    ensures t == Distinct(xs)
  {
    if |xs| == 0 {
      EmptyOrHasFirst(t);
    } else if xs[|xs| - 1] in xs[..|xs| - 1] {
      UniqueOnRepeatedLast(xs, t);
      DistinctIsUnique(xs[..|xs| - 1], t);
    } else {
      NewLastEndsView(xs, t);
      var prefix, init := xs[..|xs| - 1], t[..|t| - 1];
      assert xs == prefix + [xs[|xs| - 1]] && t == init + [xs[|xs| - 1]];
      NewLastDropMembers(xs, t, prefix, init, xs[|xs| - 1]);
      NewLastDropOrder(xs, t, prefix, init);
      DistinctIsUnique(prefix, init);
    }
  }

  /** `Distinct` extends by one element exactly when that element is new. */
  lemma DistinctSnoc(xs: seq<StationId>, x: StationId)
    ensures Distinct(xs + [x]) == KeepNew(Distinct(xs), x)
  {
  }

  /** Appending a section to the list appends its up station and then its
      down station to the de-duplicated view, each only if not seen before. */
  lemma DistinctFlattenSnoc(ss: seq<Section>, s: Section)
    ensures Distinct(Flatten(ss + [s])) == KeepNew(KeepNew(Distinct(Flatten(ss)), s.up), s.down)
  {
    var before := Flatten(ss);
    assert (ss + [s])[..|ss|] == ss;
    assert Flatten(ss + [s]) == (before + [s.up]) + [s.down];
    DistinctSnoc(before, s.up);
    DistinctSnoc(before + [s.up], s.down);
  }

  /** Walking one more section through `Distinct` keeps its up station and
      then its down station, each only if not seen before. */
  lemma DistinctFlattenStep(ss: seq<Section>, i: nat)
    requires i < |ss|
    ensures Distinct(Flatten(ss[..i + 1])) == KeepNew(KeepNew(Distinct(Flatten(ss[..i])), ss[i].up), ss[i].down)
  {
    assert ss[..i + 1] == ss[..i] + [ss[i]];
    DistinctFlattenSnoc(ss[..i], ss[i]);
  }

  /** `r` is the station view of `ss`: every station of every section,
      nothing else, each once, in the order of first occurrence in the
      flattened [up, down, up, down, ...] list. */
  ghost predicate IsStationView(ss: seq<Section>, r: seq<StationId>) {
    && NoDuplicates(r)
    && (forall st :: st in r <==> Occurs(ss, st))
    && FirstOccurrenceOrder(Flatten(ss), r)
  }

  /** De-duplicating the flattened list yields the station view. */
  lemma DistinctIsStationView(ss: seq<Section>)
    ensures IsStationView(ss, Distinct(Flatten(ss)))
  {
    DistinctKeepsFirstOccurrenceOrder(Flatten(ss));
  }

  /** The station view is unique: it is the de-duplicated flattened list. */
  lemma StationViewIsUnique(ss: seq<Section>, t: seq<StationId>)
    requires IsStationView(ss, t)
    ensures t == Distinct(Flatten(ss))
  {
    DistinctIsUnique(Flatten(ss), t);
  }

  /** One step of stream de-duplication: `x` is appended and remembered
      unless it has been seen already. */
  method AppendIfUnseen(r: seq<StationId>, seen: set<StationId>, x: StationId)
    returns (r': seq<StationId>, seen': set<StationId>)
    requires forall st :: st in seen <==> st in r
    ensures r' == KeepNew(r, x)
    ensures forall st :: st in seen' <==> st in r'
  {
    if x in seen {
      r', seen' := r, seen;
    } else {
      r', seen' := r + [x], seen + {x};
    }
  }

  /** The distinct stations of the line, in the order in which they first
      appear in the flattened [up, down, up, down, ...] list. */
  method GetStations(ss: seq<Section>) returns (r: seq<StationId>)
    ensures IsStationView(ss, r)
    ensures |r| <= 2 * |ss|
  {
    r := [];
    var seen: set<StationId> := {};
    var i := 0;
    while i < |ss|
      invariant 0 <= i <= |ss|
      invariant r == Distinct(Flatten(ss[..i]))
      invariant forall st :: st in seen <==> st in r
    {
      DistinctFlattenStep(ss, i);
      r, seen := AppendIfUnseen(r, seen, ss[i].up);
      r, seen := AppendIfUnseen(r, seen, ss[i].down);
      i := i + 1;
    }
    assert ss[..i] == ss;
    DistinctIsStationView(ss);
  }

  /** A section repeating both stations of an existing section is refused. */
  lemma RepeatedSectionRejected(ss: seq<Section>, i: nat, distance: int)
    requires i < |ss|
    ensures AddSection(ss, Section(ss[i].up, ss[i].down, distance)) == Err(IllegalArgument)
  {
  }

  /** Keeping two stations of which at least one is new extends `r` by one
      or two elements and leaves `r` as a prefix. */
  lemma KeepNewTwiceExtends(r: seq<StationId>, x: StationId, y: StationId)
    requires !(x in r && y in r)
    ensures KeepNew(KeepNew(r, x), y)[..|r|] == r
    ensures |r| < |KeepNew(KeepNew(r, x), y)| <= |r| + 2
  {
  }

  /** A successful add keeps the existing station view as a prefix and adds
      one or two new stations after it: up station first, then the down
      station. */
  lemma AddSectionExtendsStations(ss: seq<Section>, s: Section)
    requires AddSection(ss, s).Ok?
    ensures
      var before := Distinct(Flatten(ss));
      var after := Distinct(Flatten(AddSection(ss, s).value));
      && after == KeepNew(KeepNew(before, s.up), s.down)
      && after[..|before|] == before
      && |before| < |after| <= |before| + 2
  {
    var before := Distinct(Flatten(ss));
    assert AddSection(ss, s).value == ss + [s];
    DistinctFlattenSnoc(ss, s);
    assert !(s.up in before && s.down in before) by {
      assert !(Occurs(ss, s.up) && Occurs(ss, s.down));
    }
    KeepNewTwiceExtends(before, s.up, s.down);
  }
}
