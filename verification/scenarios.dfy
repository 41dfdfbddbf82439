/**
 Concrete scenarios on a line whose first section runs from station 1 to
 station 2 over distance 10. The station view is `Distinct(Flatten(ss))`,
 which `Sections.GetStations` is proved to return.
 */
module Scenarios {
  import opened Domain
  import opened Sections

  /** The collection holding the line's first section. */
  function Initial(): seq<Section> {
    [Section(1, 2, 10)]
  }

  /** The station view of the initial collection. */
  lemma InitialStations()
    ensures Distinct(Flatten(Initial())) == [1, 2]
  {
    assert Flatten(Initial()) == [1, 2];
    assert [1, 2][..1] == [1];
    assert [1][..0] == [];
  }

  /** After a successful add to the initial collection, the station view is
      1, 2 followed by whichever of the new stations are new. */
  lemma StationsAfterOneAdd(s: Section)
    requires AddSection(Initial(), s).Ok?
    ensures Distinct(Flatten(AddSection(Initial(), s).value)) == KeepNew(KeepNew([1, 2], s.up), s.down)
  {
    InitialStations();
    AddSectionExtendsStations(Initial(), s);
  }

  /** Re-adding the pair 1 -> 2, with any distance, is refused. */
  lemma SameSectionRejected()
    ensures AddSection(Initial(), Section(1, 2, 5)) == Err(IllegalArgument)
  {
  }

  /** Extending past the down terminal: three stations, total 20. */
  lemma ExtendDownTerminal()
    ensures AddSection(Initial(), Section(2, 3, 10)).Ok?
    ensures Distinct(Flatten(AddSection(Initial(), Section(2, 3, 10)).value)) == [1, 2, 3]
    ensures TotalDistance(AddSection(Initial(), Section(2, 3, 10)).value) == 20
  {
    var s := Section(2, 3, 10);
    assert !Occurs(Initial(), 3);
    StationsAfterOneAdd(s);
    assert KeepNew(KeepNew([1, 2], 2), 3) == [1, 2, 3];
  }

  /** Extending before the up terminal: three stations, total 15. The new
      station is listed after the existing ones, since the view follows
      the order in which sections were added. */
  lemma ExtendUpTerminal()
    ensures AddSection(Initial(), Section(4, 1, 5)).Ok?
    ensures Distinct(Flatten(AddSection(Initial(), Section(4, 1, 5)).value)) == [1, 2, 4]
    ensures TotalDistance(AddSection(Initial(), Section(4, 1, 5)).value) == 15
  {
    var s := Section(4, 1, 5);
    assert !Occurs(Initial(), 4);
    StationsAfterOneAdd(s);
    assert KeepNew(KeepNew([1, 2], 4), 1) == [1, 2, 4];
  }

  /** A section sharing only its up station is appended as it is; the
      existing section is not shortened, so the total grows to 15. */
  lemma AddSharingUpStation()
    ensures AddSection(Initial(), Section(1, 5, 5)) == Ok([Section(1, 2, 10), Section(1, 5, 5)])
    ensures Distinct(Flatten(AddSection(Initial(), Section(1, 5, 5)).value)) == [1, 2, 5]
    ensures TotalDistance(AddSection(Initial(), Section(1, 5, 5)).value) == 15
  {
    var s := Section(1, 5, 5);
    assert !Occurs(Initial(), 5);
    assert Initial() + [s] == [Section(1, 2, 10), s];
    StationsAfterOneAdd(s);
    assert KeepNew(KeepNew([1, 2], 1), 5) == [1, 2, 5];
  }

  /** A section touching no station of the line is accepted: the collection
      only refuses sections whose two stations are both known. */
  lemma DisconnectedSectionAccepted()
    ensures AddSection(Initial(), Section(5, 6, 5)) == Ok([Section(1, 2, 10), Section(5, 6, 5)])
  {
    assert !Occurs(Initial(), 5) by {
      assert Flatten(Initial()) == [1, 2];
    }
    assert Initial() + [Section(5, 6, 5)] == [Section(1, 2, 10), Section(5, 6, 5)];
  }
}
