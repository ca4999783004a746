/** Worked examples of the filters and sums on small concrete tables. */
module Examples {
  import opened Wrappers
  import opened Frames
  import opened Seqs
  import Dashboard
  import Breakdowns
  import Groups

  /** Days since 1970-01-01. */
  const Jan1: int := 19723
  const Jan5: int := 19727
  const Jan31: int := 19753
  const Feb1: int := 19754

  function Sale(hyp: string, city: string, day: int, amount: int): Row {
    Row(Some(hyp), Some("ref"), None, Some("France"), Some(city), None, At(Midnight(day)), Num(amount), None)
  }

  /**
   * Two Paris sales, on 5 January and 1 February 2024: January's range keeps only the first,
   * and its city sum is 100.
   */
  lemma JanuaryInParis()
    ensures Dashboard.FilterData(
      Table({OrderDate, Country, City, Amount}, [Sale("1", "Paris", Jan5, 100), Sale("1", "Paris", Feb1, 50)]),
      [],
      Dashboard.Filters(Dashboard.AllCountries, Dashboard.AllTeams, Dashboard.AllDepartments, Dashboard.AllActivities, Jan1, Jan31))
      == [Sale("1", "Paris", Jan5, 100)]
  {
    var a, b := Sale("1", "Paris", Jan5, 100), Sale("1", "Paris", Feb1, 50);
    var mask := Dashboard.DateMask(Jan1, Jan31);
    assert mask(a) && !mask(b);
    assert [a, b][..1] == [a];
    assert Select([a, b], mask) == Select([a], mask);
    assert [a][..0] == [];
  }

  lemma ParisKeys(a: Row)
    requires a == Sale("1", "Paris", Jan5, 100)
    ensures Groups.GroupKeys([a], Breakdowns.CityOf) == ["Paris"]
  {
    assert [a][..0] == [];
    assert Groups.KeysOf([a], Breakdowns.CityOf) == ["Paris"];
    assert ["Paris"][..0] == [];
  }

  lemma ParisTable(a: Row)
    requires a == Sale("1", "Paris", Jan5, 100)
    ensures Groups.Tabulate([a], Breakdowns.CityOf, AmountOf, ["Paris"]) == [("Paris", 100)]
  {
    assert [a][..0] == [];
    assert ["Paris"][..0] == [];
    assert Breakdowns.CityOf(a) == Some("Paris") && AmountOf(a) == 100;
    assert Groups.GroupTotal([a], Breakdowns.CityOf, AmountOf, "Paris") == 100;
  }

  /** One Paris sale of 100 gives Paris a total of 100. */
  lemma ParisTotal()
    ensures Breakdowns.SalesByCity([Sale("1", "Paris", Jan5, 100)]) == [("Paris", 100)]
  {
    var a := Sale("1", "Paris", Jan5, 100);
    ParisKeys(a);
    ParisTable(a);
    assert Groups.GroupSum([a], Breakdowns.CityOf, AmountOf) == [("Paris", 100)];
  }

  /**
   * With team A chosen, only the sale of the team-A agent is kept; the sale of an agent missing
   * from the roster is dropped with the team-B one.
   */
  lemma TeamAOnly()
    ensures Dashboard.FilterData(
      Table({Hyp, Amount}, [Sale("1", "Paris", Jan5, 10), Sale("2", "Paris", Jan5, 20), Sale("3", "Paris", Jan5, 5)]),
      [Staff(Some("1"), Some("A"), None, None), Staff(Some("2"), Some("B"), None, None)],
      Dashboard.Filters(Dashboard.AllCountries, "A", Dashboard.AllDepartments, Dashboard.AllActivities, Jan1, Jan31))
      == [Sale("1", "Paris", Jan5, 10)]
  {
    var x, y, z := Sale("1", "Paris", Jan5, 10), Sale("2", "Paris", Jan5, 20), Sale("3", "Paris", Jan5, 5);
    var roster := [Staff(Some("1"), Some("A"), None, None), Staff(Some("2"), Some("B"), None, None)];
    var f := Dashboard.Filters(Dashboard.AllCountries, "A", Dashboard.AllDepartments, Dashboard.AllActivities, Jan1, Jan31);
    var t := Table({Hyp, Amount}, [x, y, z]);
    Dashboard.FilterDataIsAdmitted(t, roster, f);
    TeamAMask(x, y, z, roster, f);
    SelectFirstOfThree(x, y, z, Dashboard.AdmittedMask(t, roster, f));
  }

  /** Under the team-A filters only the sale of agent 1 is admitted. */
  lemma TeamAMask(x: Row, y: Row, z: Row, roster: seq<Staff>, f: Dashboard.Filters)
    requires x == Sale("1", "Paris", Jan5, 10) && y == Sale("2", "Paris", Jan5, 20) && z == Sale("3", "Paris", Jan5, 5)
    requires roster == [Staff(Some("1"), Some("A"), None, None), Staff(Some("2"), Some("B"), None, None)]
    requires f == Dashboard.Filters(Dashboard.AllCountries, "A", Dashboard.AllDepartments, Dashboard.AllActivities, Jan1, Jan31)
    ensures var m := Dashboard.AdmittedMask(Table({Hyp, Amount}, [x, y, z]), roster, f); m(x) && !m(y) && !m(z)
  {
    assert Dashboard.StaffPasses(roster[0], f) && !Dashboard.StaffPasses(roster[1], f);
    assert roster[0] in roster && roster[0].hyp == x.hyp;
  }

  /** Selecting from three rows of which only the first passes keeps that one. */
  lemma SelectFirstOfThree(x: Row, y: Row, z: Row, m: Row -> bool)
    requires m(x) && !m(y) && !m(z)
    ensures Select([x, y, z], m) == [x]
  {
    assert [x, y, z] == [x, y] + [z] && [x, y] == [x] + [y] && [x] == [] + [x];
    SelectSnoc([x, y], z, m);
    SelectSnoc([x], y, m);
    SelectSnoc([], x, m);
  }
}
