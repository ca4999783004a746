/**
 * The group-by sums shown as charts: amounts per city, per bank and, after a left merge of the
 * sales with the roster's (Hyp, Team) columns, per team.
 */
module Breakdowns {
  import opened Wrappers
  import opened Frames
  import opened Seqs
  import opened Groups

  function CityOf(r: Row): Cell {
    r.city
  }

  function BankOf(r: Row): Cell {
    r.bank
  }

  /**
   * `groupby('City')[amount].sum()`: each city once, its total taken over exactly the rows of
   * that city; rows with no city belong to no group, and the totals add up to the amount of
   * all the other rows.
   */
  function SalesByCity(rows: seq<Row>): (r: seq<(string, int)>)
    ensures forall i, j :: 0 <= i < j < |r| ==> r[i].0 != r[j].0
    ensures forall i :: 0 <= i < |r| ==> r[i].1 == Sum(Select(rows, HasKey(CityOf, r[i].0)), AmountOf)
    ensures Sum(r, Second) == Sum(Select(rows, HasSomeKey(CityOf)), AmountOf)
    ensures (forall x :: x in rows ==> x.city.Some?) ==> Sum(r, Second) == Sum(rows, AmountOf)
  {
    GroupSumAddsUp(rows, CityOf, AmountOf);
    AllKeyed(rows, CityOf);
    GroupSum(rows, CityOf, AmountOf)
  }

  /** A city is listed exactly when some row has it. */
  lemma SalesByCityListsCities(rows: seq<Row>, c: string)
    ensures (exists i :: 0 <= i < |SalesByCity(rows)| && SalesByCity(rows)[i].0 == c) <==> (exists x :: x in rows && x.city == Some(c))
  {
    var g := SalesByCity(rows);
    if exists i :: 0 <= i < |g| && g[i].0 == c {
      var j :| 0 <= j < |rows| && CityOf(rows[j]) == Some(c);
      assert rows[j] in rows;
    }
    if exists x :: x in rows && x.city == Some(c) {
      var x :| x in rows && x.city == Some(c);
      var j :| 0 <= j < |rows| && rows[j] == x;
      assert CityOf(rows[j]) == Some(c);
    }
  }

  /** `groupby('Banques')['TRANSACTION'].sum()`, with the same guarantees as the city sums. */
  function BankTotals(rows: seq<Row>): (r: seq<(string, int)>)
    ensures forall i, j :: 0 <= i < j < |r| ==> r[i].0 != r[j].0
    ensures forall i :: 0 <= i < |r| ==> r[i].1 == Sum(Select(rows, HasKey(BankOf, r[i].0)), AmountOf)
    ensures Sum(r, Second) == Sum(Select(rows, HasSomeKey(BankOf)), AmountOf)
    ensures (forall x :: x in rows ==> x.bank.Some?) ==> Sum(r, Second) == Sum(rows, AmountOf)
  {
    GroupSumAddsUp(rows, BankOf, AmountOf);
    AllKeyed(rows, BankOf);
    GroupSum(rows, BankOf, AmountOf)
  }

  /** A bank is listed exactly when some row has it. */
  lemma BankTotalsListsBanks(rows: seq<Row>, b: string)
    ensures (exists i :: 0 <= i < |BankTotals(rows)| && BankTotals(rows)[i].0 == b) <==> (exists x :: x in rows && x.bank == Some(b))
  {
    var g := BankTotals(rows);
    if exists i :: 0 <= i < |g| && g[i].0 == b {
      var j :| 0 <= j < |rows| && BankOf(rows[j]) == Some(b);
      assert rows[j] in rows;
    }
    if exists x :: x in rows && x.bank == Some(b) {
      var x :| x in rows && x.bank == Some(b);
      var j :| 0 <= j < |rows| && rows[j] == x;
      assert BankOf(rows[j]) == Some(b);
    }
  }

  /** `staff_df[['Hyp', 'Team']]`. */
  function TeamColumn(roster: seq<Staff>): (c: seq<(Cell, Cell)>)
    ensures |c| == |roster|
    ensures forall i :: 0 <= i < |roster| ==> c[i] == (roster[i].hyp, roster[i].team)
  {
    seq(|roster|, i requires 0 <= i < |roster| => (roster[i].hyp, roster[i].team))
  }

  function HypOf(r: Row): Cell {
    r.hyp
  }

  /** `rows.merge(staff_df[['Hyp', 'Team']], on='Hyp', how='left')`: each row with a Team cell, if matched. */
  function WithTeam(rows: seq<Row>, roster: seq<Staff>): (r: seq<(Row, Option<Cell>)>)
    ensures |r| >= |rows|
    ensures forall i :: 0 <= i < |r| ==> r[i].0 in rows
  {
    LeftMergeFromLeft(rows, TeamColumn(roster), HypOf);
    LeftMerge(rows, TeamColumn(roster), HypOf)
  }

  /** The Team key of a merged row: missing when the row had no roster match or the Team cell is empty. */
  function TeamOf(p: (Row, Option<Cell>)): Option<string> {
    if p.1.Some? then p.1.value else None
  }

  function MergedAmount(p: (Row, Option<Cell>)): int {
    AmountOf(p.0)
  }

  /** `groupby('Team')[amount].sum()` over the merged rows. */
  function SalesByTeam(rows: seq<Row>, roster: seq<Staff>): (r: seq<(string, int)>)
    ensures forall i, j :: 0 <= i < j < |r| ==> r[i].0 != r[j].0
    ensures forall k :: (exists i :: 0 <= i < |r| && r[i].0 == k) <==>
      (exists j :: 0 <= j < |WithTeam(rows, roster)| && TeamOf(WithTeam(rows, roster)[j]) == Some(k))
  {
    GroupSum(WithTeam(rows, roster), TeamOf, MergedAmount)
  }

  /**
   * The team chart is drawn only for a non-empty filtered table with a Hyp column and a non-empty
   * roster. Each team appears once, with the sum of its members' shares of the rows.
   */
  function TeamBreakdown(columns: set<Column>, rows: seq<Row>, roster: seq<Staff>): (r: Option<seq<(string, int)>>)
    ensures r.Some? <==> rows != [] && roster != [] && Hyp in columns
    ensures r.Some? ==> forall i, j :: 0 <= i < j < |r.value| ==> r.value[i].0 != r.value[j].0
    ensures r.Some? ==> forall i :: 0 <= i < |r.value| ==> r.value[i].1 == Sum(rows, TeamShare(roster, r.value[i].0))
    ensures r.Some? ==> forall k :: (exists i :: 0 <= i < |r.value| && r.value[i].0 == k) <==>
      (exists x, s :: x in rows && s in roster && s.hyp == x.hyp && s.team == Some(k))
  {
    if rows != [] && roster != [] && Hyp in columns then
      SalesByTeamTotals(rows, roster);
      SalesByTeamListsAllTeams(rows, roster);
      Some(SalesByTeam(rows, roster))
    else None
  }

  /**
   * A team is listed exactly when some sale's Hyp has a roster row in that team: the merged rows
   * carrying the team are those sales paired with such roster rows.
   */
  lemma SalesByTeamListsTeams(rows: seq<Row>, roster: seq<Staff>, k: string)
    ensures (exists i :: 0 <= i < |SalesByTeam(rows, roster)| && SalesByTeam(rows, roster)[i].0 == k) <==>
      (exists x, s :: x in rows && s in roster && s.hyp == x.hyp && s.team == Some(k))
  {
    var w := WithTeam(rows, roster);
    if exists j :: 0 <= j < |w| && TeamOf(w[j]) == Some(k) {
      var j :| 0 <= j < |w| && TeamOf(w[j]) == Some(k);
      MergedTeamHasMember(rows, roster, k, j);
    }
    if exists x, s :: x in rows && s in roster && s.hyp == x.hyp && s.team == Some(k) {
      var x, s :| x in rows && s in roster && s.hyp == x.hyp && s.team == Some(k);
      MemberGivesMergedTeam(rows, roster, k, x, s);
      var j :| 0 <= j < |w| && TeamOf(w[j]) == Some(k);
      var r := SalesByTeam(rows, roster);
      assert exists i :: 0 <= i < |r| && r[i].0 == k;
    }
  }

  lemma SalesByTeamListsAllTeams(rows: seq<Row>, roster: seq<Staff>)
    ensures forall k :: (exists i :: 0 <= i < |SalesByTeam(rows, roster)| && SalesByTeam(rows, roster)[i].0 == k) <==>
      (exists x, s :: x in rows && s in roster && s.hyp == x.hyp && s.team == Some(k))
  {
    forall k
      ensures (exists i :: 0 <= i < |SalesByTeam(rows, roster)| && SalesByTeam(rows, roster)[i].0 == k) <==>
        (exists x, s :: x in rows && s in roster && s.hyp == x.hyp && s.team == Some(k))
    {
      SalesByTeamListsTeams(rows, roster, k);
    }
  }

  /** A merged row carrying a team is a sale whose Hyp has a roster row in that team. */
  lemma MergedTeamHasMember(rows: seq<Row>, roster: seq<Staff>, k: string, j: nat)
    requires j < |WithTeam(rows, roster)| && TeamOf(WithTeam(rows, roster)[j]) == Some(k)
    ensures WithTeam(rows, roster)[j].0 in rows
    ensures exists s :: s in roster && s.hyp == WithTeam(rows, roster)[j].0.hyp && s.team == Some(k)
  {
    var c := TeamColumn(roster);
    var p := WithTeam(rows, roster)[j];
    var x := p.0;
    assert p == (x, Some(Some(k)));
    assert p in LeftMerge(rows, c, HypOf);
    LeftMergeMatch(rows, c, HypOf, x, Some(k));
    MatchesMembers(c, x.hyp, Some(k));
    var i :| 0 <= i < |c| && c[i] == (x.hyp, Some(k));
    assert roster[i] in roster;
  }

  /** A sale whose Hyp has a roster row in a team gives a merged row carrying that team. */
  lemma MemberGivesMergedTeam(rows: seq<Row>, roster: seq<Staff>, k: string, x: Row, s: Staff)
    requires x in rows && s in roster && s.hyp == x.hyp && s.team == Some(k)
    ensures exists j :: 0 <= j < |WithTeam(rows, roster)| && TeamOf(WithTeam(rows, roster)[j]) == Some(k)
  {
    var c := TeamColumn(roster);
    var i :| 0 <= i < |roster| && roster[i] == s;
    assert c[i] == (x.hyp, Some(k));
    assert (x.hyp, Some(k)) in c;
    MatchesMembers(c, x.hyp, Some(k));
    assert HypOf(x) == x.hyp;
    LeftMergeMatch(rows, c, HypOf, x, Some(k));
    var w := WithTeam(rows, roster);
    assert (x, Some(Some(k))) in w;
    var j :| 0 <= j < |w| && w[j] == (x, Some(Some(k)));
    assert TeamOf(w[j]) == Some(k);
  }

  function HypIs(h: Cell): Staff -> bool {
    (s: Staff) => s.hyp == h
  }

  function TeamMember(h: Cell, team: string): Staff -> bool {
    (s: Staff) => s.hyp == h && s.team == Some(team)
  }

  /** The roster rows with Hyp `h`: how many, and how many of them are in `team`. */
  lemma {:induction false} TeamMatches(roster: seq<Staff>, h: Cell, team: string)
    ensures |Matches(TeamColumn(roster), h)| == |Select(roster, HypIs(h))|
    ensures Count(Matches(TeamColumn(roster), h), Some(team)) == |Select(roster, TeamMember(h, team))|
  {
    if roster != [] {
      var init, last := roster[..|roster| - 1], roster[|roster| - 1];
      var c := TeamColumn(roster);
      assert c[..|c| - 1] == TeamColumn(init);
      assert c[|c| - 1] == (last.hyp, last.team);
      assert roster == init + [last];
      TeamMatches(init, h, team);
      var before := Matches(TeamColumn(init), h);
      if last.hyp == h {
        assert Matches(c, h) == before + [last.team];
        CountSnoc(before, last.team, Some(team));
      } else {
        assert Matches(c, h) == before;
      }
      SelectSnoc(init, last, HypIs(h));
      SelectSnoc(init, last, TeamMember(h, team));
    }
  }

  /**
   * How many merged rows a row becomes: one per roster row with its Hyp, or one when there is
   * none.
   */
  function Fanout(roster: seq<Staff>, r: Row): nat {
    var n := |Select(roster, HypIs(r.hyp))|;
    if n == 0 then 1 else n
  }

  function FanoutOf(roster: seq<Staff>): Row -> int {
    (r: Row) => Fanout(roster, r)
  }

  /** The merge duplicates a row once per extra roster row sharing its Hyp. */
  lemma {:induction false} WithTeamLength(rows: seq<Row>, roster: seq<Staff>)
    ensures |WithTeam(rows, roster)| == Sum(rows, FanoutOf(roster))
  {
    if rows != [] {
      var init, x := rows[..|rows| - 1], rows[|rows| - 1];
      WithTeamLength(init, roster);
      TeamMatches(roster, x.hyp, "");
    }
  }

  /**
   * When no Hyp of the table occurs twice in the roster the merge keeps the row count and the
   * order, and a row gets a Team cell exactly when its Hyp is in the roster.
   */
  lemma WithTeamUnique(rows: seq<Row>, roster: seq<Staff>)
    requires forall x :: x in rows ==> |Select(roster, HypIs(x.hyp))| <= 1
    ensures |WithTeam(rows, roster)| == |rows|
    ensures forall i :: 0 <= i < |rows| ==> WithTeam(rows, roster)[i].0 == rows[i]
    ensures forall i :: 0 <= i < |rows| ==>
      (WithTeam(rows, roster)[i].1.Some? <==> exists s :: s in roster && s.hyp == rows[i].hyp)
  {
    var tc := TeamColumn(roster);
    forall x | x in rows
      ensures |Matches(tc, HypOf(x))| <= 1
    {
      TeamMatches(roster, x.hyp, "");
    }
    LeftMergeUnique(rows, tc, HypOf);
    forall i | 0 <= i < |rows|
      ensures WithTeam(rows, roster)[i].1.Some? <==> exists s :: s in roster && s.hyp == rows[i].hyp
    {
      var h := rows[i].hyp;
      TeamMatches(roster, h, "");
      SelectMembers(roster, HypIs(h));
      var sel := Select(roster, HypIs(h));
      if sel != [] {
        assert sel[0] in sel;
      }
    }
  }

  /** A row's contribution to a team: its amount once per roster row giving its Hyp that team. */
  function TeamShare(roster: seq<Staff>, team: string): Row -> int {
    (r: Row) => AmountOf(r) * |Select(roster, TeamMember(r.hyp, team))|
  }

  /** The merged rows of a row with matches `ms`: one per match, in order. */
  function Tagged(x: Row, ms: seq<Cell>): (r: seq<(Row, Option<Cell>)>)
    ensures |r| == |ms|
    ensures forall i :: 0 <= i < |ms| ==> r[i] == (x, Some(ms[i]))
  {
    if ms == [] then [] else Tagged(x, ms[..|ms| - 1]) + [(x, Some(ms[|ms| - 1]))]
  }

  /** The tagged copies of a row add its amount to `team` once per match carrying that team. */
  lemma {:induction false} TaggedTeamTotal(x: Row, ms: seq<Cell>, team: string)
    ensures Sum(Select(Tagged(x, ms), HasKey(TeamOf, team)), MergedAmount) == AmountOf(x) * Count(ms, Some(team))
  {
    if ms != [] {
      var init, last := ms[..|ms| - 1], ms[|ms| - 1];
      var p := HasKey(TeamOf, team);
      TaggedTeamTotal(x, init, team);
      TaggedTeamStep(x, ms, team);
      AddShare(AmountOf(x), Count(init, Some(team)), Sum(Select(Tagged(x, init), p), MergedAmount),
        Sum(Select(Tagged(x, ms), p), MergedAmount), last == Some(team));
    }
  }

  /** One more match adds the row's amount to `team` when it carries that team. */
  lemma TaggedTeamStep(x: Row, ms: seq<Cell>, team: string)
    requires ms != []
    ensures Sum(Select(Tagged(x, ms), HasKey(TeamOf, team)), MergedAmount) ==
      Sum(Select(Tagged(x, ms[..|ms| - 1]), HasKey(TeamOf, team)), MergedAmount)
      + (if ms[|ms| - 1] == Some(team) then AmountOf(x) else 0)
  {
    var p := HasKey(TeamOf, team);
    var init := ms[..|ms| - 1];
    var y := (x, Some(ms[|ms| - 1]));
    assert Tagged(x, ms) == Tagged(x, init) + [y];
    SelectSnoc(Tagged(x, init), y, p);
    SumSnoc(Select(Tagged(x, init), p), y, MergedAmount);
    assert p(y) == (TeamOf(y) == Some(team));
  }

  /** The merged rows of one original row add its amount once per matching roster row in `team`. */
  lemma MergeRowTeamTotal(x: Row, ms: seq<Cell>, team: string)
    ensures Sum(Select(MergeRow(x, ms), HasKey(TeamOf, team)), MergedAmount) == AmountOf(x) * Count(ms, Some(team))
  {
    if ms == [] {
      var p := HasKey(TeamOf, team);
      assert MergeRow(x, ms) == [] + [(x, None)];
      assert p((x, None)) == (TeamOf((x, None)) == Some(team));
      SelectSnoc([], (x, None), p);
      assert Select(MergeRow(x, ms), p) == [];
    } else {
      assert MergeRow(x, ms) == Tagged(x, ms);
      TaggedTeamTotal(x, ms, team);
    }
  }

  /** One more match of the team adds the amount once more; another match adds nothing. */
  lemma AddShare(a: int, k: int, before: int, after: int, hit: bool)
    requires before == a * k
    requires after == before + (if hit then a else 0)
    ensures after == a * (k + if hit then 1 else 0)
  {
  }

  /**
   * The team sums as written: each team's total is the amount of every sales row counted once
   * per roster row that carries its Hyp and that team. A row whose Hyp has no roster row, or
   * only roster rows with no Team, is in no team's total: the merge gives it a missing Team and
   * the grouping drops it.
   */
  lemma {:induction false} TeamTotal(rows: seq<Row>, roster: seq<Staff>, team: string)
    ensures Sum(Select(WithTeam(rows, roster), HasKey(TeamOf, team)), MergedAmount) == Sum(rows, TeamShare(roster, team))
  {
    if rows != [] {
      var init, x := rows[..|rows| - 1], rows[|rows| - 1];
      var p := HasKey(TeamOf, team);
      var ms := Matches(TeamColumn(roster), x.hyp);
      TeamTotal(init, roster, team);
      assert WithTeam(rows, roster) == WithTeam(init, roster) + MergeRow(x, ms);
      SelectConcat(WithTeam(init, roster), MergeRow(x, ms), p);
      SumConcat(Select(WithTeam(init, roster), p), Select(MergeRow(x, ms), p), MergedAmount);
      MergeRowTeamTotal(x, ms, team);
      TeamMatches(roster, x.hyp, team);
    }
  }

  /**
   * Each team in the team chart appears once, and its total is the amount of the sales rows
   * weighted by how many roster rows give their Hyp that team.
   */
  lemma SalesByTeamTotals(rows: seq<Row>, roster: seq<Staff>)
    ensures forall i, j :: 0 <= i < j < |SalesByTeam(rows, roster)| ==> SalesByTeam(rows, roster)[i].0 != SalesByTeam(rows, roster)[j].0
    ensures forall i :: 0 <= i < |SalesByTeam(rows, roster)| ==>
      SalesByTeam(rows, roster)[i].1 == Sum(rows, TeamShare(roster, SalesByTeam(rows, roster)[i].0))
  {
    var s := SalesByTeam(rows, roster);
    forall i | 0 <= i < |s|
      ensures s[i].1 == Sum(rows, TeamShare(roster, s[i].0))
    {
      TeamTotal(rows, roster, s[i].0);
    }
  }

  /** A sales row whose Hyp is not in the roster adds nothing to any team. */
  lemma UnknownHypNotCounted(roster: seq<Staff>, r: Row, team: string)
    requires forall s :: s in roster ==> s.hyp != r.hyp
    ensures TeamShare(roster, team)(r) == 0
  {
    SelectNone(roster, TeamMember(r.hyp, team));
  }
}
