/**
 * The teams table of database/team_management.py: one row per team,
 * `(team_name, division, rank, wins, losses, members)`, in storage order.
 * Queries are functions of the rows; the INSERT and DELETE commands are the
 * methods of TeamsTable, specified by AppendTeam and RemoveTeamRows.
 */
module TeamManagement {
  import opened Wrappers
  import opened Table
  import opened Text

  /** A row of the teams table; `members` is the comma-separated roster string. */
  datatype Team = Team(name: string, division: string, rank: int, wins: int, losses: int, members: string)

  // WHERE conditions of the queries below
  function InDivision(d: string): Team -> bool { (t: Team) => t.division == d }
  function Named(n: string): Team -> bool { (t: Team) => t.name == n }
  function NamedIn(d: string, n: string): Team -> bool { (t: Team) => t.division == d && t.name == n }
  function NotNamedIn(d: string, n: string): Team -> bool { (t: Team) => !(t.division == d && t.name == n) }

  /** Positions of the rows of division d. */
  ghost function Positions(rows: seq<Team>, d: string): set<int> {
    set i | 0 <= i < |rows| && rows[i].division == d
  }

  /** count_teams: SELECT COUNT(*) over the rows of division d. */
  function CountTeams(rows: seq<Team>, d: string): (r: nat)
    ensures r <= |rows|
  {
    Count(rows, InDivision(d))
  }

  /** count_teams is the number of rows whose division is d. */
  lemma CountTeamsIsNumberOfRows(rows: seq<Team>, d: string)
    ensures CountTeams(rows, d) == |Positions(rows, d)|
  {
    CountIsCardinality(rows, InDivision(d));
    assert Matching(rows, InDivision(d)) == Positions(rows, d);
  }

  /** is_team_name_unique: no row in any division carries the name. */
  function IsTeamNameUnique(rows: seq<Team>, n: string): (r: bool)
    ensures r <==> forall i :: 0 <= i < |rows| ==> rows[i].name != n
  {
    Count(rows, Named(n)) == 0
  }

  /** does_team_exist: some row of division d carries the name. */
  function DoesTeamExist(rows: seq<Team>, d: string, n: string): (r: bool)
    ensures r <==> exists i :: 0 <= i < |rows| && rows[i].division == d && rows[i].name == n
  {
    Count(rows, NamedIn(d, n)) > 0
  }

  /** A team that exists in some division makes its name unavailable everywhere. */
  lemma ExistingTeamNameIsTaken(rows: seq<Team>, d: string, n: string)
    requires DoesTeamExist(rows, d, n)
    ensures !IsTeamNameUnique(rows, n)
  {
  }

  /** No two rows, in whatever divisions, share a team name. */
  ghost predicate NamesUnique(rows: seq<Team>) {
    forall i, j :: 0 <= i < |rows| && 0 <= j < |rows| && i != j ==> rows[i].name != rows[j].name
  }

  /**
   * The roster parse of is_member_registered: the members string split on
   * ',' with every piece stripped. There is always at least one piece, and
   * every piece is free of commas and of surrounding whitespace.
   */
  function ParseMembers(s: string): (r: seq<string>)
    ensures |r| == |Split(s, ',')| >= 1
    ensures forall i :: 0 <= i < |r| ==> ',' !in r[i] && Unpadded(r[i])
  {
    var pieces := Split(s, ',');
    var r := seq(|pieces|, i requires 0 <= i < |pieces| => Strip(pieces[i]));
    forall i | 0 <= i < |r| ensures ',' !in r[i] {
      StripIsSlice(pieces[i]);
      var a :| StrippedAt(pieces[i], r[i], a);
      assert forall k :: 0 <= k < |r[i]| ==> r[i][k] == pieces[i][a + k];
    }
    r
  }

  /**
   * Each parsed member is its piece of the ',' split with only the
   * whitespace around it removed.
   */
  lemma {:induction false} ParseMembersStripsPieces(s: string)
    ensures forall i :: 0 <= i < |ParseMembers(s)| ==>
      IsStripOf(Split(s, ',')[i], ParseMembers(s)[i])
  {
    var pieces := Split(s, ',');
    var r := ParseMembers(s);
    forall i | 0 <= i < |r| ensures IsStripOf(pieces[i], r[i]) {
      assert r[i] == Strip(pieces[i]);
      StripIsSlice(pieces[i]);
      var a :| StrippedAt(pieces[i], Strip(pieces[i]), a);
      assert StrippedAt(pieces[i], r[i], a);
    }
  }

  /** Some team of division d lists m among its parsed members. */
  ghost predicate MemberRegistered(rows: seq<Team>, d: string, m: string) {
    exists i :: 0 <= i < |rows| && rows[i].division == d && Lists(rows[i], m)
  }

  /** The team's parsed roster lists m. */
  ghost predicate Lists(t: Team, m: string) {
    m in ParseMembers(t.members)
  }

  /** Some row among the fetched ones lists m. */
  ghost predicate SomeRowLists(results: seq<Team>, m: string) {
    exists j :: 0 <= j < |results| && Lists(results[j], m)
  }

  /** Scanning the rows fetched for division d is scanning division d. */
  lemma FetchedDivisionRows(rows: seq<Team>, d: string, m: string)
    ensures MemberRegistered(rows, d, m) <==> SomeRowLists(Keep(rows, InDivision(d)), m)
  {
    var results := Keep(rows, InDivision(d));
    KeepMembers(rows, InDivision(d));
    if MemberRegistered(rows, d, m) {
      var i :| 0 <= i < |rows| && rows[i].division == d && Lists(rows[i], m);
      assert InDivision(d)(rows[i]);
      var j :| 0 <= j < |results| && results[j] == rows[i];
      assert Lists(results[j], m);
    }
    if SomeRowLists(results, m) {
      var j :| 0 <= j < |results| && Lists(results[j], m);
      assert InDivision(d)(results[j]);
      var i :| 0 <= i < |rows| && rows[i] == results[j];
      assert rows[i].division == d && Lists(rows[i], m);
    }
  }

  /**
   * is_member_registered: fetches the members strings of division d and
   * scans them in order, stopping at the first roster that lists m.
   */
  method IsMemberRegistered(rows: seq<Team>, d: string, m: string) returns (found: bool)
    ensures found <==> MemberRegistered(rows, d, m)
  {
    var results := Keep(rows, InDivision(d));
    FetchedDivisionRows(rows, d, m);
    for k := 0 to |results|
      invariant forall j :: 0 <= j < k ==> !Lists(results[j], m)
    {
      var membersList := ParseMembers(results[k].members);
      if m in membersList {
        assert Lists(results[k], m);
        return true;
      }
    }
    return false;
  }

  /** Row i is the first row, in storage order, of team n in division d. */
  ghost predicate FirstRowOf(rows: seq<Team>, d: string, n: string, i: int) {
    0 <= i < |rows| && rows[i].division == d && rows[i].name == n &&
    forall j :: 0 <= j < i ==> !(rows[j].division == d && rows[j].name == n)
  }

  /**
   * give_team_rank: the rank of the first row of team n in division d.
   * The caller must know the team exists: with no such row fetchone()
   * gives None and indexing it raises.
   */
  function GiveTeamRank(rows: seq<Team>, d: string, n: string): (r: int)
    requires DoesTeamExist(rows, d, n)
    ensures exists i :: FirstRowOf(rows, d, n, i) && rows[i].rank == r
    ensures NamesUnique(rows) ==>
      forall i :: 0 <= i < |rows| && rows[i].division == d && rows[i].name == n ==> rows[i].rank == r
  {
    var i := First(rows, NamedIn(d, n)).value;
    assert FirstRowOf(rows, d, n, i);
    rows[i].rank
  }

  /** The ranks held in division d. */
  ghost function RankSet(rows: seq<Team>, d: string): set<int> {
    set i | 0 <= i < |rows| && rows[i].division == d :: rows[i].rank
  }

  /** {1, ..., n} */
  ghost function RanksUpTo(n: nat): (s: set<int>)
    ensures forall k :: k in s <==> 1 <= k <= n
    ensures |s| == n
  {
    if n == 0 then {} else RanksUpTo(n - 1) + {n}
  }

  /**
   * The ranks of division d are exactly 1..N where N is the number of its
   * rows; with N rows holding N different values, no rank is held twice
   * (ContiguousRanksAreDistinct).
   */
  ghost predicate RanksContiguous(rows: seq<Team>, d: string) {
    RankSet(rows, d) == RanksUpTo(CountTeams(rows, d))
  }

  lemma SubsetSize(a: set<int>, b: set<int>)
    requires a <= b
    ensures |a| <= |b|
  {
    assert b == a + (b - a);
  }

  /** A division of N rows holds at most N different ranks. */
  lemma {:induction false} RankSetSize(rows: seq<Team>, d: string)
    ensures |RankSet(rows, d)| <= CountTeams(rows, d)
  {
    if |rows| > 0 {
      var init := rows[..|rows| - 1];
      var x := rows[|rows| - 1];
      assert rows == init + [x];
      RankSetSize(init, d);
      CountAppend(init, x, InDivision(d));
      if x.division == d {
        assert RankSet(rows, d) <= RankSet(init, d) + {x.rank} by {
          forall r | r in RankSet(rows, d) ensures r in RankSet(init, d) + {x.rank} {
            var k :| 0 <= k < |rows| && rows[k].division == d && rows[k].rank == r;
            if k < |init| { assert init[k] == rows[k]; }
          }
        }
        SubsetSize(RankSet(rows, d), RankSet(init, d) + {x.rank});
      } else {
        assert RankSet(rows, d) <= RankSet(init, d) by {
          forall r | r in RankSet(rows, d) ensures r in RankSet(init, d) {
            var k :| 0 <= k < |rows| && rows[k].division == d && rows[k].rank == r;
            assert k < |init| && init[k] == rows[k];
          }
        }
        SubsetSize(RankSet(rows, d), RankSet(init, d));
      }
    }
  }

  /** Taking row j out of the table takes one row out of its division. */
  lemma CountWithout(rows: seq<Team>, j: int, d: string)
    requires 0 <= j < |rows| && rows[j].division == d
    ensures CountTeams(rows[..j] + rows[j + 1..], d) + 1 == CountTeams(rows, d)
  {
    assert rows == rows[..j] + [rows[j]] + rows[j + 1..];
    CountConcat(rows[..j] + [rows[j]], rows[j + 1..], InDivision(d));
    CountAppend(rows[..j], rows[j], InDivision(d));
    CountConcat(rows[..j], rows[j + 1..], InDivision(d));
  }

  /** Taking out a row whose rank another row of the division also holds loses no rank. */
  lemma RankSetWithout(rows: seq<Team>, d: string, i: int, j: int)
    requires 0 <= i < |rows| && 0 <= j < |rows| && i != j
    requires rows[i].division == d && rows[j].division == d && rows[i].rank == rows[j].rank
    ensures RankSet(rows, d) <= RankSet(rows[..j] + rows[j + 1..], d)
  {
    var rest := rows[..j] + rows[j + 1..];
    forall r | r in RankSet(rows, d) ensures r in RankSet(rest, d) {
      var k :| 0 <= k < |rows| && rows[k].division == d && rows[k].rank == r;
      var k' := if k == j then i else k;
      var m := if k' < j then k' else k' - 1;
      assert rest[m] == rows[k'];
    }
  }

  /** Pigeonhole: contiguous ranks are pairwise distinct within the division. */
  lemma ContiguousRanksAreDistinct(rows: seq<Team>, d: string, i: int, j: int)
    requires RanksContiguous(rows, d)
    requires 0 <= i < |rows| && 0 <= j < |rows| && i != j
    requires rows[i].division == d && rows[j].division == d
    ensures rows[i].rank != rows[j].rank
  {
    if rows[i].rank == rows[j].rank {
      var rest := rows[..j] + rows[j + 1..];
      RankSetWithout(rows, d, i, j);
      SubsetSize(RankSet(rows, d), RankSet(rest, d));
      RankSetSize(rest, d);
      CountWithout(rows, j, d);
      assert false;
    }
  }

  /** The row db_register_team inserts: bottom rank, no wins, no losses. */
  function NewTeam(rows: seq<Team>, d: string, n: string, members: string): Team {
    Team(n, d, CountTeams(rows, d) + 1, 0, 0, members)
  }

  /**
   * db_register_team: exactly one row is added, for team n in division d
   * with the given members string, rank one below the division's current
   * count and a 0-0 record; d gains one team and every other division keeps
   * its count.
   */
  function AppendTeam(rows: seq<Team>, d: string, n: string, members: string): (r: seq<Team>)
    ensures |r| == |rows| + 1 && r[..|rows|] == rows
    ensures r[|rows|].name == n && r[|rows|].division == d && r[|rows|].members == members
    ensures r[|rows|].rank == CountTeams(rows, d) + 1 && r[|rows|].wins == 0 && r[|rows|].losses == 0
    ensures CountTeams(r, d) == CountTeams(rows, d) + 1
    ensures forall d' :: d' != d ==> CountTeams(r, d') == CountTeams(rows, d')
  {
    var t := NewTeam(rows, d, n, members);
    CountAppend(rows, t, InDivision(d));
    forall d' | d' != d ensures CountTeams(rows + [t], d') == CountTeams(rows, d') {
      CountAppend(rows, t, InDivision(d'));
    }
    rows + [t]
  }

  /** The new team is found at the bottom of its division. */
  lemma RegisteredTeamRank(rows: seq<Team>, d: string, n: string, members: string)
    requires !DoesTeamExist(rows, d, n)
    ensures DoesTeamExist(AppendTeam(rows, d, n, members), d, n)
    ensures GiveTeamRank(AppendTeam(rows, d, n, members), d, n) == CountTeams(rows, d) + 1
  {
    var r := AppendTeam(rows, d, n, members);
    assert r[|rows|].division == d && r[|rows|].name == n;
  }

  /** An appended row adds its rank to the rank set of its own division only. */
  lemma RankSetAppend(rows: seq<Team>, t: Team, d': string)
    ensures RankSet(rows + [t], d') == RankSet(rows, d') + (if t.division == d' then {t.rank} else {})
  {
    var r := rows + [t];
    forall x | x in RankSet(r, d') ensures x in RankSet(rows, d') + (if t.division == d' then {t.rank} else {}) {
      var k :| 0 <= k < |r| && r[k].division == d' && r[k].rank == x;
      if k < |rows| { assert rows[k] == r[k]; }
    }
    forall x | x in RankSet(rows, d') ensures x in RankSet(r, d') {
      var k :| 0 <= k < |rows| && rows[k].division == d' && rows[k].rank == x;
      assert r[k] == rows[k];
    }
    if t.division == d' {
      assert r[|rows|] == t;
    }
  }

  /** Appending at the bottom keeps every division's ranks contiguous. */
  lemma RegisterKeepsRanksContiguous(rows: seq<Team>, d: string, n: string, members: string, d': string)
    requires RanksContiguous(rows, d')
    ensures RanksContiguous(AppendTeam(rows, d, n, members), d')
  {
    var r := AppendTeam(rows, d, n, members);
    var t := r[|rows|];
    assert r == rows + [t];
    RankSetAppend(rows, t, d');
    if d' == d {
      assert RanksUpTo(CountTeams(r, d)) == RanksUpTo(CountTeams(rows, d)) + {t.rank};
    }
  }

  /** Registering a name no row carries keeps the names unique. */
  lemma RegisterKeepsNamesUnique(rows: seq<Team>, d: string, n: string, members: string)
    requires NamesUnique(rows) && IsTeamNameUnique(rows, n)
    ensures NamesUnique(AppendTeam(rows, d, n, members))
  {
    var r := AppendTeam(rows, d, n, members);
    assert forall i :: 0 <= i < |rows| ==> r[i] == rows[i];
  }

  /** The rows of every other division are the same rows in the same order. */
  lemma RegisterLeavesOtherDivisions(rows: seq<Team>, d: string, n: string, members: string, d': string)
    requires d' != d
    ensures Keep(AppendTeam(rows, d, n, members), InDivision(d')) == Keep(rows, InDivision(d'))
  {
    KeepAppend(rows, NewTeam(rows, d, n, members), InDivision(d'));
  }

  /**
   * db_remove_team: deletes every row of team n in division d and nothing
   * else; the remaining rows keep their order and their ranks (there is no
   * renumbering).
   */
  function RemoveTeamRows(rows: seq<Team>, d: string, n: string): (r: seq<Team>)
    ensures !DoesTeamExist(r, d, n)
    ensures forall i :: 0 <= i < |rows| && !(rows[i].division == d && rows[i].name == n) ==> rows[i] in r
  {
    KeepMembers(rows, NotNamedIn(d, n));
    Keep(rows, NotNamedIn(d, n))
  }

  /** Every row left after the delete was in the table before. */
  lemma RemoveTeamInventsNoRow(rows: seq<Team>, d: string, n: string)
    ensures forall i :: 0 <= i < |RemoveTeamRows(rows, d, n)| ==> RemoveTeamRows(rows, d, n)[i] in rows
  {
    KeepMembers(rows, NotNamedIn(d, n));
  }

  function TeamName(t: Team): string { t.name }

  /** Deleting a team keeps the remaining names unique. */
  lemma RemoveKeepsNamesUnique(rows: seq<Team>, d: string, n: string)
    requires NamesUnique(rows)
    ensures NamesUnique(RemoveTeamRows(rows, d, n))
  {
    assert DistinctKeys(rows, TeamName);
    KeepDistinctKeys(rows, NotNamedIn(d, n), TeamName);
    var r := RemoveTeamRows(rows, d, n);
    forall i, j | 0 <= i < |r| && 0 <= j < |r| && i != j ensures r[i].name != r[j].name {
      if i < j {
        assert TeamName(r[i]) != TeamName(r[j]);
      } else {
        assert TeamName(r[j]) != TeamName(r[i]);
      }
    }
  }

  /** Deleting a team twice is the same as deleting it once. */
  lemma RemoveTeamIdempotent(rows: seq<Team>, d: string, n: string)
    ensures RemoveTeamRows(RemoveTeamRows(rows, d, n), d, n) == RemoveTeamRows(rows, d, n)
  {
    KeepIdempotent(rows, NotNamedIn(d, n));
  }

  /** Deleting a team leaves every other division's rows as they were. */
  lemma RemoveLeavesOtherDivisions(rows: seq<Team>, d: string, n: string, d': string)
    requires d' != d
    ensures Keep(RemoveTeamRows(rows, d, n), InDivision(d')) == Keep(rows, InDivision(d'))
  {
    KeepKeep(rows, NotNamedIn(d, n), InDivision(d'));
  }

  /** The division loses exactly as many rows as the team had in it. */
  lemma RemoveTeamCount(rows: seq<Team>, d: string, n: string)
    ensures CountTeams(RemoveTeamRows(rows, d, n), d) + Count(rows, NamedIn(d, n)) == CountTeams(rows, d)
  {
    CountAfterKeep(rows, NotNamedIn(d, n), InDivision(d), NamedIn(d, n));
  }

  /** The rank every row of team n in d holds, when that is the division's last rank. */
  ghost predicate AtBottom(rows: seq<Team>, d: string, n: string) {
    forall k :: 0 <= k < |rows| && rows[k].division == d && rows[k].name == n ==> rows[k].rank == CountTeams(rows, d)
  }

  lemma RemovedBottomRanks(rows: seq<Team>, d: string, n: string)
    requires RanksContiguous(rows, d) && AtBottom(rows, d, n)
    requires DoesTeamExist(rows, d, n)
    ensures RankSet(RemoveTeamRows(rows, d, n), d) <= RanksUpTo(CountTeams(rows, d) - 1)
  {
    var r := RemoveTeamRows(rows, d, n);
    RemoveTeamInventsNoRow(rows, d, n);
    var k :| 0 <= k < |rows| && rows[k].division == d && rows[k].name == n;
    forall x | x in RankSet(r, d) ensures x in RanksUpTo(CountTeams(rows, d) - 1) {
      var i :| 0 <= i < |r| && r[i].division == d && r[i].rank == x;
      assert r[i] in rows;
      var j :| 0 <= j < |rows| && rows[j] == r[i];
      assert j != k;
      ContiguousRanksAreDistinct(rows, d, j, k);
      assert x in RankSet(rows, d);
    }
  }

  lemma KeptRank(rows: seq<Team>, d: string, n: string, x: int)
    requires RanksContiguous(rows, d) && AtBottom(rows, d, n)
    requires 1 <= x < CountTeams(rows, d)
    ensures x in RankSet(RemoveTeamRows(rows, d, n), d)
  {
    assert x in RankSet(rows, d);
    var j :| 0 <= j < |rows| && rows[j].division == d && rows[j].rank == x;
    var r := RemoveTeamRows(rows, d, n);
    assert rows[j] in r;
    var i :| 0 <= i < |r| && r[i] == rows[j];
    assert r[i].division == d && r[i].rank == x;
  }

  lemma KeptRanks(rows: seq<Team>, d: string, n: string)
    requires RanksContiguous(rows, d) && AtBottom(rows, d, n)
    requires DoesTeamExist(rows, d, n)
    ensures RanksUpTo(CountTeams(rows, d) - 1) <= RankSet(RemoveTeamRows(rows, d, n), d)
  {
    forall x | x in RanksUpTo(CountTeams(rows, d) - 1) ensures x in RankSet(RemoveTeamRows(rows, d, n), d) {
      KeptRank(rows, d, n, x);
    }
  }

  /**
   * Without renumbering, deleting keeps the ranks contiguous when the
   * deleted team was at the bottom of its division.
   */
  lemma RemoveBottomTeamKeepsRanksContiguous(rows: seq<Team>, d: string, n: string)
    requires NamesUnique(rows) && RanksContiguous(rows, d)
    requires DoesTeamExist(rows, d, n) && GiveTeamRank(rows, d, n) == CountTeams(rows, d)
    ensures RanksContiguous(RemoveTeamRows(rows, d, n), d)
  {
    assert AtBottom(rows, d, n);
    assert ExactlyOne(rows, NamedIn(d, n));
    CountIsOne(rows, NamedIn(d, n));
    RemoveTeamCount(rows, d, n);
    assert CountTeams(rows, d) >= 1;
    RemovedBottomRanks(rows, d, n);
    KeptRanks(rows, d, n);
  }

  /** Three teams of division d at ranks 1, 2 and 3, the middle one named apart. */
  ghost predicate ThreeTeams(a: Team, b: Team, c: Team, d: string) {
    a.division == d && b.division == d && c.division == d &&
    a.rank == 1 && b.rank == 2 && c.rank == 3 &&
    a.name != b.name && c.name != b.name
  }

  lemma ThreeTeamsContiguous(a: Team, b: Team, c: Team, d: string)
    requires ThreeTeams(a, b, c, d)
    ensures RanksContiguous([a, b, c], d)
  {
    var rows := [a, b, c];
    var p := InDivision(d);
    CountAppend([a, b], c, p);
    CountAppend([a], b, p);
    CountAppend([], a, p);
    assert [] + [a] == [a] && [a] + [b] == [a, b] && [a, b] + [c] == rows;
    assert CountTeams(rows, d) == 3;
    forall x | x in RankSet(rows, d) ensures x in {1, 2, 3} {
      var k :| 0 <= k < 3 && rows[k].division == d && rows[k].rank == x;
    }
    assert rows[0].rank in RankSet(rows, d);
    assert rows[1].rank in RankSet(rows, d);
    assert rows[2].rank in RankSet(rows, d);
    assert RanksUpTo(3) == {1, 2, 3};
  }

  lemma RemoveMiddle(a: Team, b: Team, c: Team, d: string)
    requires ThreeTeams(a, b, c, d)
    ensures RemoveTeamRows([a, b, c], d, b.name) == [a, c]
  {
    var p := NotNamedIn(d, b.name);
    assert p(a) && !p(b) && p(c);
    assert Keep([a], p) == [a] by {
      KeepAppend([], a, p);
      assert [] + [a] == [a];
    }
    assert Keep([a, b], p) == [a] by {
      KeepAppend([a], b, p);
      assert [a] + [b] == [a, b];
    }
    KeepAppend([a, b], c, p);
    assert [a, b] + [c] == [a, b, c];
  }

  lemma GapAfterRemoval(a: Team, c: Team, d: string)
    requires a.division == d && c.division == d && a.rank == 1 && c.rank == 3
    ensures !RanksContiguous([a, c], d)
  {
    var r := [a, c];
    assert r[1].rank in RankSet(r, d);
    CountAppend([a], c, InDivision(d));
    CountAppend([], a, InDivision(d));
    assert [] + [a] == [a] && [a] + [c] == r;
    assert CountTeams(r, d) == 2;
    assert 3 !in RanksUpTo(2);
  }

  /**
   * Removing a team from the middle leaves a gap: ranks 1, 2, 3 become
   * 1, 3 and are no longer contiguous.
   */
  lemma RemoveMiddleTeamLeavesGap(a: Team, b: Team, c: Team, d: string)
    requires ThreeTeams(a, b, c, d)
    ensures RanksContiguous([a, b, c], d)
    ensures !RanksContiguous(RemoveTeamRows([a, b, c], d, b.name), d)
  {
    ThreeTeamsContiguous(a, b, c, d);
    RemoveMiddle(a, b, c, d);
    GapAfterRemoval(a, c, d);
  }

  /** The teams table; its methods are the INSERT and DELETE commands. */
  class TeamsTable {
    var rows: seq<Team>

    /** A freshly created table is empty. */
    constructor ()
      ensures rows == []
    {
      rows := [];
    }

    /** db_register_team */
    method DbRegisterTeam(d: string, n: string, members: string)
      modifies this
      ensures rows == AppendTeam(old(rows), d, n, members)
      ensures forall d' :: RanksContiguous(old(rows), d') ==> RanksContiguous(rows, d')
    {
      var startingRank := CountTeams(rows, d) + 1;
      var defaultWinLoss := 0;
      forall d' | RanksContiguous(rows, d') ensures RanksContiguous(AppendTeam(rows, d, n, members), d') {
        RegisterKeepsRanksContiguous(rows, d, n, members, d');
      }
      assert rows + [Team(n, d, startingRank, defaultWinLoss, defaultWinLoss, members)] == AppendTeam(rows, d, n, members);
      rows := rows + [Team(n, d, startingRank, defaultWinLoss, defaultWinLoss, members)];
    }

    /** db_remove_team */
    method DbRemoveTeam(d: string, n: string)
      modifies this
      ensures rows == RemoveTeamRows(old(rows), d, n)
    {
      rows := Keep(rows, NotNamedIn(d, n));
    }
  }
}
