/**
 * The per-division challenge tables of database/challenge_management.py.
 * There is one table per division type (challenges_1v1, challenges_2v2,
 * challenges_3v3); each row is `(id, match_id, challenger, challenged)`,
 * kept in storage order, and `id` is an AUTOINCREMENT key.
 */
module ChallengeManagement {
  import opened Wrappers
  import opened Table

  datatype Challenge = Challenge(id: int, matchId: string, challenger: string, challenged: string)

  /** A challenge table: its rows and the largest id it has ever handed out. */
  datatype ChallengeTable = ChallengeTable(rows: seq<Challenge>, lastId: nat)

  /** The three challenge tables of the database. */
  datatype Challenges = Challenges(oneVsOne: ChallengeTable, twoVsTwo: ChallengeTable, threeVsThree: ChallengeTable)

  /** Result of a query that names its table as `challenges_<division>`. */
  datatype Query<T> = Fetched(value: T) | NoSuchTable(table: string)

  predicate IsDivision(d: string) {
    d == "1v1" || d == "2v2" || d == "3v3"
  }

  /** The table of division d; only the three division types have one. */
  function TableOf(cs: Challenges, d: string): (t: Option<ChallengeTable>)
    ensures t.Some? <==> IsDivision(d)
  {
    if d == "1v1" then Some(cs.oneVsOne)
    else if d == "2v2" then Some(cs.twoVsTwo)
    else if d == "3v3" then Some(cs.threeVsThree)
    else None
  }

  // Three queries splice the division into the SQL text as the table name
  // `challenges_<d>`. SQLite compares identifiers with ASCII letters folded
  // to one case, and blanks after the name only separate tokens.

  /** ASCII upper-case letters folded to lower case; every other character kept. */
  function FoldCase(c: char): char {
    if 'A' <= c <= 'Z' then (c as int + 32) as char else c
  }

  /** x and y spell the same SQL identifier. */
  predicate SameIdentifier(x: string, y: string) {
    |x| == |y| && forall i :: 0 <= i < |x| ==> FoldCase(x[i]) == FoldCase(y[i])
  }

  /** The characters SQLite's tokenizer treats as blanks. */
  predicate IsSqlSpace(c: char) {
    c == ' ' || c == '\t' || c == '\n' || c == '\r' || c == '\U{000C}'
  }

  /** Interpolating d after `challenges_` names the table of division e. */
  predicate NamesTableOf(d: string, e: string) {
    |e| <= |d| && SameIdentifier(d[..|e|], e) && forall j :: |e| <= j < |d| ==> IsSqlSpace(d[j])
  }

  /** The division whose table an interpolated `challenges_<d>` names, if any. */
  function Resolve(d: string): (r: Option<string>)
    ensures forall e :: r == Some(e) <==> IsDivision(e) && NamesTableOf(d, e)
  {
    FirstCharDecides(d);
    if NamesTableOf(d, "1v1") then Some("1v1")
    else if NamesTableOf(d, "2v2") then Some("2v2")
    else if NamesTableOf(d, "3v3") then Some("3v3")
    else None
  }

  /** The division types differ in their first character, so d names at most one table. */
  lemma FirstCharDecides(d: string)
    ensures forall e :: IsDivision(e) && NamesTableOf(d, e) ==> |d| >= 1 && FoldCase(d[0]) == e[0]
  {
    forall e | IsDivision(e) && NamesTableOf(d, e) ensures |d| >= 1 && FoldCase(d[0]) == e[0] {
      assert FoldCase(d[..|e|][0]) == FoldCase(e[0]);
    }
  }

  /** Each division type names its own table. */
  lemma {:induction false} DivisionResolvesToItself(d: string)
    requires IsDivision(d)
    ensures Resolve(d) == Some(d)
  {
    assert d[..|d|] == d;
    assert SameIdentifier(d, d);
    assert NamesTableOf(d, d);
  }

  /** Two spellings of the same identifier name the same table. */
  lemma {:induction false} ResolveIgnoresCase(d: string, d': string)
    requires SameIdentifier(d, d')
    ensures Resolve(d) == Resolve(d')
  {
    forall e | IsDivision(e) ensures NamesTableOf(d, e) <==> NamesTableOf(d', e) {
      if |e| <= |d| {
        assert SameIdentifier(d[..|e|], e) <==> SameIdentifier(d'[..|e|], e) by {
          forall i | 0 <= i < |e| ensures FoldCase(d[i]) == FoldCase(d'[i]) {
          }
        }
        forall j | |e| <= j < |d| ensures IsSqlSpace(d[j]) <==> IsSqlSpace(d'[j]) {
          assert FoldCase(d[j]) == FoldCase(d'[j]);
        }
      }
    }
  }

  /** Upper case and a trailing blank still reach the 1v1 table. */
  lemma UpperCaseWithBlankResolves()
    ensures Resolve("1V1 ") == Some("1v1")
  {
    var d := "1V1 ";
    assert d[..3] == ['1', 'V', '1'];
    assert SameIdentifier(d[..3], "1v1");
    assert NamesTableOf(d, "1v1");
  }

  /** Replaces the table of division d and no other. */
  function WithTable(cs: Challenges, d: string, t: ChallengeTable): (r: Challenges)
    requires IsDivision(d)
    ensures TableOf(r, d) == Some(t)
    ensures forall d' :: d' != d ==> TableOf(r, d') == TableOf(cs, d')
  {
    if d == "1v1" then cs.(oneVsOne := t)
    else if d == "2v2" then cs.(twoVsTwo := t)
    else cs.(threeVsThree := t)
  }

  // WHERE conditions of the queries below
  function ChallengerIs(t: string): Challenge -> bool { (c: Challenge) => c.challenger == t }
  function ChallengedIs(t: string): Challenge -> bool { (c: Challenge) => c.challenged == t }
  function Involves(t: string): Challenge -> bool { (c: Challenge) => c.challenger == t || c.challenged == t }
  function Uninvolved(t: string): Challenge -> bool { (c: Challenge) => !(c.challenger == t || c.challenged == t) }
  function MatchIdIs(m: string): Challenge -> bool { (c: Challenge) => c.matchId == m }
  function MatchIdIsNot(m: string): Challenge -> bool { (c: Challenge) => c.matchId != m }
  function Id(c: Challenge): int { c.id }

  /** Every row is keyed by its challenger. */
  ghost predicate MatchIdIsChallenger(rows: seq<Challenge>) {
    forall i :: 0 <= i < |rows| ==> rows[i].matchId == rows[i].challenger
  }

  /**
   * The table's invariant: rows keyed by their challenger, ids between 1 and
   * the last id handed out, strictly increasing in storage order (so storage
   * order is `ORDER BY id`).
   */
  ghost predicate ValidTable(t: ChallengeTable) {
    MatchIdIsChallenger(t.rows) &&
    (forall i :: 0 <= i < |t.rows| ==> 1 <= t.rows[i].id <= t.lastId) &&
    Ascending(t.rows, Id)
  }

  ghost predicate ValidChallenges(cs: Challenges) {
    forall d :: IsDivision(d) ==> ValidTable(TableOf(cs, d).value)
  }

  /**
   * The other side of the first row, in storage order, that mentions team
   * on either side; None when no row mentions it.
   */
  function Opponent(rows: seq<Challenge>, team: string): (r: Option<string>)
    ensures r.None? <==> forall i :: 0 <= i < |rows| ==> rows[i].challenger != team && rows[i].challenged != team
    ensures r.Some? ==> exists i :: (FirstMention(rows, team, i) &&
      r.value == if rows[i].challenger == team then rows[i].challenged else rows[i].challenger)
  {
    match First(rows, Involves(team))
    case None => None
    case Some(i) =>
      assert FirstMention(rows, team, i);
      if rows[i].challenger == team then Some(rows[i].challenged) else Some(rows[i].challenger)
  }

  /** Row i is the first row that mentions team. */
  ghost predicate FirstMention(rows: seq<Challenge>, team: string, i: int) {
    0 <= i < |rows| && (rows[i].challenger == team || rows[i].challenged == team) &&
    forall j :: 0 <= j < i ==> rows[j].challenger != team && rows[j].challenged != team
  }

  /**
   * find_opponent_team: the opponent in the table the interpolated name
   * reaches; a name that reaches no table fails.
   */
  function FindOpponentTeam(cs: Challenges, d: string, team: string): (r: Query<Option<string>>)
    ensures r.NoSuchTable? <==> Resolve(d).None?
    ensures r.Fetched? ==> r.value == Opponent(TableOf(cs, Resolve(d).value).value.rows, team)
  {
    match Resolve(d)
    case None => NoSuchTable("challenges_" + d)
    case Some(e) => Fetched(Opponent(TableOf(cs, e).value.rows, team))
  }

  /**
   * is_team_challenged: whether some row of d has team as the challenged
   * side; None (the function falls through) for an unknown division.
   */
  function IsTeamChallenged(cs: Challenges, d: string, team: string): (r: Option<bool>)
    ensures r.None? <==> !IsDivision(d)
    ensures r.Some? ==> (r.value <==> exists i :: 0 <= i < |TableOf(cs, d).value.rows| && TableOf(cs, d).value.rows[i].challenged == team)
  {
    match TableOf(cs, d)
    case None => None
    case Some(t) =>
      var n := Count(t.rows, ChallengedIs(team));
      assert n == 0 <==> forall i :: 0 <= i < |t.rows| ==> t.rows[i].challenged != team;
      Some(n > 0)
  }

  /**
   * has_team_challenged: whether some row of d has team as the challenger;
   * None (the function falls through) for an unknown division.
   */
  function HasTeamChallenged(cs: Challenges, d: string, team: string): (r: Option<bool>)
    ensures r.None? <==> !IsDivision(d)
    ensures r.Some? ==> (r.value <==> exists i :: 0 <= i < |TableOf(cs, d).value.rows| && TableOf(cs, d).value.rows[i].challenger == team)
  {
    match TableOf(cs, d)
    case None => None
    case Some(t) =>
      var n := Count(t.rows, ChallengerIs(team));
      assert n == 0 <==> forall i :: 0 <= i < |t.rows| ==> t.rows[i].challenger != team;
      Some(n > 0)
  }

  /** The (challenger, challenged) pairs of the rows, in storage order. */
  function Pairs(rows: seq<Challenge>): (r: seq<(string, string)>)
    ensures |r| == |rows|
    ensures forall i :: 0 <= i < |rows| ==> r[i] == (rows[i].challenger, rows[i].challenged)
  {
    if |rows| == 0 then [] else [(rows[0].challenger, rows[0].challenged)] + Pairs(rows[1..])
  }

  /** get_challenges_data: the pairs of the table d reaches, ordered by id. */
  function GetChallengesData(cs: Challenges, d: string): (r: Query<seq<(string, string)>>)
    ensures r.NoSuchTable? <==> Resolve(d).None?
  {
    match Resolve(d)
    case None => NoSuchTable("challenges_" + d)
    case Some(e) => Fetched(Pairs(TableOf(cs, e).value.rows))
  }

  /**
   * In a valid table storage order is id order, so the pairs
   * get_challenges_data returns follow ascending ids.
   */
  lemma ChallengesDataInIdOrder(cs: Challenges, d: string)
    requires ValidChallenges(cs) && Resolve(d).Some?
    ensures GetChallengesData(cs, d).Fetched?
    ensures var rows := TableOf(cs, Resolve(d).value).value.rows;
      |GetChallengesData(cs, d).value| == |rows| &&
      (forall i :: 0 <= i < |rows| ==> GetChallengesData(cs, d).value[i] == (rows[i].challenger, rows[i].challenged)) &&
      (forall i, j :: 0 <= i < j < |rows| ==> rows[i].id < rows[j].id)
  {
    assert ValidTable(TableOf(cs, Resolve(d).value).value);
  }

  // The effect of each command on one table

  /** The row db_register_challenge inserts: keyed by its challenger. */
  function AppendChallenge(t: ChallengeTable, challenger: string, challenged: string): (r: ChallengeTable)
    ensures r.rows == t.rows + [Challenge(t.lastId + 1, challenger, challenger, challenged)]
    ensures r.lastId == t.lastId + 1
  {
    var id := t.lastId + 1;
    ChallengeTable(t.rows + [Challenge(id, challenger, challenger, challenged)], id)
  }

  /** DELETE ... WHERE match_id = m */
  function DeleteByMatchId(t: ChallengeTable, m: string): ChallengeTable {
    ChallengeTable(Keep(t.rows, MatchIdIsNot(m)), t.lastId)
  }

  /** DELETE ... WHERE challenger = team OR challenged = team */
  function DeleteInvolving(t: ChallengeTable, team: string): ChallengeTable {
    ChallengeTable(Keep(t.rows, Uninvolved(team)), t.lastId)
  }

  /** DELETE FROM the table; the AUTOINCREMENT counter is kept. */
  function Wipe(t: ChallengeTable): ChallengeTable {
    ChallengeTable([], t.lastId)
  }

  // The effect of each command on the three tables

  /**
   * db_register_challenge: appends one row to d's table only; an unknown
   * division matches none of the three branches and changes nothing.
   */
  function RegisterChallenge(cs: Challenges, d: string, challenger: string, challenged: string): (r: Challenges)
    ensures !IsDivision(d) ==> r == cs
    ensures IsDivision(d) ==> TableOf(r, d) == Some(AppendChallenge(TableOf(cs, d).value, challenger, challenged))
    ensures forall d' :: d' != d ==> TableOf(r, d') == TableOf(cs, d')
  {
    match TableOf(cs, d)
    case None => cs
    case Some(t) => WithTable(cs, d, AppendChallenge(t, challenger, challenged))
  }

  /** db_remove_challenge: deletes d's rows keyed by m; unknown division: no change. */
  function RemoveChallengeByMatchId(cs: Challenges, d: string, m: string): (r: Challenges)
    ensures !IsDivision(d) ==> r == cs
    ensures IsDivision(d) ==> TableOf(r, d) == Some(DeleteByMatchId(TableOf(cs, d).value, m))
    ensures forall d' :: d' != d ==> TableOf(r, d') == TableOf(cs, d')
  {
    match TableOf(cs, d)
    case None => cs
    case Some(t) => WithTable(cs, d, DeleteByMatchId(t, m))
  }

  /** remove_challenge: deletes d's rows mentioning team; unknown division: no change. */
  function RemoveChallengeInvolving(cs: Challenges, d: string, team: string): (r: Challenges)
    ensures !IsDivision(d) ==> r == cs
    ensures IsDivision(d) ==> TableOf(r, d) == Some(DeleteInvolving(TableOf(cs, d).value, team))
    ensures forall d' :: d' != d ==> TableOf(r, d') == TableOf(cs, d')
  {
    match TableOf(cs, d)
    case None => cs
    case Some(t) => WithTable(cs, d, DeleteInvolving(t, team))
  }

  /**
   * db_clear_all_challenges: empties the one table the interpolated name
   * reaches; a name that reaches no table fails.
   */
  function ClearAllChallenges(cs: Challenges, d: string): (r: Query<Challenges>)
    ensures r.NoSuchTable? <==> Resolve(d).None?
    ensures r.Fetched? ==> TableOf(r.value, Resolve(d).value).value.rows == []
    ensures r.Fetched? ==> forall d' :: d' != Resolve(d).value ==> TableOf(r.value, d') == TableOf(cs, d')
  {
    match Resolve(d)
    case None => NoSuchTable("challenges_" + d)
    case Some(e) => Fetched(WithTable(cs, e, Wipe(TableOf(cs, e).value)))
  }

  // The table invariant is kept by every command

  lemma AppendKeepsValid(t: ChallengeTable, challenger: string, challenged: string)
    requires ValidTable(t)
    ensures ValidTable(AppendChallenge(t, challenger, challenged))
  {
  }

  lemma DeleteByMatchIdKeepsValid(t: ChallengeTable, m: string)
    requires ValidTable(t)
    ensures ValidTable(DeleteByMatchId(t, m))
  {
    KeepAscending(t.rows, MatchIdIsNot(m), Id);
    KeepMembers(t.rows, MatchIdIsNot(m));
  }

  lemma DeleteInvolvingKeepsValid(t: ChallengeTable, team: string)
    requires ValidTable(t)
    ensures ValidTable(DeleteInvolving(t, team))
  {
    KeepAscending(t.rows, Uninvolved(team), Id);
    KeepMembers(t.rows, Uninvolved(team));
  }

  /** Each command keeps every row keyed by its challenger, ids ascending. */
  lemma RegisterKeepsValid(cs: Challenges, d: string, a: string, b: string)
    requires ValidChallenges(cs)
    ensures ValidChallenges(RegisterChallenge(cs, d, a, b))
  {
    forall d' | IsDivision(d') ensures ValidTable(TableOf(RegisterChallenge(cs, d, a, b), d').value) {
      if d' == d { AppendKeepsValid(TableOf(cs, d).value, a, b); }
    }
  }

  lemma RemoveByMatchIdKeepsValid(cs: Challenges, d: string, m: string)
    requires ValidChallenges(cs)
    ensures ValidChallenges(RemoveChallengeByMatchId(cs, d, m))
  {
    forall d' | IsDivision(d') ensures ValidTable(TableOf(RemoveChallengeByMatchId(cs, d, m), d').value) {
      if d' == d { DeleteByMatchIdKeepsValid(TableOf(cs, d).value, m); }
    }
  }

  lemma RemoveInvolvingKeepsValid(cs: Challenges, d: string, team: string)
    requires ValidChallenges(cs)
    ensures ValidChallenges(RemoveChallengeInvolving(cs, d, team))
  {
    forall d' | IsDivision(d') ensures ValidTable(TableOf(RemoveChallengeInvolving(cs, d, team), d').value) {
      if d' == d { DeleteInvolvingKeepsValid(TableOf(cs, d).value, team); }
    }
  }

  lemma ClearAllKeepsValid(cs: Challenges, d: string)
    requires ValidChallenges(cs) && Resolve(d).Some?
    ensures ValidChallenges(ClearAllChallenges(cs, d).value)
  {
    var e := Resolve(d).value;
    forall d' | IsDivision(d') ensures ValidTable(TableOf(ClearAllChallenges(cs, d).value, d').value) {
      if d' != e { assert TableOf(ClearAllChallenges(cs, d).value, d') == TableOf(cs, d'); }
    }
  }

  /**
   * The f-string queries see the same table for two spellings of one
   * identifier, while the if-chain functions compare the division exactly:
   * "1V1" reaches the 1v1 table in find_opponent_team but is unknown to
   * is_team_challenged.
   */
  lemma {:induction false} SpellingsReachSameTable(cs: Challenges, d: string, d': string, team: string)
    requires SameIdentifier(d, d')
    ensures FindOpponentTeam(cs, d, team).Fetched? ==> FindOpponentTeam(cs, d, team) == FindOpponentTeam(cs, d', team)
    ensures GetChallengesData(cs, d).Fetched? ==> GetChallengesData(cs, d) == GetChallengesData(cs, d')
    ensures ClearAllChallenges(cs, d).Fetched? ==> ClearAllChallenges(cs, d) == ClearAllChallenges(cs, d')
  {
    ResolveIgnoresCase(d, d');
  }

  lemma IfChainIsExact(cs: Challenges, team: string)
    ensures FindOpponentTeam(cs, "1V1 ", team) == FindOpponentTeam(cs, "1v1", team)
    ensures IsTeamChallenged(cs, "1V1 ", team).None? && HasTeamChallenged(cs, "1V1 ", team).None?
  {
    UpperCaseWithBlankResolves();
    DivisionResolvesToItself("1v1");
  }

  // What each command leaves behind

  /**
   * After db_register_challenge(d, a, b) in a known division, a has sent a
   * challenge, b has received one, and if a was in no row before, its
   * opponent is b.
   */
  lemma RegisteredChallengeIsVisible(cs: Challenges, d: string, a: string, b: string)
    requires IsDivision(d)
    ensures HasTeamChallenged(RegisterChallenge(cs, d, a, b), d, a) == Some(true)
    ensures IsTeamChallenged(RegisterChallenge(cs, d, a, b), d, b) == Some(true)
    ensures FindOpponentTeam(cs, d, a) == Fetched(None) ==>
      FindOpponentTeam(RegisterChallenge(cs, d, a, b), d, a) == Fetched(Some(b))
  {
    DivisionResolvesToItself(d);
    var rows := TableOf(RegisterChallenge(cs, d, a, b), d).value.rows;
    var k := |rows| - 1;
    assert rows[k].challenger == a && rows[k].challenged == b;
    if FindOpponentTeam(cs, d, a) == Fetched(None) {
      assert FirstMention(rows, a, k);
    }
  }

  /**
   * After db_remove_challenge(d, c), in a table whose rows are keyed by their
   * challenger, c has no challenge out; exactly the rows with another
   * match_id remain.
   */
  lemma RemovedMatchIsGone(cs: Challenges, d: string, c: string)
    requires ValidChallenges(cs) && IsDivision(d)
    ensures HasTeamChallenged(RemoveChallengeByMatchId(cs, d, c), d, c) == Some(false)
    ensures var before := TableOf(cs, d).value.rows;
      var after := TableOf(RemoveChallengeByMatchId(cs, d, c), d).value.rows;
      (forall i :: 0 <= i < |before| && before[i].matchId != c ==> before[i] in after) &&
      (forall i :: 0 <= i < |after| ==> after[i] in before && after[i].matchId != c)
  {
    assert ValidTable(TableOf(cs, d).value);
    KeepMembers(TableOf(cs, d).value.rows, MatchIdIsNot(c));
  }

  /**
   * After remove_challenge(d, t) no row of d mentions t and t has no
   * opponent; exactly the rows not mentioning t remain.
   */
  lemma RemovedTeamIsGone(cs: Challenges, d: string, t: string)
    requires IsDivision(d)
    ensures FindOpponentTeam(RemoveChallengeInvolving(cs, d, t), d, t) == Fetched(None)
    ensures HasTeamChallenged(RemoveChallengeInvolving(cs, d, t), d, t) == Some(false)
    ensures IsTeamChallenged(RemoveChallengeInvolving(cs, d, t), d, t) == Some(false)
    ensures var before := TableOf(cs, d).value.rows;
      var after := TableOf(RemoveChallengeInvolving(cs, d, t), d).value.rows;
      (forall i :: 0 <= i < |before| && before[i].challenger != t && before[i].challenged != t ==> before[i] in after) &&
      (forall i :: 0 <= i < |after| ==> after[i] in before)
  {
    DivisionResolvesToItself(d);
    KeepMembers(TableOf(cs, d).value.rows, Uninvolved(t));
  }

  /** Deleting by match_id a second time changes nothing. */
  lemma RemoveByMatchIdIdempotent(cs: Challenges, d: string, m: string)
    ensures RemoveChallengeByMatchId(RemoveChallengeByMatchId(cs, d, m), d, m) == RemoveChallengeByMatchId(cs, d, m)
  {
    if IsDivision(d) {
      KeepIdempotent(TableOf(cs, d).value.rows, MatchIdIsNot(m));
    }
  }

  /** Deleting a team's challenges a second time changes nothing. */
  lemma RemoveInvolvingIdempotent(cs: Challenges, d: string, t: string)
    ensures RemoveChallengeInvolving(RemoveChallengeInvolving(cs, d, t), d, t) == RemoveChallengeInvolving(cs, d, t)
  {
    if IsDivision(d) {
      KeepIdempotent(TableOf(cs, d).value.rows, Uninvolved(t));
    }
  }

  /**
   * The three challenge tables, updated in place by the commands of
   * database/challenge_management.py.
   */
  class ChallengeTables {
    var tables: Challenges

    ghost predicate Valid()
      reads this
    {
      ValidChallenges(tables)
    }

    constructor()
      ensures Valid()
      ensures forall d :: IsDivision(d) ==> TableOf(tables, d) == Some(ChallengeTable([], 0))
    {
      var empty := ChallengeTable([], 0);
      tables := Challenges(empty, empty, empty);
    }

    method DbRegisterChallenge(d: string, challenger: string, challenged: string)
      requires Valid()
      modifies this
      ensures Valid()
      ensures tables == RegisterChallenge(old(tables), d, challenger, challenged)
    {
      RegisterKeepsValid(tables, d, challenger, challenged);
      tables := RegisterChallenge(tables, d, challenger, challenged);
    }

    method DbRemoveChallenge(d: string, challenger: string)
      requires Valid()
      modifies this
      ensures Valid()
      ensures tables == RemoveChallengeByMatchId(old(tables), d, challenger)
    {
      RemoveByMatchIdKeepsValid(tables, d, challenger);
      tables := RemoveChallengeByMatchId(tables, d, challenger);
    }

    method RemoveChallenge(d: string, team: string)
      requires Valid()
      modifies this
      ensures Valid()
      ensures tables == RemoveChallengeInvolving(old(tables), d, team)
    {
      RemoveInvolvingKeepsValid(tables, d, team);
      tables := RemoveChallengeInvolving(tables, d, team);
    }

    /** Fails, changing nothing, when the interpolated name reaches no table. */
    method DbClearAllChallenges(d: string) returns (o: Outcome)
      requires Valid()
      modifies this
      ensures Valid()
      ensures o.Fail? <==> Resolve(d).None?
      ensures o.Fail? ==> o.error == "no such table: challenges_" + d && tables == old(tables)
      ensures o.Pass? ==> tables == ClearAllChallenges(old(tables), d).value
    {
      match ClearAllChallenges(tables, d)
      case NoSuchTable(name) =>
        o := Fail("no such table: " + name);
      case Fetched(cleared) =>
        ClearAllKeepsValid(tables, d);
        tables := cleared;
        o := Pass;
    }
  }
}
