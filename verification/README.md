# Ladderbot core in Dafny

Ladderbot is a Discord bot that runs a ladder tournament in three
divisions: 1v1, 2v2 and 3v3. This project models its team-registration
and challenge-bookkeeping layer. That layer has three parts:

- the SQLite tables it reads and writes (teams, the three challenge tables,
  members, states);
- the `LadderManager` commands `register_team` and `remove_team`;
- the small pure helpers they use: the roster-size validator, and the
  roster string builder together with its parser.

Each SQLite table is a sequence of rows in storage order (module `Table`):

- `SELECT COUNT(*) ... WHERE` is `Count`;
- `DELETE ... WHERE` keeps the rows that do not match (`Keep`);
- `fetchone()` reads the first matching row (`First`).

Queries are functions of the rows. The commands that change a table are the
methods of a class holding that table (`TeamsTable`, `ChallengeTables`,
`MembersTable`). Each such method is tied to a function that states the
new table, and lemmas prove what those functions promise.

The modules:

- `Text`: the Python string operations the roster code uses. These are
  `str.strip()` with the whitespace of `str.isspace()`, `str.split(',')`
  and `', '.join`. Splitting a join gives the pieces back.
- `TeamManagement`: the teams table and the team commands. Ranks run
  `1..N` in each division. Appending at the bottom keeps them that way, and
  contiguous ranks are pairwise distinct. A deletion does not renumber:
  removing the middle one of three teams leaves the ranks `{1, 3}`.
- `ChallengeManagement`: the three challenge tables. Each row is
  `(id, match_id, challenger, challenged)`, and `id` is AUTOINCREMENT. An
  invariant holds for every row: `match_id == challenger`, ids positive and
  strictly ascending. Every command keeps it.
- `MemberManagement`, `StateManagement`: the members insert and lookup,
  and the ladder-running flag.
- `Helpers`, `Validators`, `Roster`: `create_members_string`,
  `is_correct_member_size`, and the round trip between the roster string
  and its parse.
- `LadderManager`: `register_team` and `remove_team`, modelled as written.
  - The guard `division_type == '1v1' or '2v2' or '3v3'` is always true,
    so the invalid-division reply never comes back.
  - The check for a member already on a team of the division is commented
    out, so such a member is accepted.

`db_remove_team` (database/team_management.py:151) deletes the row and does
not renumber the teams ranked below it; `TeamManagement.RemoveMiddleTeamLeavesGap`
shows the gap this leaves.

Two kinds of division lookup are kept apart. `is_team_challenged`,
`has_team_challenged`, `db_register_challenge`, `db_remove_challenge` and
`remove_challenge` compare the division with `==` in Python, so only the exact
strings `1v1`, `2v2` and `3v3` reach a table. `find_opponent_team`,
`get_challenges_data` and `db_clear_all_challenges` splice the division into
the SQL text as `challenges_<division>`. SQLite compares identifiers with ASCII
letters folded to one case, and blanks after the name only separate tokens, so
`1V1` or `1v1 ` reach the 1v1 table there (`ChallengeManagement.Resolve`).

## Model

| member | source | states |
|---|---|---|
| TeamManagement.CountTeams | database/team_management.py:7-27 | at most the number of rows, and zero exactly when no row is in division d |
| TeamManagement.CountTeamsIsNumberOfRows | database/team_management.py:19-27 | count_teams(d) equals the number of rows whose division is d |
| TeamManagement.IsTeamNameUnique | database/team_management.py:42-45 | true exactly when no row, in any division, carries the name |
| TeamManagement.DoesTeamExist | database/team_management.py:55-58 | true exactly when some row of division d carries the name |
| TeamManagement.ExistingTeamNameIsTaken | database/team_management.py:55-58 | a team that exists in a division makes its name non-unique |
| TeamManagement.ParseMembers | database/team_management.py:87 | the members string split on ',' with each piece stripped: one entry per piece, each free of commas and surrounding whitespace |
| TeamManagement.ParseMembersStripsPieces | database/team_management.py:87 | each entry is its piece of the ',' split with only the surrounding whitespace removed |
| TeamManagement.FetchedDivisionRows | database/team_management.py:77-87 | some team of d lists the member exactly when some row fetched by the division query does |
| TeamManagement.IsMemberRegistered | database/team_management.py:60-94 | the scan over division d's rosters answers true exactly when some team of d lists the member among its parsed pieces |
| TeamManagement.GiveTeamRank | database/team_management.py:103-107 | needs a row for (d, n); returns the rank of the first such row, which is every such row's rank when names are unique |
| TeamManagement.ContiguousRanksAreDistinct | database/team_management.py:122 | when a division's ranks are exactly 1..N, no two of its rows share a rank |
| TeamManagement.AppendTeam | database/team_management.py:122-135 | exactly one row is appended with the given name, division and members, rank = count_teams(d) + 1 and 0 wins, 0 losses; d's count grows by one and every other division's count is unchanged |
| TeamManagement.RegisteredTeamRank | database/team_management.py:122-135 | a newly registered team exists and give_team_rank returns the prior count + 1 |
| TeamManagement.RegisterKeepsRanksContiguous | database/team_management.py:122-135 | if a division's ranks are {1..N} before the insert, they are {1..N'} after, for every division |
| TeamManagement.RegisterKeepsNamesUnique | database/team_management.py:132-135 | inserting a name no row carries keeps names globally unique |
| TeamManagement.RegisterLeavesOtherDivisions | database/team_management.py:132-135 | the rows of every other division are the same rows in the same order |
| TeamManagement.RemoveTeamRows | database/team_management.py:151 | after the delete no row of (d, n) is left and every other row is kept |
| TeamManagement.RemoveTeamInventsNoRow | database/team_management.py:151 | the delete invents no row: every row left was in the table before |
| TeamManagement.RemoveTeamIdempotent | database/team_management.py:151 | deleting a team twice equals deleting it once |
| TeamManagement.RemoveLeavesOtherDivisions | database/team_management.py:151 | the rows of every other division are unchanged, in order |
| TeamManagement.RemoveTeamCount | database/team_management.py:151 | the division loses exactly the rows of the deleted team |
| TeamManagement.RemoveKeepsNamesUnique | database/team_management.py:151 | deleting keeps names globally unique |
| TeamManagement.RemoveBottomTeamKeepsRanksContiguous | database/team_management.py:151 | removing the team at the bottom rank keeps ranks 1..N-1 |
| TeamManagement.RemoveMiddle | database/team_management.py:151 | deleting the middle of three teams leaves exactly the first and the third, in order |
| TeamManagement.RemoveMiddleTeamLeavesGap | database/team_management.py:151 | no renumbering: any three teams of a division at ranks 1, 2, 3 are contiguous, and deleting the middle one leaves ranks that are not |
| TeamManagement.TeamsTable.DbRegisterTeam | database/team_management.py:116-139 | the table becomes the append of the bottom-ranked row and every division's contiguous ranks stay contiguous |
| TeamManagement.TeamsTable.DbRemoveTeam | database/team_management.py:141-155 | the table becomes the rows not of (d, n) |
| ChallengeManagement.Opponent | database/challenge_management.py:26-37 | None exactly when no row mentions the team; otherwise the other side of the first row, in storage order, that mentions it |
| ChallengeManagement.Resolve | database/challenge_management.py:17-22 | the interpolated name `challenges_<d>` reaches division e's table exactly when d spells e up to ASCII case, followed only by blanks |
| ChallengeManagement.DivisionResolvesToItself | database/challenge_management.py:17-22 | each division type reaches its own table |
| ChallengeManagement.ResolveIgnoresCase | database/challenge_management.py:17-22 | two spellings of one identifier reach the same table |
| ChallengeManagement.UpperCaseWithBlankResolves | database/challenge_management.py:17-22 | `1V1 ` reaches the 1v1 table |
| ChallengeManagement.FindOpponentTeam | database/challenge_management.py:17-37 | a division that reaches no table fails with no such table; otherwise the opponent from the rows of the table it reaches |
| ChallengeManagement.IsTeamChallenged | database/challenge_management.py:49-65 | true exactly when some row of d has the team as challenged; None for an unrecognised division |
| ChallengeManagement.HasTeamChallenged | database/challenge_management.py:77-93 | true exactly when some row of d has the team as challenger; None for an unrecognised division |
| ChallengeManagement.GetChallengesData | database/challenge_management.py:105-113 | a division that reaches no table fails with no such table |
| ChallengeManagement.ChallengesDataInIdOrder | database/challenge_management.py:108-113 | the returned pairs are the (challenger, challenged) of every row, in ascending id order |
| ChallengeManagement.AppendChallenge | database/challenge_management.py:127-131 | the inserted row takes the next id, match_id = challenger = a and challenged = b |
| ChallengeManagement.RegisterChallenge | database/challenge_management.py:127-154 | appends one row to d's table only; an unknown division changes nothing |
| ChallengeManagement.RemoveChallengeByMatchId | database/challenge_management.py:166-183 | deletes d's rows with that match_id; other tables untouched; unknown division changes nothing |
| ChallengeManagement.RemoveChallengeInvolving | database/challenge_management.py:193-198 | deletes d's rows naming the team on either side; other tables untouched; unknown division changes nothing |
| ChallengeManagement.ClearAllChallenges | database/challenge_management.py:207-212 | empties the one table the division reaches and no other; a division that reaches no table fails with no such table |
| ChallengeManagement.AppendKeepsValid | database/challenge_management.py:131 | an insert keeps match_id = challenger and ascending ids |
| ChallengeManagement.DeleteByMatchIdKeepsValid | database/challenge_management.py:167 | a delete by match_id keeps the invariant |
| ChallengeManagement.DeleteInvolvingKeepsValid | database/challenge_management.py:194 | a delete by either side keeps the invariant |
| ChallengeManagement.RegisterKeepsValid | database/challenge_management.py:127-154 | db_register_challenge keeps the invariant in all three tables |
| ChallengeManagement.RemoveByMatchIdKeepsValid | database/challenge_management.py:166-183 | db_remove_challenge keeps the invariant in all three tables |
| ChallengeManagement.RemoveInvolvingKeepsValid | database/challenge_management.py:193-198 | remove_challenge keeps the invariant in all three tables |
| ChallengeManagement.ClearAllKeepsValid | database/challenge_management.py:212 | db_clear_all_challenges keeps the invariant in all three tables |
| ChallengeManagement.SpellingsReachSameTable | database/challenge_management.py:17-22 | find_opponent_team, get_challenges_data and db_clear_all_challenges give the same result for two spellings of one identifier |
| ChallengeManagement.IfChainIsExact | database/challenge_management.py:39-65 | `1V1 ` reaches the 1v1 table in find_opponent_team, while is_team_challenged and has_team_challenged do not recognise it |
| ChallengeManagement.RegisteredChallengeIsVisible | database/challenge_management.py:127-154 | after registering (a, b), a has challenged and b is challenged; if a was in no row, its opponent is b |
| ChallengeManagement.RemovedMatchIsGone | database/challenge_management.py:166-183 | with match_id = challenger, afterwards has_team_challenged(d, c) is false; exactly the rows with other match_ids remain |
| ChallengeManagement.RemovedTeamIsGone | database/challenge_management.py:193-198 | afterwards no row of d mentions the team, its opponent is None, and every row not mentioning it remains |
| ChallengeManagement.RemoveByMatchIdIdempotent | database/challenge_management.py:167 | db_remove_challenge twice equals once |
| ChallengeManagement.RemoveInvolvingIdempotent | database/challenge_management.py:194 | remove_challenge twice equals once |
| ChallengeManagement.ChallengeTables.DbRegisterChallenge | database/challenge_management.py:115-154 | the tables become RegisterChallenge of the old ones; the invariant is kept |
| ChallengeManagement.ChallengeTables.DbRemoveChallenge | database/challenge_management.py:156-184 | the tables become RemoveChallengeByMatchId of the old ones; the invariant is kept |
| ChallengeManagement.ChallengeTables.RemoveChallenge | database/challenge_management.py:186-201 | the tables become RemoveChallengeInvolving of the old ones; the invariant is kept |
| ChallengeManagement.ChallengeTables.DbClearAllChallenges | database/challenge_management.py:203-215 | a division that reaches no table fails with no such table and changes nothing; otherwise the table it reaches is emptied |
| Validators.IsCorrectMemberSize | utils/validators.py:3-20 | true exactly for ('1v1', 1), ('2v2', 2), ('3v3', 3) members |
| Validators.OnlySizeMatters | utils/validators.py:9 | the verdict depends on the members only through their number |
| Validators.RepeatedMemberAccepted | utils/validators.py:9-17 | a roster naming the same person twice or three times is accepted |
| Validators.UnknownDivisionRejected | utils/validators.py:19-20 | any other division string is rejected |
| Helpers.CreateMembersString | utils/helpers.py:2-13 | the names joined by ", " in order: one name gives itself, none gives "" |
| Roster.JoinWithBlank | utils/helpers.py:11 | a ", " join is a "," join of the names with one blank in front of each name after the first |
| Roster.RosterPieces | utils/helpers.py:11 | splitting a roster string on ',' gives the first name and then each later name with its blank |
| Roster.MembersRoundTrip | database/team_management.py:87 | for names without commas or surrounding whitespace, parsing create_members_string gives the names back in order |
| Roster.RegisteredRosterIsFound | database/team_management.py:83-91 | every name of a roster just registered counts as rostered in its division |
| MemberManagement.IsMemberInMembersTable | database/member_management.py:17-20 | true exactly when exactly one row has the id |
| MemberManagement.RegisterMember | database/member_management.py:35-39 | appends one row with the given name and id and every counter and title 0 |
| MemberManagement.RegisterNewIdIsFound | database/member_management.py:17-20 | after registering an id no row had, the id is found |
| MemberManagement.RegisterTwiceHidesMember | database/member_management.py:36-39 | no check for an existing row: registering the same id twice makes the lookup false |
| MemberManagement.MembersTable.DbRegisterMember | database/member_management.py:22-46 | a missing name or id fails with the ValueError text and writes nothing; a storage error is swallowed and leaves the table unchanged; otherwise one row is appended |
| StateManagement.IsLadderRunning | database/state_management.py:12-20 | false when no row for d exists; otherwise true exactly when the first row's ladder_running equals 1 |
| StateManagement.LaterRowsAreIgnored | database/state_management.py:12-13 | only the first row for d is read: appending rows does not change the answer |
| LadderManager.DivisionGuard | ladder_manager.py:40 | the division guard holds for every division string |
| LadderManager.Wording | ladder_manager.py:65-86 | the replies about a team open with "Team <name>", and the registration reply ends with the members string |
| LadderManager.RegisterTeamReply | ladder_manager.py:29-75 | guards in the order name, division, size: a used name gives the duplicate reply and no change; a wrong count gives the member-count reply and no change; otherwise the success reply and the bottom-rank insert with create_members_string; never the invalid-division reply |
| LadderManager.RegisterWritesOnlyAfterAllGuards | ladder_manager.py:37-62 | the table changes only when the name is unused and the size is right, and then by one row |
| LadderManager.UnknownDivisionGetsMemberCountMessage | ladder_manager.py:40-43 | an unknown division with an unused name gets the member-count reply and no change |
| LadderManager.RosteredMemberAccepted | ladder_manager.py:45-66 | in any division, a roster of the right size that holds a member already on a team of that division is registered: the success reply, the bottom-rank insert, and the member still on the old team |
| LadderManager.RegisterTeamKeepsInvariants | ladder_manager.py:37-62 | global name uniqueness and every division's contiguous ranks survive register_team |
| LadderManager.RemoveTeamReply | ladder_manager.py:77-86 | an existing team is deleted with the removal reply; otherwise the not-found reply and no change |
| LadderManager.RemoveTeamEffect | ladder_manager.py:82-86 | afterwards the team is absent from the division, every other row is kept, and unique names stay unique |
| LadderManager.LadderManager.RegisterTeam | ladder_manager.py:29-75 | the reply text and new table are those of RegisterTeamReply |
| LadderManager.LadderManager.RemoveTeam | ladder_manager.py:77-86 | the reply text and new table are those of RemoveTeamReply |

## Left out

- Connections, cursors, commits and closes are left out. Each table is a value held by a class.
- ChallengeManagement.Resolve: a division string that splices further SQL into the f-string queries (`1v1 WHERE 0`, `1v1; ...`, a comment) is modelled as reaching no table; the model does not interpret injected SQL.
- ChallengeManagement.ChallengeTables.DbClearAllChallenges: every failure carries the text `no such table: challenges_<d>`; SQLite reports a syntax error instead when the spliced text is not a single identifier.
- Concurrent access to the database and SQLite's locking are not modelled.
- `check_team_division` (database/team_management.py:109-114) is an empty stub and has no model.
- The teams table's AUTOINCREMENT `id` column is not modelled. Rows are kept in storage order, and no teams operation reads the id.
- ChallengeManagement.RegisterChallenge: the model assumes the INSERT of `db_register_challenge` succeeds. As written it names a `status` column that the challenge tables (database/database_setup.py:39-66) do not have, so SQLite rejects it ("table challenges_1v1 has no column named status"), and no handler surrounds the call (database/challenge_management.py:128-131), so the error would propagate to the caller. The model's rows have no status.
- TeamManagement.GiveTeamRank: the model requires the row to exist. Without the row, `fetchone()[0]` raises a TypeError, which is not modelled.
- MemberManagement.MembersTable.DbRegisterMember: a SQLite failure is a `storageFails` parameter, because it cannot be seen from the code. The printed message is not modelled.
- StateManagement.IsLadderRunning: the stored `ladder_running` is modelled as an integer, so a stored value of another SQLite type is not modelled.
- The table DDL (database/database_setup.py) is used only for the column lists. The constructors start with empty tables.
- Python's ValueError is modelled as a `Fail` outcome carrying its message.
- Discord `Member` objects are their display names.
- main.py (the Discord command handlers, permission checks and start-up) is not part of this model.
- The formatting helpers `format_standings_data` and `format_challenges_data` (utils/helpers.py:15-56) are not part of this model.
- logs/logger.py and stat_manager.py are not part of this model.
- The functions that database/__init__.py imports but no shown module defines (rank updates, win/loss updates, set_rank, set_ladder_running and others) are not part of this model.
- Rank compaction after a removal is not modelled, because the code does not do it.
