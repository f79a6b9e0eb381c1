/**
 * LadderManager of ladder_manager.py: the register_team and remove_team
 * commands, which check their guards against the teams table and then
 * change it. Members are given by their display names.
 */
module LadderManager {
  import opened Validators
  import opened Helpers
  import opened TeamManagement

  /** The replies of the two commands. */
  datatype Message =
    | DuplicateName(n: string)
    | InvalidDivision
    | MemberCount
    | Registered(d: string, n: string, membersString: string)
    | Removed(d: string, n: string)
    | NotFound(d: string, n: string)

  /** r opens with "Team <n>". */
  predicate OpensWithTeam(r: string, n: string) {
    |r| >= 5 + |n| && r[..5 + |n|] == "Team " + n
  }

  /** r ends with tail. */
  predicate EndsWith(r: string, tail: string) {
    |r| >= |tail| && r[|r| - |tail|..] == tail
  }

  /** A reply about team n: "Team <n>" and then the rest of the sentence. */
  function AboutTeam(n: string, rest: string): (r: string)
    ensures OpensWithTeam(r, n) && EndsWith(r, rest)
  {
    var r := "Team " + n + rest;
    assert r[..5 + |n|] == "Team " + n;
    r
  }

  /** The success reply of register_team ends with the members string. */
  function RegisteredWording(d: string, n: string, ms: string): (r: string)
    ensures OpensWithTeam(r, n) && EndsWith(r, ms)
  {
    var lead := " has been registered in the " + d + " division with the following members: ";
    var r := AboutTeam(n, lead + ms);
    assert r[|r| - |ms|..] == (lead + ms)[|lead|..];
    r
  }

  const InvalidDivisionWording := "Please enter 1v1 2v2 or 3v3 for the division type and try again."
  const MemberCountWording := "Please enter the correct amount of members depending on the division type."

  /**
   * The text the user sees for each reply: the replies about a team open
   * with "Team <name>", and the registration reply ends with the roster.
   */
  function Wording(m: Message): (r: string)
    ensures (m.DuplicateName? || m.Registered? || m.Removed?) ==> OpensWithTeam(r, m.n)
    ensures m.Registered? ==> EndsWith(r, m.membersString)
  {
    match m
    case DuplicateName(n) => AboutTeam(n, " is already being used. Please choose another team name.")
    case InvalidDivision => InvalidDivisionWording
    case MemberCount => MemberCountWording
    case Registered(d, n, ms) => RegisteredWording(d, n, ms)
    case Removed(d, n) => AboutTeam(n, " from the " + d + " division has been removed from the Ladder.")
    case NotFound(d, n) => "No team named Team " + n + " found for the " + d + " division. Please try again."
  }

  /** Python truthiness of a string: only the empty string is false. */
  predicate Truthy(s: string) {
    s != ""
  }

  /**
   * The division guard as written: `d == '1v1' or '2v2' or '3v3'` compares
   * only against '1v1' and then falls back on the non-empty literal '2v2',
   * so it holds for every division string.
   */
  function DivisionGuard(d: string): (r: bool)
    ensures r
  {
    d == "1v1" || Truthy("2v2") || Truthy("3v3")
  }

  /** What a command answers and the teams table it leaves. */
  datatype Reply = Reply(message: Message, rows: seq<Team>)

  /**
   * register_team as a function of the table: guards in the order name,
   * division, roster size, and the INSERT only when all of them pass. The
   * check for members already on a team of the division is commented out
   * in the source and is absent here.
   */
  function RegisterTeamReply(rows: seq<Team>, d: string, n: string, members: seq<string>): (r: Reply)
    ensures !IsTeamNameUnique(rows, n) ==> r == Reply(DuplicateName(n), rows)
    ensures IsTeamNameUnique(rows, n) && !IsCorrectMemberSize(d, members) ==> r == Reply(MemberCount, rows)
    ensures IsTeamNameUnique(rows, n) && IsCorrectMemberSize(d, members) ==>
      r.rows == AppendTeam(rows, d, n, CreateMembersString(members)) &&
      r.message == Registered(d, n, CreateMembersString(members))
    ensures r.message != InvalidDivision
  {
    if !IsTeamNameUnique(rows, n) then
      Reply(DuplicateName(n), rows)
    else if !DivisionGuard(d) then Reply(InvalidDivision, rows)
    else if !IsCorrectMemberSize(d, members) then Reply(MemberCount, rows)
    else
      var membersString := CreateMembersString(members);
      Reply(Registered(d, n, membersString), AppendTeam(rows, d, n, membersString))
  }

  /** The table changes only when every guard passes, and then by one row. */
  lemma RegisterWritesOnlyAfterAllGuards(rows: seq<Team>, d: string, n: string, members: seq<string>)
    ensures RegisterTeamReply(rows, d, n, members).rows != rows ==>
      IsTeamNameUnique(rows, n) && IsCorrectMemberSize(d, members) &&
      |RegisterTeamReply(rows, d, n, members).rows| == |rows| + 1
  {
  }

  /**
   * An unknown division gets past the division guard and is turned away by
   * the roster-size check instead, with nothing written.
   */
  lemma UnknownDivisionGetsMemberCountMessage(rows: seq<Team>, d: string, n: string, members: seq<string>)
    requires d != "1v1" && d != "2v2" && d != "3v3"
    requires IsTeamNameUnique(rows, n)
    ensures RegisterTeamReply(rows, d, n, members) == Reply(MemberCount, rows)
  {
    UnknownDivisionRejected(d, members);
  }

  /**
   * A member already on a team of the division is accepted on a new team:
   * the rostered check is not performed.
   */
  lemma RosteredMemberAccepted(rows: seq<Team>, d: string, n: string, m: string, members: seq<string>)
    requires MemberRegistered(rows, d, m) && m in members
    requires IsTeamNameUnique(rows, n) && IsCorrectMemberSize(d, members)
    ensures RegisterTeamReply(rows, d, n, members).rows == AppendTeam(rows, d, n, CreateMembersString(members))
    ensures RegisterTeamReply(rows, d, n, members).message == Registered(d, n, CreateMembersString(members))
    ensures MemberRegistered(RegisterTeamReply(rows, d, n, members).rows, d, m)
  {
    var r := AppendTeam(rows, d, n, CreateMembersString(members));
    var i :| 0 <= i < |rows| && rows[i].division == d && Lists(rows[i], m);
    assert r[i] == rows[i];
  }

  /**
   * register_team keeps team names unique across all divisions and keeps
   * every division's ranks 1..N.
   */
  lemma RegisterTeamKeepsInvariants(rows: seq<Team>, d: string, n: string, members: seq<string>)
    requires NamesUnique(rows)
    ensures NamesUnique(RegisterTeamReply(rows, d, n, members).rows)
    ensures forall d' :: RanksContiguous(rows, d') ==> RanksContiguous(RegisterTeamReply(rows, d, n, members).rows, d')
  {
    if IsTeamNameUnique(rows, n) && IsCorrectMemberSize(d, members) {
      var ms := CreateMembersString(members);
      RegisterKeepsNamesUnique(rows, d, n, ms);
      forall d' | RanksContiguous(rows, d') ensures RanksContiguous(AppendTeam(rows, d, n, ms), d') {
        RegisterKeepsRanksContiguous(rows, d, n, ms, d');
      }
    }
  }

  /**
   * remove_team as a function of the table: a team that exists in the
   * division is deleted, otherwise nothing changes.
   */
  function RemoveTeamReply(rows: seq<Team>, d: string, n: string): (r: Reply)
    ensures DoesTeamExist(rows, d, n) ==> r == Reply(Removed(d, n), RemoveTeamRows(rows, d, n))
    ensures !DoesTeamExist(rows, d, n) ==> r == Reply(NotFound(d, n), rows)
  {
    if DoesTeamExist(rows, d, n) then Reply(Removed(d, n), RemoveTeamRows(rows, d, n))
    else Reply(NotFound(d, n), rows)
  }

  /**
   * After remove_team the team is gone from the division, every other row
   * is still there, and names stay unique.
   */
  lemma RemoveTeamEffect(rows: seq<Team>, d: string, n: string)
    ensures !DoesTeamExist(RemoveTeamReply(rows, d, n).rows, d, n)
    ensures forall i :: 0 <= i < |rows| && !(rows[i].division == d && rows[i].name == n) ==>
      rows[i] in RemoveTeamReply(rows, d, n).rows
    ensures NamesUnique(rows) ==> NamesUnique(RemoveTeamReply(rows, d, n).rows)
  {
    if DoesTeamExist(rows, d, n) && NamesUnique(rows) {
      RemoveKeepsNamesUnique(rows, d, n);
    }
  }

  /** The commands of ladder_manager.py over the shared teams table. */
  class LadderManager {
    const teams: TeamsTable

    constructor (teams: TeamsTable)
      ensures this.teams == teams
    {
      this.teams := teams;
    }

    /** register_team */
    method RegisterTeam(d: string, n: string, members: seq<string>) returns (msg: string)
      modifies teams
      ensures msg == Wording(RegisterTeamReply(old(teams.rows), d, n, members).message)
      ensures teams.rows == RegisterTeamReply(old(teams.rows), d, n, members).rows
    {
      if IsTeamNameUnique(teams.rows, n) {
        if DivisionGuard(d) {
          if IsCorrectMemberSize(d, members) {
            var membersString := CreateMembersString(members);
            teams.DbRegisterTeam(d, n, membersString);
            msg := Wording(Registered(d, n, membersString));
          } else {
            msg := Wording(MemberCount);
          }
        } else {
          assert false;
        }
      } else {
        msg := Wording(DuplicateName(n));
      }
    }

    /** remove_team */
    method RemoveTeam(d: string, n: string) returns (msg: string)
      modifies teams
      ensures msg == Wording(RemoveTeamReply(old(teams.rows), d, n).message)
      ensures teams.rows == RemoveTeamReply(old(teams.rows), d, n).rows
    {
      if DoesTeamExist(teams.rows, d, n) {
        teams.DbRemoveTeam(d, n);
        msg := Wording(Removed(d, n));
      } else {
        msg := Wording(NotFound(d, n));
      }
    }
  }
}
