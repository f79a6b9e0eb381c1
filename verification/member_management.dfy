/**
 * The members table of database/member_management.py: one row per Discord
 * member, a display name, a Discord id and eleven counters and titles that
 * start at zero.
 */
module MemberManagement {
  import opened Wrappers
  import opened Table

  datatype Member = Member(
    displayName: string, discordId: int,
    wins1v1: int, losses1v1: int, wins2v2: int, losses2v2: int, wins3v3: int, losses3v3: int,
    champion1v1: int, champion2v2: int, champion3v3: int,
    allTeamsCount: int, participationCount: int)

  function HasDiscordId(id: int): Member -> bool { (m: Member) => m.discordId == id }

  /**
   * is_member_in_members_table: true exactly when one row carries the id,
   * so a duplicated id reads as absent.
   */
  function IsMemberInMembersTable(rows: seq<Member>, id: int): (r: bool)
    ensures r <==> ExactlyOne(rows, HasDiscordId(id))
  {
    CountIsOne(rows, HasDiscordId(id));
    Count(rows, HasDiscordId(id)) == 1
  }

  /** The row db_register_member inserts: every counter and title is zero. */
  function NewMember(displayName: string, discordId: int): Member {
    Member(displayName, discordId, 0, 0, 0, 0, 0, 0, 0, 0, 0, 0, 0)
  }

  /** The INSERT of db_register_member; it does not look for an existing row. */
  function RegisterMember(rows: seq<Member>, displayName: string, discordId: int): (r: seq<Member>)
    ensures |r| == |rows| + 1 && r[..|rows|] == rows
    ensures r[|rows|].displayName == displayName && r[|rows|].discordId == discordId
    ensures var m := r[|rows|];
      m.wins1v1 == m.losses1v1 == m.wins2v2 == m.losses2v2 == m.wins3v3 == m.losses3v3 == 0 &&
      m.champion1v1 == m.champion2v2 == m.champion3v3 == m.allTeamsCount == m.participationCount == 0
  {
    rows + [NewMember(displayName, discordId)]
  }

  /** A member registered under an id nobody has is then in the table. */
  lemma {:induction false} RegisterNewIdIsFound(rows: seq<Member>, displayName: string, discordId: int)
    requires forall i :: 0 <= i < |rows| ==> rows[i].discordId != discordId
    ensures IsMemberInMembersTable(RegisterMember(rows, displayName, discordId), discordId)
  {
    var p := HasDiscordId(discordId);
    CountAppend(rows, NewMember(displayName, discordId), p);
    assert Count(rows, p) == 0;
  }

  /**
   * Registering the same id twice leaves two rows for it, after which the
   * id no longer reads as present in the table.
   */
  lemma {:induction false} RegisterTwiceHidesMember(rows: seq<Member>, displayName: string, discordId: int)
    ensures !IsMemberInMembersTable(RegisterMember(RegisterMember(rows, displayName, discordId), displayName, discordId), discordId)
  {
    var p := HasDiscordId(discordId);
    var once := RegisterMember(rows, displayName, discordId);
    CountAppend(rows, NewMember(displayName, discordId), p);
    CountAppend(once, NewMember(displayName, discordId), p);
  }

  /** The members table; db_register_member is its one command. */
  class MembersTable {
    var rows: seq<Member>

    constructor ()
      ensures rows == []
    {
      rows := [];
    }

    /**
     * db_register_member. A missing name or id (Python's None) raises
     * before the table is touched. A storage error, which the caller cannot
     * see, is rolled back and swallowed: the table is unchanged and no error
     * comes out. Otherwise one row is appended.
     */
    method DbRegisterMember(displayName: Option<string>, discordId: Option<int>, storageFails: bool) returns (o: Outcome)
      modifies this
      ensures displayName.None? || discordId.None? ==>
        o == Fail("display_name and discord_id cannot be None") && rows == old(rows)
      ensures displayName.Some? && discordId.Some? ==> o == Pass
      ensures displayName.Some? && discordId.Some? && storageFails ==> rows == old(rows)
      ensures displayName.Some? && discordId.Some? && !storageFails ==>
        rows == RegisterMember(old(rows), displayName.value, discordId.value)
    {
      if displayName.None? || discordId.None? {
        return Fail("display_name and discord_id cannot be None");
      }
      if !storageFails {
        rows := rows + [NewMember(displayName.value, discordId.value)];
      }
      o := Pass;
    }
  }
}
