/**
 * The roster string written by register_team and read back by
 * is_member_registered: create_members_string joins display names with
 * ", ", the parse splits on ',' and strips each piece.
 */
module Roster {
  import opened Text
  import opened Helpers
  import opened TeamManagement

  /** A display name that survives the round trip: no comma, no padding. */
  predicate WellFormedName(name: string) {
    ',' !in name && Unpadded(name)
  }

  /** Every name with one blank in front of it. */
  function Blanked(names: seq<string>): (r: seq<string>)
    ensures |r| == |names|
    ensures forall i :: 0 <= i < |names| ==> r[i] == " " + names[i]
  {
    if |names| == 0 then [] else [" " + names[0]] + Blanked(names[1..])
  }

  /** Joining with ", " is joining the blanked names with ",", one blank in front. */
  lemma {:induction false} JoinWithBlank(names: seq<string>)
    requires |names| >= 1
    ensures " " + Join(names, ", ") == Join(Blanked(names), ",")
  {
    if |names| > 1 {
      JoinWithBlank(names[1..]);
      var b := Blanked(names);
      assert b[1..] == Blanked(names[1..]);
      assert " " + Join(names, ", ") == (" " + names[0]) + "," + (" " + Join(names[1..], ", "));
    }
  }

  /** The comma-separated pieces of a roster string, before stripping. */
  lemma RosterPieces(names: seq<string>)
    requires |names| >= 1
    requires forall i :: 0 <= i < |names| ==> WellFormedName(names[i])
    ensures Split(CreateMembersString(names), ',') == [names[0]] + Blanked(names[1..])
  {
    var pieces := [names[0]] + Blanked(names[1..]);
    if |names| > 1 {
      JoinWithBlank(names[1..]);
      assert pieces[1..] == Blanked(names[1..]);
      assert Join(names, ", ") == Join(pieces, ",");
    }
    forall i | 0 <= i < |pieces| ensures ',' !in pieces[i] {
      if i > 0 {
        assert pieces[i] == " " + names[i];
      }
    }
    SplitJoin(pieces, ',');
  }

  /**
   * Parsing a roster string gives back the names it was built from, in
   * order, when no name holds a comma or surrounding whitespace.
   */
  lemma MembersRoundTrip(names: seq<string>)
    requires |names| >= 1
    requires forall i :: 0 <= i < |names| ==> WellFormedName(names[i])
    ensures ParseMembers(CreateMembersString(names)) == names
  {
    RosterPieces(names);
    var parsed := ParseMembers(CreateMembersString(names));
    forall i | 0 <= i < |names| ensures parsed[i] == names[i] {
      if i == 0 {
        StripUnpadded(names[0]);
      } else {
        StripAfterBlank(names[i]);
      }
    }
  }

  /**
   * Once a team is registered with a roster built from well-formed names,
   * every one of those names counts as rostered in that division.
   */
  lemma RegisteredRosterIsFound(rows: seq<Team>, d: string, n: string, names: seq<string>, k: int)
    requires |names| >= 1
    requires forall i :: 0 <= i < |names| ==> WellFormedName(names[i])
    requires 0 <= k < |names|
    ensures MemberRegistered(AppendTeam(rows, d, n, CreateMembersString(names)), d, names[k])
  {
    MembersRoundTrip(names);
    var r := AppendTeam(rows, d, n, CreateMembersString(names));
    assert r[|rows|].division == d;
  }
}
