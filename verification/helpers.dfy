/** The roster-string builder of utils/helpers.py. */
module Helpers {
  import opened Text

  /**
   * create_members_string: a single member gives that member's display name,
   * any other number of members gives the display names in argument order
   * joined by ", " (so no members gives ""). The single-member branch agrees
   * with the general join.
   */
  function CreateMembersString(names: seq<string>): (s: string)
    ensures s == Join(names, ", ")
    ensures |names| == 0 ==> s == ""
  {
    if |names| == 1 then names[0]
    else Join(names, ", ")
  }
}
