/** The roster-size validator of utils/validators.py. */
module Validators {

  /** Required roster size per division type. */
  const RequiredSize: map<string, nat> := map["1v1" := 1, "2v2" := 2, "3v3" := 3]

  /**
   * is_correct_member_size: true exactly when the division is one of the
   * three known ones and the number of members is the size it requires.
   * Only the number of members is looked at.
   */
  function IsCorrectMemberSize(division: string, members: seq<string>): (r: bool)
    ensures r <==> division in RequiredSize && |members| == RequiredSize[division]
  {
    var total := |members|;
    if division == "1v1" && total == 1 then true
    else if division == "2v2" && total == 2 then true
    else if division == "3v3" && total == 3 then true
    else false
  }

  /** The verdict depends on the roster only through its length. */
  lemma OnlySizeMatters(division: string, a: seq<string>, b: seq<string>)
    requires |a| == |b|
    ensures IsCorrectMemberSize(division, a) == IsCorrectMemberSize(division, b)
  {
  }

  /** A roster naming the same person twice is not rejected. */
  lemma RepeatedMemberAccepted(m: string)
    ensures IsCorrectMemberSize("2v2", [m, m])
    ensures IsCorrectMemberSize("3v3", [m, m, m])
  {
  }

  /** Any division string other than the three is rejected, whatever the roster. */
  lemma UnknownDivisionRejected(division: string, members: seq<string>)
    requires division != "1v1" && division != "2v2" && division != "3v3"
    ensures !IsCorrectMemberSize(division, members)
  {
  }
}
