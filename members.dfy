/**
 * `getMemberName`: the display name of a chat member, looked up by the
 * decimal user id the host passes as the target.
 */
module Members {
  import opened Bytes
  import opened Wrappers
  import opened Strconv
  import opened Telegram

  /** Why no name could be given: the target is not a decimal id, or the lookup failed. */
  datatype NameError = BadTarget | LookupFailed

  /** The first name, followed by a space and the last name when there is one. */
  function DisplayName(u: ChatUser): (r: Bytes)
    ensures |r| >= |u.firstName| && r[..|u.firstName|] == u.firstName
    ensures u.lastName == [] <==> |r| == |u.firstName|
    ensures u.lastName != [] ==> r[|u.firstName|] == Space && r[|u.firstName| + 1..] == u.lastName
  {
    if u.lastName != [] then u.firstName + [Space] + u.lastName else u.firstName
  }

  /** The name of user `target` in chat `source`, or why there is none. */
  function GetMemberName(source: Bytes, target: Bytes, member: Lookup): (r: Result<Bytes, NameError>)
    ensures r == Failure(BadTarget) <==> Atoi(target).None?
    ensures r == Failure(LookupFailed) <==> Atoi(target).Some? && member(source, Atoi(target).value).None?
    ensures r.Success? ==>
      member(source, Atoi(target).value).Some? && r.value == DisplayName(member(source, Atoi(target).value).value)
  {
    match Atoi(target)
    case None => Failure(BadTarget)
    case Some(id) =>
      match member(source, id)
      case None => Failure(LookupFailed)
      case Some(u) => Success(DisplayName(u))
  }

  /** A target written as the decimal id of a member yields that member's display name. */
  lemma NameOfDecimalId(source: Bytes, id: int, u: ChatUser, member: Lookup)
    requires InInt64(id) && member(source, id) == Some(u)
    ensures GetMemberName(source, Decimal(id), member) == Success(DisplayName(u))
  {
    AtoiDecimal(id);
  }

  /** When the first name has no space, the display name splits back into both names at its first space. */
  lemma DisplayNameSplits(u: ChatUser, i: nat)
    requires Space !in u.firstName
    requires i <= |DisplayName(u)| && Space !in DisplayName(u)[..i]
    requires i == |DisplayName(u)| || DisplayName(u)[i] == Space
    ensures DisplayName(u)[..i] == u.firstName
    ensures i < |DisplayName(u)| ==> DisplayName(u)[i + 1..] == u.lastName
  {
    var r := DisplayName(u);
    assert forall j :: 0 <= j < |u.firstName| ==> r[j] == u.firstName[j];
    assert forall j :: 0 <= j < i ==> r[..i][j] == r[j];
  }
}
