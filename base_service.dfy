/**
 * The checks every service inherits: look a row up or raise NotFound, and the
 * ownership and role checks that pass or raise Forbidden. None of them
 * changes any state, so they are functions.
 */
module BaseService {
  import opened Wrappers
  import UserSchemas

  /** _get_or_404: the row the repository found, or NotFound naming the resource. */
  function GetOr404<T>(found: Option<T>, resourceName: string): (r: Result<T>)
    ensures r.Ok? <==> found.Some?
    ensures found.Some? ==> r.value == found.value
    ensures found.None? ==> r.error == NotFound(resourceName)
  {
    match found
    case Some(x) => Ok(x)
    case None => Err(NotFound(resourceName))
  }

  /** What the checks can see of an item: whether it has a user_id attribute, and its value (NULL allowed). */
  datatype Owned = NoOwnerAttr | OwnerAttr(userId: Option<int>)

  /** The two roles with moderation rights. */
  predicate IsPrivileged(userRole: string) {
    userRole == "moderator" || userRole == "admin"
  }

  /** _verify_ownership: passes iff the item's user_id equals the caller's id. */
  function VerifyOwnership(item: Owned, userId: int, resourceName: string): (r: Outcome)
    ensures r == Pass <==> item == OwnerAttr(Some(userId))
    ensures item == NoOwnerAttr ==> r == Fail(ValueError(resourceName + " does not have user_id attribute"))
    ensures item.OwnerAttr? && r.Fail? ==> r.error == Forbidden
  {
    match item
    case NoOwnerAttr => Fail(ValueError(resourceName + " does not have user_id attribute"))
    case OwnerAttr(owner) => if owner != Some(userId) then Fail(Forbidden) else Pass
  }

  /** _verify_moderator_or_owner: passes iff the caller owns the item or is a moderator or admin. */
  function VerifyModeratorOrOwner(item: Owned, userId: int, userRole: string, resourceName: string): (r: Outcome)
    ensures r == Pass <==> item.OwnerAttr? && (item.userId == Some(userId) || IsPrivileged(userRole))
    ensures item == NoOwnerAttr ==> r == Fail(ValueError(resourceName + " does not have user_id attribute"))
    ensures item.OwnerAttr? && r.Fail? ==> r.error == Forbidden
  {
    match item
    case NoOwnerAttr => Fail(ValueError(resourceName + " does not have user_id attribute"))
    case OwnerAttr(owner) =>
      var isOwner := owner == Some(userId);
      if !(isOwner || IsPrivileged(userRole)) then Fail(Forbidden) else Pass
  }

  /** _verify_moderator: passes iff the role is "moderator" or "admin". */
  function VerifyModerator(userRole: string): (r: Outcome)
    ensures r == Pass <==> IsPrivileged(userRole)
    ensures r.Fail? ==> r.error == Forbidden
  {
    if !IsPrivileged(userRole) then Fail(Forbidden) else Pass
  }

  /** Of the three roles, only "user" is refused by the moderator check. */
  lemma ModeratorRoles(role: UserSchemas.UserRole)
    ensures VerifyModerator(UserSchemas.RoleName(role)) == Pass <==> role != UserSchemas.User
  {
    assert "user" != "moderator" && "user" != "admin";
  }

  /**
   * An item whose user_id is NULL is owned by nobody: the ownership check
   * fails for every caller, and only a moderator or an admin passes the
   * moderator-or-owner check.
   */
  lemma OrphanedItem(userId: int, userRole: string, resourceName: string)
    ensures VerifyOwnership(OwnerAttr(None), userId, resourceName) == Fail(Forbidden)
    ensures VerifyModeratorOrOwner(OwnerAttr(None), userId, userRole, resourceName) == Pass <==> IsPrivileged(userRole)
  {
  }

  /** The owner passes the weaker check whatever their role. */
  lemma OwnerPassesBoth(owner: int, userRole: string, resourceName: string)
    ensures VerifyOwnership(OwnerAttr(Some(owner)), owner, resourceName) == Pass
    ensures VerifyModeratorOrOwner(OwnerAttr(Some(owner)), owner, userRole, resourceName) == Pass
  {
  }
}
