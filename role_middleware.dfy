/**
 * The admin gate that the user routes run after authentication. It either answers the request
 * itself or hands it on to the next handler.
 */
module RoleMiddleware {
  import opened Wrappers
  import opened Entities

  /** What the gate does with a request: answer it with an error, or call `next()`. */
  datatype GateDecision = Reject(status: int, message: string) | Next

  /**
   * `restrictToAdmin`: 401 when authentication left no user on the request, 403 for a user who
   * is not an admin, and `next()` for an admin. The missing-user check comes first.
   */
  function RestrictToAdmin(user: Option<Principal>): (d: GateDecision)
    ensures user.None? <==> d == Reject(401, "Not authenticated")
    ensures user.Some? && user.value.role != AdminRole <==>
      d == Reject(403, "Access denied. Admin privileges required.")
    ensures d.Next? <==> user.Some? && user.value.role == AdminRole
  {
    if user.None? then
      Reject(401, "Not authenticated")
    else if user.value.role != AdminRole then
      Reject(403, "Access denied. Admin privileges required.")
    else
      Next
  }

  /** Every request the gate passes on carries an administrator: the user handlers may rely on it. */
  lemma PassedRequestsAreAdmin(user: Option<Principal>)
    requires RestrictToAdmin(user) == Next
    ensures user.Some? && user.value.role == AdminRole
  {
  }
}
