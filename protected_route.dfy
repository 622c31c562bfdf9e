/** The client-side route guard: an unauthenticated visitor, or a user whose
    role the route does not list, is sent to the login page; everyone else
    sees the page.
    Line numbers in the comments below refer to frontend/src/components/ProtectedRoute.jsx. */
module ProtectedRoute {
  import opened Wrappers

  datatype Decision = RedirectToLogin | RenderChildren

  /** Lines 4-16; `allowedRoles` defaults to the empty list, and `userRole` is `None` when
      no role is stored. */
  function Guard(authenticated: bool, userRole: Option<string>, allowedRoles: seq<string>): (d: Decision)
    ensures !authenticated ==> d == RedirectToLogin
    ensures d == RenderChildren <==>
      (authenticated && (|allowedRoles| == 0 || (userRole.Some? && userRole.value in allowedRoles)))
  {
    if !authenticated then RedirectToLogin
    else if |allowedRoles| > 0 && !(userRole.Some? && userRole.value in allowedRoles) then RedirectToLogin
    else RenderChildren
  }

  /** Listing more roles never shuts out someone a shorter non-empty list let in, and an
      unrestricted route lets in every signed-in user, with or without a role. */
  lemma GuardFacts(authenticated: bool, userRole: Option<string>, allowed: seq<string>, more: seq<string>)
    ensures Guard(authenticated, userRole, allowed) == RenderChildren && |allowed| > 0 ==>
      Guard(authenticated, userRole, allowed + more) == RenderChildren
    ensures authenticated ==> Guard(authenticated, userRole, []) == RenderChildren
    ensures Guard(authenticated, None, allowed) == RenderChildren ==> |allowed| == 0
  {
  }
}
