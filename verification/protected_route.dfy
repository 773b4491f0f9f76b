/** The route guard of the operator application
    (src/components/ProtectedRoute.tsx): what a protected page shows, given
    the state `useAuth` reports and the role the route asks for. */
module ProtectedRoute {

  import opened Common

  /** The `requiredRole` of a route. */
  datatype Role = Admin | Operator

  /** What `useAuth` reports: whether the session is still being read,
      whether someone is signed in, and that user's roles. */
  datatype AuthState = AuthState(loading: bool, signedIn: bool, isAdmin: bool, isOperator: bool)

  /** What the guard renders: the loading spinner, a redirect, or the page. */
  datatype View = Spinner | Redirect(to: string) | Children

  const LOGIN_PATH: string := "/login"
  const HOME_PATH: string := "/"

  /** The roles that open a route: any signed-in user when none is
      required, administrators for an administrator route, and operators
      or administrators for an operator route. */
  predicate Permits(required: Option<Role>, isAdmin: bool, isOperator: bool)
  {
    match required
    case None => true
    case Some(Admin) => isAdmin
    case Some(Operator) => isOperator || isAdmin
  }

  /** The decision `ProtectedRoute` makes, check by check in the order of
      the component. */
  function Guard(auth: AuthState, required: Option<Role>): (v: View)
    ensures v == Spinner <==> auth.loading
    ensures v == Redirect(LOGIN_PATH) <==> !auth.loading && !auth.signedIn
    ensures v == Children <==> !auth.loading && auth.signedIn && Permits(required, auth.isAdmin, auth.isOperator)
    ensures v.Redirect? ==> v.to == LOGIN_PATH || v.to == HOME_PATH
    ensures v == Redirect(HOME_PATH) <==> !auth.loading && auth.signedIn && !Permits(required, auth.isAdmin, auth.isOperator)
  {
    if auth.loading then Spinner
    else if !auth.signedIn then Redirect(LOGIN_PATH)
    else if required == Some(Admin) && !auth.isAdmin then Redirect(HOME_PATH)
    else if required == Some(Operator) && !auth.isOperator && !auth.isAdmin then Redirect(HOME_PATH)
    else
      assert required.None? || required.value.Admin? || required.value.Operator?;
      Children
  }

  /** An administrator passes every guard once the session is read. */
  lemma AdminPassesEveryGuard(auth: AuthState, required: Option<Role>)
    requires !auth.loading && auth.signedIn && auth.isAdmin
    ensures Guard(auth, required) == Children
  {
  }

  /** Gaining a role never closes a route that was open. */
  lemma GuardMonotone(auth: AuthState, more: AuthState, required: Option<Role>)
    requires more.loading == auth.loading && more.signedIn == auth.signedIn
    requires auth.isAdmin ==> more.isAdmin
    requires auth.isOperator ==> more.isOperator
    ensures Guard(auth, required) == Children ==> Guard(more, required) == Children
  {
  }

  /** An administrator route is at least as strict as an operator route,
      which is at least as strict as a route without a role. */
  lemma StricterRoles(auth: AuthState)
    ensures Guard(auth, Some(Admin)) == Children ==> Guard(auth, Some(Operator)) == Children
    ensures Guard(auth, Some(Operator)) == Children ==> Guard(auth, None) == Children
  {
  }
}
