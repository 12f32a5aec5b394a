/** The role gate (src/utils/roles/redirectUser.ts) that the parent, tutor
    and admin landing pages, the admin matching page and the student and
    tutor lessons and schedule pages run before rendering. The session's access token and the
    `user_role` claim decoded from it are inputs; the redirect that Next.js
    performs by throwing is a returned outcome. */
module RoleRedirect {
  import opened Types

  datatype Outcome = NoRedirect | RedirectTo(path: string)

  const LoginPrompt: string := "/login?message=Please login to access this page"

  /** The landing page of a role; administrators have none in this gate. */
  function HomePath(r: Role): Option<string> {
    match r
    case Student => Some("/student")
    case Parent => Some("/parent")
    case Tutor => Some("/tutor")
    case Admin => None
  }

  /** `redirectUser(roles)`: no token lets the page render; a token without a
      role claim goes to the login prompt; an allowed role renders; a role
      that is not allowed goes to its own landing page when it has one and
      otherwise renders. */
  function RedirectUser(accessToken: Option<string>, userRole: Option<string>, roles: seq<string>): (o: Outcome)
    ensures !Truthy(accessToken) ==> o == NoRedirect
    ensures Truthy(accessToken) && !Truthy(userRole) ==> o == RedirectTo(LoginPrompt)
    ensures Truthy(accessToken) && Truthy(userRole) && userRole.value in roles ==> o == NoRedirect
    ensures Truthy(accessToken) && Truthy(userRole) && userRole.value !in roles ==>
      forall r :: RoleName(r) == userRole.value ==>
        o == (if HomePath(r).Some? then RedirectTo(HomePath(r).value) else NoRedirect)
    ensures Truthy(userRole) && ParseRole(userRole.value).None? ==> o == NoRedirect
  {
    if Truthy(accessToken) then
      if !Truthy(userRole) then RedirectTo(LoginPrompt)
      else if userRole.value !in roles then
        if userRole.value == "student" then RedirectTo("/student")
        else if userRole.value == "parent" then RedirectTo("/parent")
        else if userRole.value == "tutor" then RedirectTo("/tutor")
        else NoRedirect
      else NoRedirect
    else NoRedirect
  }

  /** Every redirect goes to the login prompt or to a role's landing page, and
      the login prompt is chosen exactly when the token carries no role. */
  lemma RedirectTargets(accessToken: Option<string>, userRole: Option<string>, roles: seq<string>)
    ensures var o := RedirectUser(accessToken, userRole, roles);
      && (o == RedirectTo(LoginPrompt) <==> Truthy(accessToken) && !Truthy(userRole))
      && (o.RedirectTo? && o.path != LoginPrompt ==>
            userRole.Some? && ParseRole(userRole.value).Some?
            && HomePath(ParseRole(userRole.value).value) == Some(o.path)
            && userRole.value !in roles)
  {
    var o := RedirectUser(accessToken, userRole, roles);
    if o.RedirectTo? && o.path != LoginPrompt {
      assert userRole.value in {"student", "parent", "tutor"};
    }
  }

  /** With no role allowed, every role but `admin` is sent to its landing page. */
  lemma EmptyListSendsHome(accessToken: Option<string>, r: Role)
    requires Truthy(accessToken)
    ensures RedirectUser(accessToken, Some(RoleName(r)), []) ==
      if r == Admin then NoRedirect else RedirectTo(HomePath(r).value)
  {
  }

  /** An administrator is never redirected, whatever the allowed list. */
  lemma AdminFallsThrough(accessToken: Option<string>, roles: seq<string>)
    ensures RedirectUser(accessToken, Some("admin"), roles) == NoRedirect
  {
  }

  /** A redirect to a landing page ends there when that page runs the gate
      with only its own role allowed (the parent, tutor and admin landing
      pages do): the same session renders. */
  lemma LandingPageAdmits(accessToken: Option<string>, userRole: Option<string>, roles: seq<string>, r: Role)
    requires HomePath(r).Some?
    requires RedirectUser(accessToken, userRole, roles) == RedirectTo(HomePath(r).value)
    ensures RedirectUser(accessToken, userRole, [RoleName(r)]) == NoRedirect
  {
    RedirectTargets(accessToken, userRole, roles);
    var s := ParseRole(userRole.value).value;
    assert HomePath(s) == HomePath(r);
    assert s == r;
  }
}
