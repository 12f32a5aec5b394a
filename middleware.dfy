/** The request gate in front of every page (`updateSession` in
    src/utils/supabase/middleware.ts): a redirect decision over the request
    path and whether the auth service knows the user. Cookie refreshing and the
    client construction around it are not part of this model. */
module Middleware {

  /** A query string as URLSearchParams holds it: name/value pairs in order. */
  type Query = seq<(string, string)>

  datatype Request = Request(path: string, query: Query)

  /** The answer of `auth.getUser()`: it either threw, or came back with or
      without a user (an error it returns is only logged). */
  datatype AuthAnswer = AuthThrew | AuthAnswered(hasUser: bool)

  datatype Response = PassThrough | Redirect(path: string, query: Query)

  const LoginMessage: string := "Please login to access this page"

  /** `s.startsWith(prefix)`. */
  predicate StartsWith(s: string, prefix: string) {
    prefix <= s
  }

  /** The paths listed as public; the gate computes this and only logs it. */
  predicate IsPublicPath(path: string)
    ensures IsPublicPath(path) ==> |path| >= 5 && path[0] == '/'
  {
    || StartsWith(path, "/login")
    || StartsWith(path, "/signup")
    || StartsWith(path, "/auth")
    || StartsWith(path, "/error")
    || StartsWith(path, "/favicon.ico")
  }

  /** The home page and everything whose path starts with a role area or
      `/private`; a raw prefix test. */
  predicate IsProtectedPath(path: string)
    ensures IsProtectedPath(path) ==> |path| >= 1 && path[0] == '/'
    ensures IsProtectedPath(path) && path != "/" ==> |path| >= 6
  {
    || path == "/"
    || StartsWith(path, "/student")
    || StartsWith(path, "/tutor")
    || StartsWith(path, "/parent")
    || StartsWith(path, "/admin")
    || StartsWith(path, "/private")
  }

  /** The query without any pair named `name`, order kept. */
  function Without(q: Query, name: string): (r: Query)
    ensures forall i :: 0 <= i < |r| ==> r[i].0 != name
    ensures forall p :: p in r <==> p in q && p.0 != name
    ensures |r| <= |q|
  {
    if q == [] then []
    else if q[0].0 == name then Without(q[1..], name)
    else [q[0]] + Without(q[1..], name)
  }

  /** The pairs named `name`, order kept. */
  function Named(q: Query, name: string): (r: Query)
    ensures forall i :: 0 <= i < |r| ==> r[i].0 == name
  {
    if q == [] then []
    else if q[0].0 == name then [q[0]] + Named(q[1..], name)
    else Named(q[1..], name)
  }

  /** How `Without` and `Named` see a query with a pair in front. */
  lemma SplitFront(p: (string, string), t: Query, name: string)
    ensures Without([p] + t, name) == if p.0 == name then Without(t, name) else [p] + Without(t, name)
    ensures Named([p] + t, name) == if p.0 == name then [p] + Named(t, name) else Named(t, name)
  {
    assert ([p] + t)[0] == p;
    assert ([p] + t)[1..] == t;
  }

  /** A query without `name` has no pair named `name` to find. */
  lemma {:induction false} NamedOfWithout(q: Query, name: string)
    ensures Without(Without(q, name), name) == Without(q, name)
    ensures Named(Without(q, name), name) == []
  {
    if q != [] {
      NamedOfWithout(q[1..], name);
      if q[0].0 != name {
        SplitFront(q[0], Without(q[1..], name), name);
      }
    }
  }

  /** `searchParams.set(name, value)`: the first pair named `name` takes the
      new value and the others named `name` are removed; with none, the pair
      is appended. */
  function SetParam(q: Query, name: string, value: string): (r: Query)
    ensures |r| <= |q| + 1
    ensures (name, value) in r
  {
    if q == [] then [(name, value)]
    else if q[0].0 == name then [(name, value)] + Without(q[1..], name)
    else [q[0]] + SetParam(q[1..], name, value)
  }

  /** After `set`, the parameter occurs exactly once, with the new value, and
      every other pair is kept in its order. */
  lemma {:induction false} SetParamEffect(q: Query, name: string, value: string)
    ensures Named(SetParam(q, name, value), name) == [(name, value)]
    ensures Without(SetParam(q, name, value), name) == Without(q, name)
  {
    if q == [] {
      SplitFront((name, value), [], name);
    } else if q[0].0 == name {
      SplitFront((name, value), Without(q[1..], name), name);
      NamedOfWithout(q[1..], name);
    } else {
      SetParamEffect(q[1..], name, value);
      SplitFront(q[0], SetParam(q[1..], name, value), name);
    }
  }

  /** `set` puts the new pair where the first pair named `name` stood: the
      pairs before it are kept as they are. */
  lemma {:induction false} SetParamReplacesFirst(q: Query, name: string, value: string, i: nat)
    requires i < |q| && q[i].0 == name
    requires forall j :: 0 <= j < i ==> q[j].0 != name
    ensures i < |SetParam(q, name, value)|
    ensures SetParam(q, name, value)[..i + 1] == q[..i] + [(name, value)]
  {
    if i > 0 {
      SetParamReplacesFirst(q[1..], name, value, i - 1);
      var rest := SetParam(q[1..], name, value);
      assert SetParam(q, name, value) == [q[0]] + rest;
      assert ([q[0]] + rest)[..i + 1] == [q[0]] + rest[..i];
      assert q[..i] == [q[0]] + q[1..][..i - 1];
    }
  }

  /** Without a pair named `name`, `set` appends the new pair. */
  lemma {:induction false} SetParamAppends(q: Query, name: string, value: string)
    requires forall j :: 0 <= j < |q| ==> q[j].0 != name
    ensures SetParam(q, name, value) == q + [(name, value)]
  {
    if q != [] {
      SetParamAppends(q[1..], name, value);
      assert q == [q[0]] + q[1..];
    }
  }

  /** A path that differs from `prefix` at position `i` does not start with it. */
  lemma DiffersAt(s: string, prefix: string, i: nat)
    requires i < |prefix| && i < |s| && s[i] != prefix[i]
    ensures !StartsWith(s, prefix)
  {
  }

  /** `updateSession`: a request without a user for a protected path goes to
      `/login` with the login message set; a request with a user for exactly
      `/login` or `/signup` goes to `/` with its query; every other request,
      and every request whose auth check threw, passes through. */
  function UpdateSession(req: Request, auth: AuthAnswer): (resp: Response)
    ensures auth.AuthThrew? ==> resp == PassThrough
    ensures auth.AuthAnswered? && !auth.hasUser && IsProtectedPath(req.path) ==>
      resp == Redirect("/login", SetParam(req.query, "message", LoginMessage))
    ensures auth.AuthAnswered? && auth.hasUser && (req.path == "/login" || req.path == "/signup") ==>
      resp == Redirect("/", req.query)
    ensures resp.PassThrough? <==>
      auth.AuthThrew?
      || (auth.AuthAnswered? && !auth.hasUser && !IsProtectedPath(req.path))
      || (auth.AuthAnswered? && auth.hasUser && req.path != "/login" && req.path != "/signup")
  {
    match auth
    case AuthThrew => PassThrough
    case AuthAnswered(hasUser) =>
      if !hasUser && IsProtectedPath(req.path) then
        Redirect("/login", SetParam(req.query, "message", LoginMessage))
      else if hasUser && (req.path == "/login" || req.path == "/signup") then
        Redirect("/", req.query)
      else PassThrough
  }

  /** No path is both public and protected. */
  lemma PublicNotProtected(path: string)
    requires IsPublicPath(path)
    ensures !IsProtectedPath(path)
  {
    assert |path| >= 2 && path[0] == '/';
    assert path[1] in {'l', 's', 'a', 'e', 'f'};
    if path[1] == 's' {
      assert StartsWith(path, "/signup");
      assert path[2] == 'i';
    } else if path[1] == 'a' {
      assert StartsWith(path, "/auth");
      assert path[2] == 'u';
    }
  }

  /** The login page is not protected. */
  lemma LoginNotProtected()
    ensures !IsProtectedPath("/login")
  {
    DiffersAt("/login", "/tutor", 1);
    DiffersAt("/login", "/admin", 1);
  }

  /** The gate never redirects to a page that it would redirect again: the login
      page without a user and the home page with a user both pass through. */
  lemma NoRedirectLoop(req: Request, hasUser: bool)
    requires UpdateSession(req, AuthAnswered(hasUser)).Redirect?
    ensures var resp := UpdateSession(req, AuthAnswered(hasUser));
      UpdateSession(Request(resp.path, resp.query), AuthAnswered(hasUser)) == PassThrough
  {
    if !hasUser {
      LoginNotProtected();
    }
  }

  /** The prefix test counts `/students` as protected; the equality test lets a
      signed-in user through to `/login/`. */
  lemma PrefixAndEqualityTests()
    ensures IsProtectedPath("/students")
    ensures !IsProtectedPath("/login")
    ensures UpdateSession(Request("/students", []), AuthAnswered(false)) == Redirect("/login", [("message", LoginMessage)])
    ensures UpdateSession(Request("/login/", []), AuthAnswered(true)) == PassThrough
    ensures UpdateSession(Request("/signup", [("next", "/tutor")]), AuthAnswered(true)) == Redirect("/", [("next", "/tutor")])
  {
    assert StartsWith("/students", "/student");
    LoginNotProtected();
  }

  /** Being on the public list decides nothing: a public path is redirected for
      a signed-in user, and a path off the list passes without one. */
  lemma PublicListIgnored()
    ensures IsPublicPath("/login") && UpdateSession(Request("/login", []), AuthAnswered(true)).Redirect?
    ensures !IsPublicPath("/pricing") && UpdateSession(Request("/pricing", []), AuthAnswered(false)) == PassThrough
  {
    assert StartsWith("/login", "/login");
    DiffersAt("/pricing", "/student", 1);
    DiffersAt("/pricing", "/tutor", 1);
    DiffersAt("/pricing", "/parent", 2);
    DiffersAt("/pricing", "/admin", 1);
    DiffersAt("/pricing", "/private", 4);
    DiffersAt("/pricing", "/login", 1);
    DiffersAt("/pricing", "/signup", 1);
    DiffersAt("/pricing", "/auth", 1);
    DiffersAt("/pricing", "/error", 1);
  }
}
