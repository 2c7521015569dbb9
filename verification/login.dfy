/** The login page (src/app/login/page.tsx): a username, a password and a role checked
    against a fixed table of demo accounts, with the route a successful login takes. */
module Login {
  import opened Wrappers

  datatype Credentials = Credentials(username: string, password: string, role: string)

  /** The demo account table, keyed by role. */
  function DemoCredentials(role: string): (r: Option<Credentials>)
    ensures r.Some? <==> role == "admin" || role == "teacher" || role == "student"
    ensures r.Some? ==> r.value.role == role && r.value.username == role && r.value.password == role + "123"
  {
    if role == "admin" then Some(Credentials("admin", "admin123", "admin"))
    else if role == "teacher" then Some(Credentials("teacher", "teacher123", "teacher"))
    else if role == "student" then Some(Credentials("student", "student123", "student"))
    else None
  }

  /** The login form's three fields. */
  datatype LoginForm = LoginForm(username: string, password: string, role: string)

  datatype Outcome =
    | MissingFields          // 'Please fill in all fields'
    | InvalidCredentials     // 'Invalid credentials'
    | LoggedIn(route: string)

  /** The page a role lands on: /admin, /teacher, and /student for anything else. */
  function RouteFor(role: string): string
  {
    if role == "admin" then "/admin" else if role == "teacher" then "/teacher" else "/student"
  }

  /** `handleSubmit`: an empty field is refused; otherwise the login succeeds exactly when
      the role has an account whose username and password both match, and then routes
      to that role's page. */
  function Submit(f: LoginForm): (r: Outcome)
    ensures r == MissingFields <==> f.username == "" || f.password == "" || f.role == ""
    ensures r.LoggedIn? <==> && f.username != "" && f.password != ""
                             && DemoCredentials(f.role).Some?
                             && f.username == DemoCredentials(f.role).value.username
                             && f.password == DemoCredentials(f.role).value.password
    ensures DemoCredentials(f.role).None? ==> !r.LoggedIn?
  {
    if f.username == "" || f.password == "" || f.role == "" then MissingFields
    else
      match DemoCredentials(f.role)
      case Some(c) =>
        if f.username == c.username && f.password == c.password then LoggedIn(RouteFor(f.role))
        else InvalidCredentials
      case None => InvalidCredentials
  }

  /** Every successful login routes to "/" followed by the role. */
  lemma RouteIsSlashRole(f: LoginForm)
    requires Submit(f).LoggedIn?
    ensures Submit(f).route == "/" + f.role
  {
  }

  /** `fillDemoCredentials`: a role with an account fills all three fields from it; any
      other role leaves the form alone. */
  function FillDemo(f: LoginForm, role: string): (r: LoginForm)
    ensures DemoCredentials(role).None? ==> r == f
    ensures DemoCredentials(role).Some? ==>
              r.username == DemoCredentials(role).value.username
              && r.password == DemoCredentials(role).value.password
              && r.role == role
  {
    match DemoCredentials(role)
    case Some(c) => LoginForm(c.username, c.password, role)
    case None => f
  }

  /** The demo buttons always produce a form that logs in, to the role's own page. */
  lemma FillDemoLogsIn(f: LoginForm, role: string)
    requires DemoCredentials(role).Some?
    ensures Submit(FillDemo(f, role)) == LoggedIn("/" + role)
  {
  }
}
