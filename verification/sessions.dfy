/**
 The per-browser session of the dashboard: `st.session_state["usuario"]`
 holds either nothing or the tuple the login query returned, and the role
 in that tuple selects which table the dashboard shows.
 */
module Sessions {
  import opened Tables
  import opened Schema
  import opened Queries

  /** No identity (the key is absent or holds None), or a signed-in user. */
  datatype Session = Anonymous | SignedIn(user: AuthRow)

  /** Pressing "Iniciar sesión". The login form is only rendered for an
      anonymous session, so a signed-in session is left as it is. A failed
      attempt stays anonymous; a successful one stores the login tuple. */
  function Login(s: Session, users: Table<User>, username: string, password: string): (r: Session)
    ensures s.SignedIn? ==> r == s
    ensures s.Anonymous? ==>
      (r.SignedIn? <==>
        exists i :: 0 <= i < |users.rows| && users.rows[i].data.username == username
          && users.rows[i].data.password == password)
    ensures s.Anonymous? && r.SignedIn? ==>
      exists i :: 0 <= i < |users.rows| && users.rows[i].data.username == username
        && users.rows[i].data.password == password
        && r.user == AuthRow(users.rows[i].id, users.rows[i].data.role, users.rows[i].data.facilityId)
  {
    if s.SignedIn? then s
    else
      match Authenticate(users, username, password)
      case None => Anonymous
      case Some(a) => SignedIn(a)
  }

  /** Pressing "Cerrar sesión": the key is deleted, whatever it held. */
  function Logout(s: Session): (r: Session)
    ensures r.Anonymous?
  {
    Anonymous
  }

  /** What the main area shows for a session: the clinician's listing of
      the session's facility, the supervisor's global listing, or neither
      (anonymous, or a role that is neither "obstetra" nor "jefe"). */
  datatype Panel =
    | NoPanel
    | ClinicianPanel(tests: seq<Row<PapTest>>)
    | SupervisorPanel(rows: seq<JoinedTest>)

  /** The role gate: only an "obstetra" sees the per-facility listing, only
      a "jefe" sees the global one. A clinician's listing holds only tests
      of the clinician's own facility; the supervisor's holds every test
      whose facility exists, whichever facility that is. */
  function PanelFor(s: Session, db: Db): (p: Panel)
    ensures p.ClinicianPanel? <==> s.SignedIn? && s.user.role == "obstetra"
    ensures p.SupervisorPanel? <==> s.SignedIn? && s.user.role == "jefe"
    ensures p.ClinicianPanel? ==>
      forall k :: 0 <= k < |p.tests| ==> SqlEq(p.tests[k].data.facilityId, s.user.facilityId)
    ensures p.SupervisorPanel? ==>
      forall i, j ::
        (0 <= i < |db.tests.rows| && 0 <= j < |db.facilities.rows|
         && SqlEq(db.tests.rows[i].data.facilityId, Some(db.facilities.rows[j].id))) ==>
        JoinedTest(db.facilities.rows[j].data.name, db.tests.rows[i]) in p.rows
  {
    match s
    case Anonymous => NoPanel
    case SignedIn(u) =>
      if u.role == "obstetra" then ClinicianPanel(FacilityListing(db.tests, u.facilityId))
      else if u.role == "jefe" then SupervisorPanel(GlobalListing(db.tests.rows, db.facilities.rows))
      else NoPanel
  }
}
