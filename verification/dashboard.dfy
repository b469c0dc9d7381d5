/** The student dashboard of student.js: what it shows for the tab's session,
    where its buttons lead, and the logout that ends the session. */
module Dashboard {
  import opened Options
  import opened Text
  import opened Email
  import opened Login

  /** What the dashboard does when it loads: go back to the login page, or
      show the student's name and identifier. */
  datatype View = RedirectToLogin | ShowStudent(name: string, studentId: string)

  const JohnId := "STU001"
  const JaneId := "STU002"

  /** `extractStudentId`. `None` stands for a missing e-mail; like the empty
      string, it is falsy and skips both tests. */
  function ExtractStudentId(email: Option<string>): (id: string)
    ensures id == JohnId || id == JaneId
    ensures id == JaneId <==>
      email.Some? && !Contains(email.value, "john.smith") && Contains(email.value, "jane.doe")
  {
    if email.Some? && email.value != [] && Contains(email.value, "john.smith") then JohnId
    else if email.Some? && email.value != [] && Contains(email.value, "jane.doe") then JaneId
    else JohnId
  }

  /** The identifier is never empty, so the `|| 'STU001'` default of the
      caller never takes effect. */
  lemma StudentIdNeverEmpty(email: Option<string>)
    ensures ExtractStudentId(email) != []
    ensures (if ExtractStudentId(email) != [] then ExtractStudentId(email) else JohnId) == ExtractStudentId(email)
  {
  }

  /** An e-mail containing "john.smith" is STU001 whatever else it
      contains, and one without either name is STU001 too. */
  lemma JohnSmithFirst(e: string)
    ensures Contains(e, "john.smith") ==> ExtractStudentId(Some(e)) == JohnId
    ensures !Contains(e, "john.smith") && !Contains(e, "jane.doe") ==> ExtractStudentId(Some(e)) == JohnId
    ensures ExtractStudentId(None) == JohnId
  {
  }

  /** `initializeUserInfo`: without a stored session the page goes back to
      the login page; with one it shows the session's full name, or
      "Student" when that is empty, and the identifier derived from the
      session's e-mail. */
  function InitializeUserInfo(session: map<string, Session>): (v: View)
    ensures v.RedirectToLogin? <==> SessionKey !in session
    ensures v.ShowStudent? ==> v.name != []
    ensures v.ShowStudent? && session[SessionKey].fullName != [] ==> v.name == session[SessionKey].fullName
    ensures v.ShowStudent? && session[SessionKey].fullName == [] ==> v.name == "Student"
    ensures v.ShowStudent? ==> v.studentId == ExtractStudentId(Some(session[SessionKey].email))
  {
    if SessionKey in session then
      var s := session[SessionKey];
      var name := if s.fullName != [] then s.fullName else "Student";
      var id := ExtractStudentId(Some(s.email));
      StudentIdNeverEmpty(Some(s.email));
      ShowStudent(name, if id != [] then id else JohnId)
    else
      RedirectToLogin
  }

  /** A successful login leads to a dashboard that shows the account's full
      name (or "Student") and the identifier derived from the lookup key. */
  lemma LoginThenDashboard(p: Portal, raw: string, password: string, now: string)
    requires HandleLogin(p, raw, password, now).outcome.Welcome?
    ensures
      var s := HandleLogin(p, raw, password, now);
      var u := p.users[Normalize(raw)];
      && InitializeUserInfo(s.portal.session)
         == ShowStudent(if u.fullName != [] then u.fullName else "Student", ExtractStudentId(Some(Normalize(raw))))
  {
    var s := HandleLogin(p, raw, password, now);
    assert s.portal.session[SessionKey] == s.outcome.session;
  }

  /** The fixed notices the buttons raise instead of navigating. */
  datatype Notice = Transcript | TuitionPayment | SupportCenter | CourseList | MessageInbox

  /** What a button press does: open the course catalogue, raise a notice,
      or only log the button's text. */
  datatype Action = GoToCatalog | Alert(notice: Notice) | LogOnly(text: string)

  const QuickActionLabels: set<string> :=
    {"Register for Courses", "Download Transcript", "Pay Tuition", "Contact Support"}

  const ViewAllLabels: set<string> := {"Browse Catalog", "View All", "Inbox"}

  /** `handleQuickAction`: the switch on a quick-action button's text. */
  function HandleQuickAction(text: string): (a: Action)
    ensures a == GoToCatalog <==> text == "Register for Courses"
    ensures a == Alert(Transcript) <==> text == "Download Transcript"
    ensures a == Alert(TuitionPayment) <==> text == "Pay Tuition"
    ensures a == Alert(SupportCenter) <==> text == "Contact Support"
    ensures a.LogOnly? <==> text !in QuickActionLabels
    ensures a.LogOnly? ==> a.text == text
  {
    match text
    case "Register for Courses" => GoToCatalog
    case "Download Transcript" => Alert(Transcript)
    case "Pay Tuition" => Alert(TuitionPayment)
    case "Contact Support" => Alert(SupportCenter)
    case _ => LogOnly(text)
  }

  /** `handleViewAll`: the switch on a "view all" button's text. */
  function HandleViewAll(text: string): (a: Action)
    ensures a == GoToCatalog <==> text == "Browse Catalog"
    ensures a == Alert(CourseList) <==> text == "View All"
    ensures a == Alert(MessageInbox) <==> text == "Inbox"
    ensures a.LogOnly? <==> text !in ViewAllLabels
    ensures a.LogOnly? ==> a.text == text
  {
    match text
    case "Browse Catalog" => GoToCatalog
    case "View All" => Alert(CourseList)
    case "Inbox" => Alert(MessageInbox)
    case _ => LogOnly(text)
  }

  /** Distinct quick-action labels do distinct things, and the two tables
      never raise the same notice. */
  lemma DispatchTablesSeparate(a: string, b: string)
    ensures a in QuickActionLabels && b in QuickActionLabels && a != b ==> HandleQuickAction(a) != HandleQuickAction(b)
    ensures a in ViewAllLabels && b in ViewAllLabels && a != b ==> HandleViewAll(a) != HandleViewAll(b)
    ensures HandleQuickAction(a).Alert? && HandleViewAll(b).Alert? ==>
      HandleQuickAction(a).notice != HandleViewAll(b).notice
  {
  }

  /** The two browser stores after `logout`, and whether it went back to the
      login page. */
  datatype Stores = Stores(session: map<string, Session>, local: map<string, string>, toLogin: bool)

  /** `logout`: when confirmed, forget the session and the remembered e-mail
      and go to the login page; otherwise do nothing. */
  function Logout(confirmed: bool, session: map<string, Session>, local: map<string, string>): (r: Stores)
    ensures r.toLogin == confirmed
    ensures !confirmed ==> r.session == session && r.local == local
    ensures confirmed ==> SessionKey !in r.session && RememberKey !in r.local
    ensures forall k :: k != SessionKey ==> (k in r.session <==> k in session) && (k in r.session ==> r.session[k] == session[k])
    ensures forall k :: k != RememberKey ==> (k in r.local <==> k in local) && (k in r.local ==> r.local[k] == local[k])
  {
    if confirmed then Stores(session - {SessionKey}, local - {RememberKey}, true)
    else Stores(session, local, false)
  }

  /** After a confirmed logout the dashboard sends the user back to the
      login page and the login page pre-fills nothing. */
  lemma LogoutEndsSession(session: map<string, Session>, local: map<string, string>)
    ensures InitializeUserInfo(Logout(true, session, local).session) == RedirectToLogin
    ensures SavedEmail(Logout(true, session, local).local) == None
    ensures Logout(true, Logout(true, session, local).session, Logout(true, session, local).local)
      == Logout(true, session, local)
  {
  }
}
