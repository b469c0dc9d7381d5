/** The login gate of Login.js: a fixed directory of user records keyed by
    e-mail, one login attempt as a pure step over that directory and the tab's
    session storage, and the small helpers around it (landing page per role,
    "remember me", the development reset). */
module Login {
  import opened Options
  import opened Text
  import opened Email

  /** One account. `role` is kept as the text the source stores and
      switches on. */
  datatype UserRecord = UserRecord(
    password: string,
    role: string,
    fullName: string,
    email: string,
    attempts: nat,
    locked: bool)

  /** The user table, keyed by lower-case e-mail. */
  type Directory = map<string, UserRecord>

  /** Failed attempts allowed before an account locks. */
  const MaxAttempts: nat := 3

  /** What a successful login writes under `SessionKey`; `loginTime` is the
      caller's clock reading, taken as opaque text. */
  datatype Session = Session(email: string, role: string, fullName: string, loginTime: string)

  const SessionKey := "userSession"
  const RememberKey := "rememberedEmail"

  /** Every record has at most `MaxAttempts` failures, and it is locked
      exactly when it has reached that many. */
  predicate AttemptsConsistent(users: Directory) {
    forall k :: k in users ==>
      users[k].attempts <= MaxAttempts && (users[k].locked <==> users[k].attempts == MaxAttempts)
  }

  function FreshRecord(password: string, role: string, fullName: string, email: string): UserRecord {
    UserRecord(password, role, fullName, email, 0, false)
  }

  const John := "john.smith@boolean.edu"
  const Sarah := "sarah.johnson@boolean.edu"
  const Michael := "michael.brown@boolean.edu"

  /** The three accounts the login gate starts with, each unlocked with no
      failures and filed under its own e-mail. */
  function SeedDirectory(): (users: Directory)
    ensures users.Keys == {John, Sarah, Michael} && |users.Keys| == 3
    ensures AttemptsConsistent(users)
    ensures forall k :: k in users ==> users[k].email == k && users[k].attempts == 0 && !users[k].locked
  {
    SeedKeysDistinct();
    map[
      John := FreshRecord("student123", "Student", "John Smith", John),
      Sarah := FreshRecord("faculty123", "Faculty", "Dr. Sarah Johnson", Sarah),
      Michael := FreshRecord("admin123", "Administrator", "Michael Brown", Michael)
    ]
  }

  lemma SeedKeysDistinct()
    ensures John != Sarah && Sarah != Michael && John != Michael
    ensures |{John, Sarah, Michael}| == 3
  {
    assert John[0] == 'j' && Sarah[0] == 's' && Michael[0] == 'm';
  }

  /** Every seeded key passes the e-mail check and is already in the
      normalised form a lookup uses, so each account can be reached. */
  lemma SeedKeyIsLookupKey(k: string)
    requires k in SeedDirectory()
    ensures IsValidEmail(k) && Normalize(k) == k
  {
    assert k == John || k == Sarah || k == Michael;
    if k == John {
      JohnKey(k);
    } else if k == Sarah {
      SarahKey(k);
    } else {
      MichaelKey(k);
    }
  }

  /** John Smith's seeded record: a student whose password is
      "student123". */
  lemma JohnRecord(k: string)
    requires k == John
    ensures k in SeedDirectory()
    ensures SeedDirectory()[k] == FreshRecord("student123", "Student", "John Smith", k)
  {
    SeedKeysDistinct();
  }

  lemma JohnKey(k: string) requires k == John ensures IsValidEmail(k) && Normalize(k) == k {
    PlainLowerKey(k, "john.smith", "boolean", "edu");
  }

  lemma SarahKey(k: string) requires k == Sarah ensures IsValidEmail(k) && Normalize(k) == k {
    PlainLowerKey(k, "sarah.johnson", "boolean", "edu");
  }

  lemma MichaelKey(k: string) requires k == Michael ensures IsValidEmail(k) && Normalize(k) == k {
    PlainLowerKey(k, "michael.brown", "boolean", "edu");
  }

  /** A lower-case letter or a dot: the only characters of the seeded
      keys besides the `@`. */
  predicate IsKeyChar(c: char) {
    ('a' <= c <= 'z') || c == '.'
  }

  /** A `local@left.right` made of lower-case letters and dots is a valid
      e-mail that normalisation leaves as it is. */
  lemma PlainLowerKey(s: string, local: string, left: string, right: string)
    requires s == local + "@" + left + "." + right
    requires |local| > 0 && |left| > 0 && |right| > 0
    requires forall i :: 0 <= i < |local| ==> IsKeyChar(local[i])
    requires forall i :: 0 <= i < |left| ==> IsKeyChar(left[i])
    requires forall i :: 0 <= i < |right| ==> IsKeyChar(right[i])
    ensures IsValidEmail(s) && Normalize(s) == s
  {
    assert SplitsAsEmail(s, local, left, right);
    ValidEmailIffRegex(s);
    assert s[0] == local[0];
    assert s[|s| - 1] == right[|right| - 1];
    forall i | 0 <= i < |s| ensures !IsUpper(s[i]) {
      if i < |local| {
        assert s[i] == local[i];
      } else if i == |local| {
      } else if i < |local| + 1 + |left| {
        assert s[i] == left[i - |local| - 1];
      } else if i == |local| + 1 + |left| {
      } else {
        assert s[i] == right[i - |local| - 2 - |left|];
      }
    }
    NormalizeFixed(s);
  }

  /** A trimmed string without upper-case letters is its own lookup key. */
  lemma NormalizeFixed(s: string)
    requires IsTrimmed(s)
    requires forall k :: 0 <= k < |s| ==> !IsUpper(s[k])
    ensures Normalize(s) == s
  {
    TrimTrimmed(s);
    assert ToLower(s) == s;
  }

  /** The lookup key for what the user typed: `trim()` then
      `toLowerCase()`. */
  function Normalize(raw: string): string {
    ToLower(Trim(raw))
  }

  /** The lookup key has no white space at either end and no upper-case
      letter, and it is empty exactly when the input is all white space. */
  lemma NormalizeShape(raw: string)
    ensures IsTrimmed(Normalize(raw))
    ensures forall k :: 0 <= k < |Normalize(raw)| ==> !IsUpper(Normalize(raw)[k])
    ensures Normalize(raw) == [] <==> AllWhite(raw)
  {
    TrimShape(raw);
    ToLowerStable(Trim(raw));
  }

  /** Normalising a lookup key again changes nothing. */
  lemma NormalizeIdempotent(raw: string)
    ensures Normalize(Normalize(raw)) == Normalize(raw)
  {
    var key := Normalize(raw);
    NormalizeShape(raw);
    TrimTrimmed(key);
    ToLowerStable(Trim(raw));
  }

  /** The result of one submission of the login form. */
  datatype Outcome =
    | MissingFields             // e-mail empty after trimming, or password empty
    | MalformedEmail            // fails the e-mail shape
    | UnknownUser               // no record under the key
    | AccountLocked             // record already locked: nothing is checked
    | WrongPassword(remaining: nat)  // a failure that leaves the account open
    | LockedOut                 // the failure that locks the account
    | Welcome(session: Session) // correct password on an open account

  /** The text shown to the user for each outcome. Success is told apart
      by its greeting, and the unknown-account and wrong-password failures
      both start with the same sentence. */
  function Message(o: Outcome): (m: string)
    ensures o.Welcome? <==> StartsWith(m, "Welcome back, ")
    ensures o.UnknownUser? || o.WrongPassword? <==> StartsWith(m, "Invalid email or password.")
  {
    match o
    case MissingFields => FirstCharDiffers("Please enter both email and password.")
    case MalformedEmail => FirstCharDiffers("Please enter a valid email address.")
    case UnknownUser =>
      var m := "Invalid email or password.";
      StartsWithHead(m, "Welcome back, ");
      m
    case AccountLocked =>
      FirstCharDiffers("Account locked" + " due to multiple failed attempts." + " Please contact IT support.")
    case WrongPassword(n) =>
      var m := "Invalid email or password. " + Decimal(n) + " attempt(s) remaining.";
      assert m[..26] == "Invalid email or password.";
      StartsWithHead(m, "Welcome back, ");
      m
    case LockedOut =>
      FirstCharDiffers("Maximum login attempts exceeded." + " Account has been locked." + " Contact IT support.")
    case Welcome(s) =>
      var m := "Welcome back, " + s.fullName + "! Redirecting to dashboard...";
      assert m[..14] == "Welcome back, ";
      StartsWithHead(m, "Invalid email or password.");
      m
  }

  /** A text that is neither a greeting nor starts like the failed-login
      text, told by its first character. */
  function FirstCharDiffers(m: string): (r: string)
    requires |m| > 0 && m[0] != 'W' && m[0] != 'I'
    ensures r == m
    ensures !StartsWith(r, "Welcome back, ") && !StartsWith(r, "Invalid email or password.")
  {
    StartsWithHead(m, "Welcome back, ");
    StartsWithHead(m, "Invalid email or password.");
    m
  }

  /** The number a run of decimal digits denotes. */
  function DigitsValue(s: string): nat
    requires forall k :: 0 <= k < |s| ==> '0' <= s[k] <= '9'
  {
    if s == [] then 0 else 10 * DigitsValue(s[..|s| - 1]) + (s[|s| - 1] as int - '0' as int)
  }

  /** Base-ten digits of `n`, as a template literal prints a number: a
      non-empty run of digits that denotes `n`, without leading zeros. */
  function Decimal(n: nat): (r: string)
    ensures |r| > 0
    ensures forall k :: 0 <= k < |r| ==> '0' <= r[k] <= '9'
    ensures DigitsValue(r) == n
    ensures |r| > 1 ==> r[0] != '0'
  {
    var d := ['0' + (n % 10) as char];
    if n < 10 then d
    else
      var r := Decimal(n / 10) + d;
      assert r[..|r| - 1] == Decimal(n / 10);
      r
  }

  /** Distinct numbers print differently. */
  lemma DecimalInjective(n: nat, m: nat)
    ensures Decimal(n) == Decimal(m) ==> n == m
  {
  }

  /** The text shown tells the outcome apart, except that a greeting shows
      only the account's full name: equal texts mean equal failures, or two
      successes for accounts with the same full name. */
  lemma MessageDeterminesOutcome(a: Outcome, b: Outcome)
    requires Message(a) == Message(b)
    ensures a.Welcome? <==> b.Welcome?
    ensures !a.Welcome? ==> a == b
    ensures a.Welcome? ==> a.session.fullName == b.session.fullName
  {
    var m := Message(a);
    if a.Welcome? && b.Welcome? {
      var f, g := a.session.fullName, b.session.fullName;
      assert |f| == |g|;
      assert f == m[14..14 + |f|];
      assert g == m[14..14 + |g|];
    } else if a.WrongPassword? && b.WrongPassword? {
      var da, db := Decimal(a.remaining), Decimal(b.remaining);
      assert |da| == |db|;
      assert da == m[27..27 + |da|];
      assert db == m[27..27 + |db|];
      DecimalInjective(a.remaining, b.remaining);
    } else if !a.Welcome? && !b.Welcome? && a != b {
      MessagesOfKindsDiffer(a, b);
    }
  }

  /** Failures of different kinds show different texts. */
  lemma MessagesOfKindsDiffer(a: Outcome, b: Outcome)
    requires !a.Welcome? && !b.Welcome? && a != b
    requires !(a.WrongPassword? && b.WrongPassword?)
    ensures Message(a) != Message(b)
  {
    if a.WrongPassword? {
      WrongPasswordTextDiffers(a.remaining, b);
    } else if b.WrongPassword? {
      WrongPasswordTextDiffers(b.remaining, a);
    }
  }

  lemma WrongPasswordTextDiffers(n: nat, o: Outcome)
    requires !o.Welcome? && !o.WrongPassword?
    ensures Message(WrongPassword(n)) != Message(o)
  {
    var m := Message(WrongPassword(n));
    assert |m| > 26;
    if o.UnknownUser? {
      assert |Message(o)| == 26;
    } else {
      assert !StartsWith(Message(o), "Invalid email or password.");
    }
  }

  /** The "unknown account" text is a proper prefix of every "wrong
      password" text: the remaining-attempts count that follows it tells an
      observer that the account exists. */
  lemma WrongPasswordRevealsAccount(n: nat)
    ensures Message(UnknownUser) < Message(WrongPassword(n))
    ensures Message(UnknownUser) != Message(WrongPassword(n))
  {
    var m := Message(WrongPassword(n));
    assert m == Message(UnknownUser) + (" " + Decimal(n) + " attempt(s) remaining.");
  }

  /** The record of what a successful login writes to session storage,
      stored under `SessionKey`; every other key of the store is kept. */
  function StoreSession(store: map<string, Session>, username: string, user: UserRecord, now: string)
    : (r: map<string, Session>)
    ensures r.Keys == store.Keys + {SessionKey}
    ensures r[SessionKey].email == username && r[SessionKey].loginTime == now
    ensures r[SessionKey].role == user.role && r[SessionKey].fullName == user.fullName
    ensures forall k :: k in store && k != SessionKey ==> r[k] == store[k]
  {
    store[SessionKey := Session(username, user.role, user.fullName, now)]
  }

  /** The directory after an attempt, paired with its outcome. */
  datatype Auth = Auth(users: Directory, outcome: Outcome)

  /** `authenticateUser`: look the key up, refuse a locked account, and
      either reset the failure count on a matching password or count one
      more failure, locking the account when it reaches `MaxAttempts`.
      Only the record under `username` may change, and never its password,
      role, name or e-mail; an attempt keeps `AttemptsConsistent`. */
  function Authenticate(users: Directory, username: string, password: string, now: string): (a: Auth)
    ensures a.users.Keys == users.Keys
    ensures forall k :: k in users && k != username ==> a.users[k] == users[k]
    ensures username in users ==>
      var u, v := users[username], a.users[username];
      v.password == u.password && v.role == u.role && v.fullName == u.fullName && v.email == u.email
    ensures username !in users ==> a == Auth(users, UnknownUser)
    ensures username in users && users[username].locked ==> a == Auth(users, AccountLocked)
    ensures a.outcome.Welcome? <==>
      username in users && !users[username].locked && users[username].password == password
    ensures a.outcome.Welcome? ==>
      a.users[username].attempts == 0 && !a.users[username].locked
      && a.outcome.session == Session(username, users[username].role, users[username].fullName, now)
    ensures username in users && !users[username].locked && users[username].password != password ==>
      a.users[username].attempts == users[username].attempts + 1
      && (a.users[username].locked <==> a.users[username].attempts >= MaxAttempts)
      && (a.users[username].locked ==> a.outcome == LockedOut)
      && (!a.users[username].locked ==> a.outcome == WrongPassword(MaxAttempts - a.users[username].attempts))
    ensures AttemptsConsistent(users) ==> AttemptsConsistent(a.users)
  {
    if username !in users then
      Auth(users, UnknownUser)
    else
      var user := users[username];
      if user.locked then
        Auth(users, AccountLocked)
      else if user.password == password then
        var user' := user.(attempts := 0);
        Auth(users[username := user'], Welcome(Session(username, user.role, user.fullName, now)))
      else
        var n := user.attempts + 1;
        if n >= MaxAttempts then
          Auth(users[username := user.(attempts := n, locked := true)], LockedOut)
        else
          Auth(users[username := user.(attempts := n)], WrongPassword(MaxAttempts - n))
  }

  /** What the login page holds: the user table and the tab's session
      storage. */
  datatype Portal = Portal(users: Directory, session: map<string, Session>)

  datatype Step = Step(portal: Portal, outcome: Outcome)

  /** Whether a submission gets past the form checks to the lookup. */
  predicate Admitted(raw: string, password: string) {
    var key := Normalize(raw);
    key != [] && password != [] && IsValidEmail(key)
  }

  /** `handleLogin` followed by `authenticateUser`, with the simulated
      network delay taken as instantaneous: normalise the e-mail, refuse
      empty fields and then a malformed e-mail before touching anything,
      otherwise authenticate and, on success, write the session. */
  function HandleLogin(p: Portal, raw: string, password: string, now: string): (r: Step)
    ensures Normalize(raw) == [] || password == [] <==> r.outcome == MissingFields
    ensures r.outcome == MissingFields || r.outcome == MalformedEmail ==> r.portal == p
    ensures r.outcome == MalformedEmail <==>
      Normalize(raw) != [] && password != [] && !IsValidEmail(Normalize(raw))
    ensures Admitted(raw, password) ==>
      r.outcome == Authenticate(p.users, Normalize(raw), password, now).outcome
      && r.portal.users == Authenticate(p.users, Normalize(raw), password, now).users
    ensures r.portal.users.Keys == p.users.Keys
    ensures forall k :: k in p.users && k != Normalize(raw) ==> r.portal.users[k] == p.users[k]
    ensures r.outcome.Welcome? ==>
      r.portal.session == p.session[SessionKey := r.outcome.session]
      && r.outcome.session.email == Normalize(raw)
    ensures !r.outcome.Welcome? ==> r.portal.session == p.session
    ensures AttemptsConsistent(p.users) ==> AttemptsConsistent(r.portal.users)
  {
    var username := Normalize(raw);
    if username == [] || password == [] then
      Step(p, MissingFields)
    else if !IsValidEmail(username) then
      Step(p, MalformedEmail)
    else
      var a := Authenticate(p.users, username, password, now);
      var session := if a.outcome.Welcome? then
        StoreSession(p.session, username, p.users[username], now)
      else p.session;
      Step(Portal(a.users, session), a.outcome)
  }

  /** `redirectToDashboard`: the landing page of each of the three roles;
      any other role text navigates nowhere. */
  function DashboardFor(role: string): (page: Option<string>)
    ensures page.Some? <==> role in {"Student", "Faculty", "Administrator"}
    ensures page == Some("student.html") <==> role == "Student"
    ensures page == Some("faculty.html") <==> role == "Faculty"
    ensures page == Some("admin.html") <==> role == "Administrator"
  {
    match role
    case "Student" => Some("student.html")
    case "Faculty" => Some("faculty.html")
    case "Administrator" => Some("admin.html")
    case _ => None
  }

  /** Every seeded account has a landing page. */
  lemma SeedRolesRouted()
    ensures forall k :: k in SeedDirectory() ==> DashboardFor(SeedDirectory()[k].role).Some?
  {
  }

  /** `handleRememberMe`: ticking the box stores the e-mail field as typed
      (untrimmed) when it is non-empty, unticking it removes the entry; no
      other key of local storage changes. */
  function RememberMe(checked: bool, field: string, local: map<string, string>): (r: map<string, string>)
    ensures forall k :: k != RememberKey ==> (k in r <==> k in local) && (k in r ==> r[k] == local[k])
    ensures checked && field != [] ==> RememberKey in r && r[RememberKey] == field
    ensures checked && field == [] ==> r == local
    ensures !checked ==> RememberKey !in r
  {
    if checked then
      if field != [] then local[RememberKey := field] else local
    else
      local - {RememberKey}
  }

  /** `loadSavedCredentials`: the e-mail to pre-fill, when a non-empty one
      is remembered. */
  function SavedEmail(local: map<string, string>): (prefill: Option<string>)
    ensures prefill.Some? <==> RememberKey in local && local[RememberKey] != []
    ensures prefill.Some? ==> prefill.value == local[RememberKey]
  {
    if RememberKey in local && local[RememberKey] != [] then Some(local[RememberKey]) else None
  }

  /** What "remember me" stores is what the next page load pre-fills, and
      unticking it leaves nothing to pre-fill. */
  lemma RememberThenLoad(field: string, local: map<string, string>)
    ensures field != [] ==> SavedEmail(RememberMe(true, field, local)) == Some(field)
    ensures SavedEmail(RememberMe(false, field, local)) == None
  {
  }

  /** `resetAllAttempts`: every account is reopened with no failures, and
      nothing else about any record changes. */
  function ResetAll(users: Directory): (r: Directory)
    ensures r.Keys == users.Keys
    ensures forall k :: k in users ==> r[k].attempts == 0 && !r[k].locked
    ensures forall k :: k in users ==>
      r[k].password == users[k].password && r[k].role == users[k].role
      && r[k].fullName == users[k].fullName && r[k].email == users[k].email
    ensures AttemptsConsistent(r)
  {
    map k | k in users :: users[k].(attempts := 0, locked := false)
  }

  /** After the reset any account accepts its own password again, however
      many failures it had and whether or not it was locked. */
  lemma ResetReopens(users: Directory, k: string, now: string)
    requires k in users
    ensures Authenticate(ResetAll(users), k, users[k].password, now).outcome.Welcome?
  {
  }
}
