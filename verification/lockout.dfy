/** Runs of login attempts against one login page: the failure counter and
    the lock seen across many submissions of the form. */
module Lockout {
  import opened Text
  import opened Email
  import opened Login

  /** One submission of the login form. */
  datatype Attempt = Attempt(email: string, password: string, now: string)

  /** The login page after the attempts `xs`, in order. It keeps the set of
      accounts, and from a consistent table (in particular the seeded one)
      every later table is consistent: at most `MaxAttempts` failures per
      record, and locked exactly at `MaxAttempts`. */
  function Replay(p: Portal, xs: seq<Attempt>): (r: Portal)
    ensures r.users.Keys == p.users.Keys
    ensures AttemptsConsistent(p.users) ==> AttemptsConsistent(r.users)
    decreases |xs|
  {
    if xs == [] then p
    else Replay(HandleLogin(p, xs[0].email, xs[0].password, xs[0].now).portal, xs[1..])
  }

  /** The outcome of each attempt of `xs`, in order. */
  function Outcomes(p: Portal, xs: seq<Attempt>): (os: seq<Outcome>)
    ensures |os| == |xs|
    decreases |xs|
  {
    if xs == [] then []
    else
      var s := HandleLogin(p, xs[0].email, xs[0].password, xs[0].now);
      [s.outcome] + Outcomes(s.portal, xs[1..])
  }

  /** The page a fresh tab starts from: the seeded accounts and an empty
      session storage. */
  function InitialPortal(): (p: Portal)
    ensures AttemptsConsistent(p.users)
    ensures p.session == map[]
  {
    Portal(SeedDirectory(), map[])
  }

  /** Reloading the login page builds a new `BooleanLogin`, so the table is
      seeded afresh, while the tab's session storage survives. */
  function Reload(p: Portal): (q: Portal)
    ensures q.session == p.session
    ensures q.users.Keys == SeedDirectory().Keys && AttemptsConsistent(q.users)
    ensures forall k :: k in q.users ==> q.users[k].attempts == 0 && !q.users[k].locked
  {
    Portal(SeedDirectory(), p.session)
  }

  /** A lock lasts only as long as the page: after a reload every seeded
      account, locked or not before, admits its own password again. */
  lemma ReloadReopens(p: Portal, k: string, now: string)
    requires k in SeedDirectory()
    ensures
      var r := HandleLogin(Reload(p), k, SeedDirectory()[k].password, now);
      && r.outcome.Welcome?
      && r.outcome.session.email == k
      && r.portal.users[k].attempts == 0 && !r.portal.users[k].locked
  {
    SeedKeyIsLookupKey(k);
    assert SeedDirectory()[k].password != [];
  }

  /** Replaying two runs back to back is replaying their concatenation. */
  lemma {:induction false} ReplayAppend(p: Portal, xs: seq<Attempt>, ys: seq<Attempt>)
    ensures Replay(p, xs + ys) == Replay(Replay(p, xs), ys)
    ensures Outcomes(p, xs + ys) == Outcomes(p, xs) + Outcomes(Replay(p, xs), ys)
    decreases |xs|
  {
    if xs != [] {
      var s := HandleLogin(p, xs[0].email, xs[0].password, xs[0].now);
      assert (xs + ys)[0] == xs[0];
      assert (xs + ys)[1..] == xs[1..] + ys;
      ReplayAppend(s.portal, xs[1..], ys);
    } else {
      assert xs + ys == ys;
    }
  }

  /** The first attempt of a non-empty run, then the rest. */
  lemma ReplayCons(p: Portal, xs: seq<Attempt>)
    requires xs != []
    ensures
      var s := HandleLogin(p, xs[0].email, xs[0].password, xs[0].now);
      Replay(p, xs) == Replay(s.portal, xs[1..]) && Outcomes(p, xs) == [s.outcome] + Outcomes(s.portal, xs[1..])
  {
  }

  lemma ReplaySingle(p: Portal, a: Attempt)
    ensures Replay(p, [a]) == HandleLogin(p, a.email, a.password, a.now).portal
    ensures Outcomes(p, [a]) == [HandleLogin(p, a.email, a.password, a.now).outcome]
  {
    assert [a][1..] == [];
  }

  /** Attempts whose e-mail never normalises to `k` leave the record under
      `k` exactly as it was. */
  lemma {:induction false} UntouchedAccount(p: Portal, xs: seq<Attempt>, k: string)
    requires k in p.users
    requires forall i :: 0 <= i < |xs| ==> Normalize(xs[i].email) != k
    ensures Replay(p, xs).users[k] == p.users[k]
    decreases |xs|
  {
    if xs != [] {
      var s := HandleLogin(p, xs[0].email, xs[0].password, xs[0].now);
      assert Normalize(xs[0].email) != k;
      forall i | 0 <= i < |xs[1..]| ensures Normalize(xs[1..][i].email) != k {
        assert xs[1..][i] == xs[i + 1];
      }
      UntouchedAccount(s.portal, xs[1..], k);
    }
  }

  /** The outcome of the `i`-th attempt is that of submitting it on the
      page left by the attempts before it. */
  lemma {:induction false} OutcomeAt(p: Portal, xs: seq<Attempt>, i: nat)
    requires i < |xs|
    ensures Outcomes(p, xs)[i] == HandleLogin(Replay(p, xs[..i]), xs[i].email, xs[i].password, xs[i].now).outcome
    decreases i
  {
    if i > 0 {
      var s := HandleLogin(p, xs[0].email, xs[0].password, xs[0].now);
      var pre := xs[..i];
      assert pre[0] == xs[0] && pre[1..] == xs[1..][..i - 1];
      assert Replay(p, pre) == Replay(s.portal, xs[1..][..i - 1]);
      assert Outcomes(p, xs)[i] == Outcomes(s.portal, xs[1..])[i - 1];
      OutcomeAt(s.portal, xs[1..], i - 1);
      assert xs[1..][i - 1] == xs[i];
    }
  }

  /** One attempt on a locked account: the record stays as it is, and the
      attempt fails. */
  lemma LockedStep(p: Portal, a: Attempt, k: string)
    requires k in p.users && p.users[k].locked
    ensures HandleLogin(p, a.email, a.password, a.now).portal.users[k] == p.users[k]
    ensures Normalize(a.email) == k ==> !HandleLogin(p, a.email, a.password, a.now).outcome.Welcome?
    ensures Normalize(a.email) == k && a.password != [] && IsValidEmail(k) ==>
      HandleLogin(p, a.email, a.password, a.now).outcome == AccountLocked
  {
    if Normalize(a.email) == k && a.password != [] && IsValidEmail(k) {
      assert Admitted(a.email, a.password);
    }
  }

  /** A locked account stays locked and untouched whatever is submitted. */
  lemma {:induction false} LockedRecordKept(p: Portal, xs: seq<Attempt>, k: string)
    requires k in p.users && p.users[k].locked
    ensures Replay(p, xs).users[k] == p.users[k]
    decreases |xs|
  {
    if xs != [] {
      LockedStep(p, xs[0], k);
      var s := HandleLogin(p, xs[0].email, xs[0].password, xs[0].now);
      LockedRecordKept(s.portal, xs[1..], k);
    }
  }

  /** A locked account stays locked and untouched whatever is submitted:
      no attempt on it succeeds, even with the right password, and every
      attempt on it that reaches the lookup fails with the lockout
      message. */
  lemma LockIsPermanent(p: Portal, xs: seq<Attempt>, k: string)
    requires k in p.users && p.users[k].locked
    ensures Replay(p, xs).users[k] == p.users[k]
    ensures forall i :: 0 <= i < |xs| && Normalize(xs[i].email) == k ==> !Outcomes(p, xs)[i].Welcome?
    ensures forall i ::
      0 <= i < |xs| && Normalize(xs[i].email) == k && xs[i].password != [] && IsValidEmail(k)
      ==> Outcomes(p, xs)[i] == AccountLocked
  {
    LockedRecordKept(p, xs, k);
    forall i | 0 <= i < |xs|
      ensures Normalize(xs[i].email) == k ==> !Outcomes(p, xs)[i].Welcome?
      ensures Normalize(xs[i].email) == k && xs[i].password != [] && IsValidEmail(k) ==>
        Outcomes(p, xs)[i] == AccountLocked
    {
      OutcomeAt(p, xs, i);
      var q := Replay(p, xs[..i]);
      LockedRecordKept(p, xs[..i], k);
      LockedStep(q, xs[i], k);
    }
  }

  /** `a` targets `k` with a non-empty password that is not `password`. */
  predicate IsWrongGuess(a: Attempt, k: string, password: string) {
    Normalize(a.email) == k && a.password != [] && a.password != password
  }

  /** Every attempt of `xs` is a wrong guess at `k`'s `password`. */
  predicate WrongGuesses(xs: seq<Attempt>, k: string, password: string)
    decreases |xs|
  {
    xs == [] || (IsWrongGuess(xs[0], k, password) && WrongGuesses(xs[1..], k, password))
  }

  /** The outcomes of a losing streak of `n` wrong passwords: `n - 1`,
      `n - 2`, ... 1 attempts remaining, then the lock. */
  function LosingStreak(n: nat): (os: seq<Outcome>)
    requires n > 0
    ensures |os| == n && os[n - 1] == LockedOut
    ensures forall i :: 0 <= i < n - 1 ==> os[i] == WrongPassword(n - 1 - i)
  {
    if n == 1 then [LockedOut] else [WrongPassword(n - 1)] + LosingStreak(n - 1)
  }

  /** One wrong, non-empty password on an open account with a well-formed
      key: one more failure, and the lock exactly when that reaches
      `MaxAttempts`. */
  lemma WrongStep(p: Portal, a: Attempt, k: string)
    requires k in p.users && !p.users[k].locked && IsValidEmail(k)
    requires IsWrongGuess(a, k, p.users[k].password)
    ensures
      var s, u := HandleLogin(p, a.email, a.password, a.now), p.users[k];
      var n := u.attempts + 1;
      && (n >= MaxAttempts ==> s.portal.users[k] == u.(attempts := n, locked := true) && s.outcome == LockedOut)
      && (n < MaxAttempts ==> s.portal.users[k] == u.(attempts := n) && s.outcome == WrongPassword(MaxAttempts - n))
  {
    WrongGuessAdmitted(a, k, p.users[k].password);
  }

  /** A wrong guess at a well-formed key gets past the form checks. */
  lemma WrongGuessAdmitted(a: Attempt, k: string, password: string)
    requires IsValidEmail(k) && IsWrongGuess(a, k, password)
    ensures Admitted(a.email, a.password)
  {
  }

  /** On an open account, as many consecutive wrong passwords as the
      failures it has left lock it: each reports one fewer remaining
      attempt, the last one locks, and the record ends with `MaxAttempts`
      failures and the lock set. */
  lemma {:induction false} WrongStreakLocks(p: Portal, xs: seq<Attempt>, k: string)
    requires k in p.users && !p.users[k].locked && IsValidEmail(k)
    requires |xs| > 0 && p.users[k].attempts + |xs| == MaxAttempts
    requires WrongGuesses(xs, k, p.users[k].password)
    ensures Replay(p, xs).users[k] == p.users[k].(attempts := MaxAttempts, locked := true)
    ensures Outcomes(p, xs) == LosingStreak(|xs|)
    decreases |xs|
  {
    var s := HandleLogin(p, xs[0].email, xs[0].password, xs[0].now);
    ReplayCons(p, xs);
    WrongStep(p, xs[0], k);
    if |xs| > 1 {
      assert s.portal.users[k] == p.users[k].(attempts := p.users[k].attempts + 1);
      WrongStreakLocks(s.portal, xs[1..], k);
      assert LosingStreak(|xs|) == [WrongPassword(|xs| - 1)] + LosingStreak(|xs| - 1);
    } else {
      assert xs[1..] == [];
    }
  }

  /** The lockout story: three wrong passwords on a fresh account report two
      and then one attempt remaining and then lock it; a fourth attempt, even
      with the right password, is refused with the lockout message. */
  lemma ThreeStrikes(p: Portal, k: string, wrong: seq<Attempt>, last: Attempt)
    requires k in p.users && p.users[k].attempts == 0 && !p.users[k].locked && IsValidEmail(k)
    requires |wrong| == 3 && WrongGuesses(wrong, k, p.users[k].password)
    requires Normalize(last.email) == k && last.password != []
    ensures Outcomes(p, wrong + [last]) == [WrongPassword(2), WrongPassword(1), LockedOut, AccountLocked]
    ensures Replay(p, wrong + [last]).users[k].locked
  {
    WrongStreakLocks(p, wrong, k);
    var q := Replay(p, wrong);
    LockedTail(q, last, k);
    ReplayAppend(p, wrong, [last]);
    StreakOfThree();
    assert Outcomes(p, wrong + [last]) == LosingStreak(3) + [AccountLocked];
    assert Replay(p, wrong + [last]).users[k] == q.users[k];
  }

  /** With the seeded limit, a losing streak from a fresh account is three
      attempts long. */
  lemma StreakOfThree()
    ensures LosingStreak(3) == [WrongPassword(2), WrongPassword(1), LockedOut]
    ensures LosingStreak(3) + [AccountLocked] == [WrongPassword(2), WrongPassword(1), LockedOut, AccountLocked]
  {
    assert LosingStreak(1) == [LockedOut];
  }

  /** A single attempt at a locked account, as a one-step run. */
  lemma LockedTail(q: Portal, last: Attempt, k: string)
    requires k in q.users && q.users[k].locked && IsValidEmail(k)
    requires Normalize(last.email) == k && last.password != []
    ensures Outcomes(q, [last]) == [AccountLocked]
    ensures Replay(q, [last]).users[k] == q.users[k]
  {
    ReplaySingle(q, last);
    LockedStep(q, last, k);
  }

  /** The worked example: John Smith's account (`k` is his e-mail), three
      times the same wrong password `guess`, then his right password
      "student123". */
  lemma JohnSmithLockout(k: string, guess: string, now: string)
    requires k == John && guess != [] && guess != "student123"
    ensures
      var wrong := Attempt(k, guess, now);
      var xs := [wrong, wrong, wrong, Attempt(k, "student123", now)];
      Outcomes(InitialPortal(), xs) == [WrongPassword(2), WrongPassword(1), LockedOut, AccountLocked]
      && Replay(InitialPortal(), xs).users[k].locked
  {
    var p := InitialPortal();
    var wrong := Attempt(k, guess, now);
    var right := Attempt(k, "student123", now);
    JohnKey(k);
    JohnRecord(k);
    SameGuessThrice(wrong, k, p.users[k].password);
    ThreeStrikes(p, k, [wrong, wrong, wrong], right);
    ThreeThenOne(wrong, right);
  }

  lemma ThreeThenOne(a: Attempt, b: Attempt)
    ensures [a, a, a] + [b] == [a, a, a, b]
  {
  }

  /** The same wrong guess, any number of times, is a run of wrong
      guesses. */
  lemma {:induction false} SameGuessRepeated(a: Attempt, xs: seq<Attempt>, k: string, password: string)
    requires IsWrongGuess(a, k, password)
    requires forall i :: 0 <= i < |xs| ==> xs[i] == a
    ensures WrongGuesses(xs, k, password)
    decreases |xs|
  {
    if xs != [] {
      assert xs[0] == a;
      SameGuessRepeated(a, xs[1..], k, password);
    }
  }

  lemma SameGuessThrice(a: Attempt, k: string, password: string)
    requires IsWrongGuess(a, k, password)
    ensures WrongGuesses([a, a, a], k, password)
  {
    SameGuessRepeated(a, [a, a, a], k, password);
  }
}
