/**
  `SessionManager` and `Session` of backend.py: at most one logged-in
  account, and a lockout after repeated failed logins.

  The lockout is a thread that swaps `create_session` for a function raising
  TooManyAttempts, sleeps, then restores it and raises the delay. Here the
  swap is the `locked` flag, set in the same step as the failure that causes
  it, and the end of the sleep is the `LockoutExpired` event. Account
  loading is the caller's: `CreateSession` receives the outcome `load` would
  have, and says whether it was consulted.
 */
module Sessions {
  import opened Errors
  import opened Codec
  import opened Cipher
  import opened Entries
  import opened Accounts
  import EntryList

  const MaxFailedAttempts: nat := 5
  const InitHardlockDelay: nat := 20
  const HardlockDelayIncr: nat := 10

  datatype Manager = Manager(
    session: Option<Account>,
    locked: bool,          // `session_hardlock`: create_session is swapped out
    failedAttempts: nat,
    delay: nat)            // `hardlock_delay`, in seconds

  /** `SessionManager.__init__`. */
  function Init(): (m: Manager)
    ensures m.session.None? && !m.locked && m.failedAttempts == 0 && m.delay == InitHardlockDelay
    ensures Valid(m)
  {
    Manager(None, false, 0, InitHardlockDelay)
  }

  /** The result of one login attempt: the new state, the exception raised
      if any, and whether the account file was read at all. */
  datatype Step = Step(next: Manager, error: Option<Error>, loaded: bool)

  /** The failures that count towards a lockout. */
  predicate IsCountedFailure(e: Error) {
    e == InvalidCredentials || e == InvalidAccountFormat
  }

  /** `SessionManager.create_session`. */
  function CreateSession(m: Manager, load: Result<Account>): (s: Step)
    ensures m.locked ==> s == Step(m, Some(TooManyAttempts), false)
    ensures !m.locked && m.session.Some? ==> s == Step(m, Some(SessionOngoing), false)
    ensures s.loaded <==> !m.locked && m.session.None?
    ensures s.loaded ==> (s.error.None? <==> load.Ok?) && (load.Err? ==> s.error == Some(load.error))
    ensures s.loaded && load.Ok? ==> s.next == Manager(Some(load.value), false, 0, InitHardlockDelay)
    ensures s.loaded && load.Err? ==> s.next.session.None? && s.next.delay == m.delay
    ensures s.loaded && load.Err? && IsCountedFailure(load.error) ==>
              s.next.failedAttempts == m.failedAttempts + 1
              && (s.next.locked <==> m.failedAttempts + 1 >= MaxFailedAttempts)
    ensures s.loaded && load.Err? && !IsCountedFailure(load.error) ==> s.next == m
  {
    if m.locked then Step(m, Some(TooManyAttempts), false)
    else if m.session.Some? then Step(m, Some(SessionOngoing), false)
    else match load
      case Ok(a) => Step(Manager(Some(a), false, 0, InitHardlockDelay), None, true)
      case Err(e) =>
        if IsCountedFailure(e) then
          var failed := m.failedAttempts + 1;
          Step(m.(failedAttempts := failed, locked := failed >= MaxFailedAttempts), Some(e), true)
        else Step(m, Some(e), true)
  }

  /** The end of the lockout thread's sleep: `create_session` is restored and
      the next lockout lasts longer. The failure count is not reset. */
  function LockoutExpired(m: Manager): (r: Manager)
    requires m.locked
    ensures !r.locked && r.delay == m.delay + HardlockDelayIncr
    ensures r.session == m.session && r.failedAttempts == m.failedAttempts
  {
    m.(locked := false, delay := m.delay + HardlockDelayIncr)
  }

  /** `SessionManager.stop_session`; the save done by the dropped session's
      finalizer is not modelled. */
  function StopSession(m: Manager): (r: Manager)
    ensures r.session.None?
    ensures r.(session := m.session) == m
  {
    m.(session := None)
  }

  /** `SessionManager.save_account`: the bytes the account file receives.
      With no session the attribute lookup fails and NoSession is raised. */
  function SaveAccount(prims: Primitives, m: Manager, iv: Iv): (r: Result<bytes>)
    ensures m.session.None? <==> r == Err(NoSession)
    ensures r.Err? ==> r.error == NoSession || r.error == ValueError
    ensures r.Ok? ==> |r.value| >= SaltSize && r.value[..SaltSize] == m.session.value.salt
  {
    match m.session
    case None => Err(NoSession)
    case Some(a) => Accounts.Dumps(prims, a, iv).Translate(AttributeError, NoSession)
  }

  /** `Session.add_new_entry`, on the logged-in account; `created` and
      `updated` are the two clock readings of `Entry.__init__`. */
  function AddNewEntry(a: Account, title: string, body: string, created: nat, updated: nat): (r: Account)
    ensures |r.entries| == |a.entries| + 1 && r.entries[..|a.entries|] == a.entries
    ensures r.entries[|a.entries|] == Entry(title, body, |a.entries|, created, updated)
    ensures r.(entries := a.entries) == a
    ensures EntryList.Indexed(a.entries) ==> EntryList.Indexed(r.entries)
  {
    a.(entries := EntryList.AddEntry(a.entries, title, body, created, updated))
  }

  // ---------------------------------------------------------------------
  // Invariant
  // ---------------------------------------------------------------------

  /** The delay is 20 plus a whole number of increments; a lockout happens
      only at five or more failures and never with a session open; an open
      session means the failure count was reset. */
  predicate Valid(m: Manager) {
    && m.delay >= InitHardlockDelay
    && (m.delay - InitHardlockDelay) % HardlockDelayIncr == 0
    && (m.locked ==> m.failedAttempts >= MaxFailedAttempts && m.session.None?)
    && (m.session.Some? ==> m.failedAttempts == 0)
  }

  lemma InitValid()
    ensures Valid(Init())
  {
  }

  lemma CreateSessionValid(m: Manager, load: Result<Account>)
    requires Valid(m)
    ensures Valid(CreateSession(m, load).next)
  {
  }

  lemma LockoutExpiredValid(m: Manager)
    requires Valid(m) && m.locked
    ensures Valid(LockoutExpired(m))
  {
  }

  lemma StopSessionValid(m: Manager)
    requires Valid(m)
    ensures Valid(StopSession(m))
  {
  }

  // ---------------------------------------------------------------------
  // Runs of login attempts
  // ---------------------------------------------------------------------

  /** The state after a series of login attempts with the given outcomes. */
  function Attempts(m: Manager, loads: seq<Result<Account>>): Manager
    decreases |loads|
  {
    if |loads| == 0 then m else Attempts(CreateSession(m, loads[0]).next, loads[1..])
  }

  predicate AllCountedFailures(loads: seq<Result<Account>>) {
    forall i :: 0 <= i < |loads| ==> loads[i].Err? && IsCountedFailure(loads[i].error)
  }

  /** Failures below the threshold only count. */
  lemma {:induction false} FailuresAccumulate(m: Manager, loads: seq<Result<Account>>)
    requires !m.locked && m.session.None?
    requires AllCountedFailures(loads)
    requires m.failedAttempts + |loads| < MaxFailedAttempts
    ensures Attempts(m, loads) == m.(failedAttempts := m.failedAttempts + |loads|)
    decreases |loads|
  {
    if |loads| > 0 {
      var next := CreateSession(m, loads[0]).next;
      assert next == m.(failedAttempts := m.failedAttempts + 1);
      assert AllCountedFailures(loads[1..]) by {
        assert forall i :: 1 <= i < |loads| ==> loads[1..][i - 1] == loads[i];
      }
      FailuresAccumulate(next, loads[1..]);
    }
  }

  /** From a fresh manager, four failed logins leave it open and a fifth
      locks it. */
  lemma FifthFailureLocks(loads: seq<Result<Account>>)
    requires |loads| == MaxFailedAttempts && AllCountedFailures(loads)
    ensures !Attempts(Init(), loads[..MaxFailedAttempts - 1]).locked
    ensures Attempts(Init(), loads) == Manager(None, true, MaxFailedAttempts, InitHardlockDelay)
  {
    var first := loads[..MaxFailedAttempts - 1];
    assert AllCountedFailures(first) by {
      assert forall i :: 0 <= i < |first| ==> first[i] == loads[i];
    }
    FailuresAccumulate(Init(), first);
    AttemptsAppend(Init(), first, loads[MaxFailedAttempts - 1..]);
    assert first + loads[MaxFailedAttempts - 1..] == loads;
  }

  lemma {:induction false} AttemptsAppend(m: Manager, xs: seq<Result<Account>>, ys: seq<Result<Account>>)
    ensures Attempts(m, xs + ys) == Attempts(Attempts(m, xs), ys)
    decreases |xs|
  {
    if |xs| > 0 {
      assert (xs + ys)[1..] == xs[1..] + ys;
      AttemptsAppend(CreateSession(m, xs[0]).next, xs[1..], ys);
    } else {
      assert xs + ys == ys;
    }
  }

  /** While locked, no series of attempts changes anything. */
  lemma {:induction false} LockedAttemptsChangeNothing(m: Manager, loads: seq<Result<Account>>)
    requires m.locked
    ensures Attempts(m, loads) == m
    decreases |loads|
  {
    if |loads| > 0 {
      LockedAttemptsChangeNothing(m, loads[1..]);
    }
  }

  /** The failure count survives a lockout, so after it expires a single
      further failure locks again, for a longer delay next time. */
  lemma RelockAfterExpiry(m: Manager, e: Error)
    requires Valid(m) && m.locked && IsCountedFailure(e)
    ensures var s := CreateSession(LockoutExpired(m), Err(e));
            && s.loaded && s.error == Some(e)
            && s.next.locked
            && s.next.failedAttempts == m.failedAttempts + 1
            && s.next.delay == m.delay + HardlockDelayIncr
  {
  }

  /** A login for an account that does not exist is not a counted failure. */
  lemma NotFoundIsNotCounted(m: Manager)
    requires !m.locked && m.session.None?
    ensures CreateSession(m, Err(AccountNotFound)) == Step(m, Some(AccountNotFound), true)
  {
  }

  /** A successful login after a finished lockout restores the initial
      counters. */
  lemma SuccessAfterExpiryResets(m: Manager, a: Account)
    requires Valid(m) && m.locked
    ensures CreateSession(LockoutExpired(m), Ok(a)).next == Manager(Some(a), false, 0, InitHardlockDelay)
  {
  }

  // ---------------------------------------------------------------------
  // End to end
  // ---------------------------------------------------------------------

  /** Log in, write an entry, save: the saved file, opened again with the
      same password, holds the account with the new entry after the old
      ones. The dump as written saves the same file when every title is
      ASCII and no digit run is met. */
  lemma LoginWriteSaveReload(prims: Primitives, m: Manager, file: bytes, rawPassword: string, salt: Bytes32,
                             title: string, body: string, created: nat, updated: nat, iv: Iv, salt2: Bytes32)
    requires IsBlockCipher(prims)
    requires !m.locked && m.session.None?
    requires Accounts.Loads(prims, file, Some(rawPassword), salt).Ok?
    requires var a := Accounts.Loads(prims, file, Some(rawPassword), salt).value;
             Storable(AddNewEntry(a, title, body, created, updated))
    ensures var a := Accounts.Loads(prims, file, Some(rawPassword), salt).value;
            var s := CreateSession(m, Ok(a));
            var written := AddNewEntry(a, title, body, created, updated);
            var m2 := s.next.(session := Some(written));
            && s.error.None?
            && SaveAccount(prims, m2, iv).Ok?
            && Accounts.Loads(prims, SaveAccount(prims, m2, iv).value, Some(rawPassword), salt2)
               == Ok(Account(a.username, DeriveKey(prims, rawPassword, salt2), salt2, a.timeCreated,
                             EntryList.AddEntry(a.entries, title, body, created, updated)))
    ensures var a := Accounts.Loads(prims, file, Some(rawPassword), salt).value;
            var written := AddNewEntry(a, title, body, created, updated);
            AsciiTitles(written.entries) && AvoidsRuns(written) ==>
              Accounts.DumpsAsWritten(prims, written, iv) == Accounts.Dumps(prims, written, iv)
  {
    var a := Accounts.Loads(prims, file, Some(rawPassword), salt).value;
    var written := AddNewEntry(a, title, body, created, updated);
    DumpsLoads(prims, written, rawPassword, iv, salt2);
    if AsciiTitles(written.entries) {
      BodyAsWrittenAgrees(written);
    }
  }
}
