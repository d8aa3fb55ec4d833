/**
 The second factor of the portal: a code is spent when it is accepted, and switching the factor off
 forgets the last step spent.
 */
module Totp {
  import opened Wrappers

  const STEP := 30
  const VALID_WINDOW := 1
  const RECOVERY_CODES := 8

  /** The code of a secret at a time step. */
  type Codes = (string, int) -> string

  datatype User = User(secret: Option<string>, enabled: bool, lastStep: Option<int>, recovery: seq<string>)

  datatype TotpError = AlreadyActive | NotEnrolled | BadCode

  /** The first step of the window whose code is the one presented. */
  function Matching(codes: Codes, secret: string, code: string, now: int): Option<int> {
    if codes(secret, now - 1) == code then Some(now - 1)
    else if codes(secret, now) == code then Some(now)
    else if codes(secret, now + 1) == code then Some(now + 1)
    else None
  }

  /** A step can still be spent. */
  predicate Fresh(user: User, step: int) {
    user.lastStep.None? || user.lastStep.value < step
  }

  /** The step a presented code would spend, if any. */
  function Presented(codes: Codes, user: User, code: string, now: int): Option<int> {
    if user.secret.None? || code == "" then None else Matching(codes, user.secret.value, code, now)
  }

  /** The conditional update: the step is spent unless it, or a later one, was. */
  function Spend(user: User, step: int): User {
    if Fresh(user, step) then user.(lastStep := Some(step)) else user
  }

  function Verify(codes: Codes, user: User, code: string, now: int): (User, bool) {
    var step := Presented(codes, user, code, now);
    if step.Some? && Fresh(user, step.value) then (Spend(user, step.value), true) else (user, false)
  }

  function Enroll(user: User, secret: string): Result<User, TotpError> {
    if user.enabled then Err(AlreadyActive) else Ok(user.(secret := Some(secret)))
  }

  function Activate(codes: Codes, user: User, code: string, now: int, recovery: seq<string>): Result<User, TotpError> {
    if user.enabled then Err(AlreadyActive)
    else if user.secret.None? then Err(NotEnrolled)
    else
      var (spent, ok) := Verify(codes, user, code, now);
      if !ok then Err(BadCode) else Ok(spent.(enabled := true, recovery := spent.recovery + recovery))
  }

  function Disable(user: User): User {
    User(None, false, None, [])
  }

  // ---------------------------------------------------------------- what is answered

  /** The earliest step, of the one before, the current one and the next, whose code this is. */
  predicate FirstMatch(codes: Codes, secret: string, code: string, now: int, step: int) {
    && now - 1 <= step <= now + 1 && codes(secret, step) == code
    && forall earlier :: now - 1 <= earlier < step ==> codes(secret, earlier) != code
  }

  /** A code is accepted exactly when the account has a secret, the code is not empty and is that of a
      step of the window, and the earliest such step is past the last one spent. That step is then
      spent, and nothing else changes. */
  lemma VerifyExactly(codes: Codes, user: User, code: string, now: int)
    ensures var (after, accepted) := Verify(codes, user, code, now);
            && (accepted <==>
                && user.secret.Some? && code != ""
                && exists step ::
                     FirstMatch(codes, user.secret.value, code, now, step) && (user.lastStep == None || user.lastStep.value < step))
            && (accepted ==>
                && after.lastStep.Some? && FirstMatch(codes, user.secret.value, code, now, after.lastStep.value)
                && after.secret == user.secret && after.enabled == user.enabled && after.recovery == user.recovery)
            && (!accepted ==> after == user)
  {
    if user.secret.Some? {
      forall step | FirstMatch(codes, user.secret.value, code, now, step)
        ensures Matching(codes, user.secret.value, code, now) == Some(step)
      {
        assert now - 1 < step ==> codes(user.secret.value, now - 1) != code;
        assert now < step ==> codes(user.secret.value, now) != code;
      }
      var found := Matching(codes, user.secret.value, code, now);
      assert found.Some? ==> FirstMatch(codes, user.secret.value, code, now, found.value);
    }
  }

  /** The factor is switched on exactly when it was off, had a secret and the code was accepted; the
      errors say which of these fails, in that order. */
  lemma ActivateExactly(codes: Codes, user: User, code: string, now: int, recovery: seq<string>)
    ensures var r, (spent, accepted) := Activate(codes, user, code, now, recovery), Verify(codes, user, code, now);
            && (r == Err(AlreadyActive) <==> user.enabled)
            && (r == Err(NotEnrolled) <==> !user.enabled && user.secret == None)
            && (r == Err(BadCode) <==> !user.enabled && user.secret != None && !accepted)
            && (r.Ok? ==> r.value == User(user.secret, true, spent.lastStep, user.recovery + recovery))
  {
    VerifyExactly(codes, user, code, now);
    hide Verify;
  }

  /** A new secret replaces the one there was unless the factor is on; switched off, it keeps nothing. */
  lemma EnrolmentExactly(user: User, secret: string)
    ensures Enroll(user, secret) == Err(AlreadyActive) <==> user.enabled
    ensures !user.enabled ==> Enroll(user, secret) == Ok(User(Some(secret), false, user.lastStep, user.recovery))
    ensures var off := Disable(user);
            off.secret == None && off.lastStep == None && !off.enabled && off.recovery == []
  {
  }

  /** The account of one user. */
  class Account {
    var secret: Option<string>
    var enabled: bool
    var lastStep: Option<int>
    var recovery: seq<string>

    constructor ()
      ensures Contents() == User(None, false, None, [])
    {
      secret, enabled, lastStep, recovery := None, false, None, [];
    }

    function Contents(): User
      reads this
    {
      User(secret, enabled, lastStep, recovery)
    }

    method StartEnrollment(drawn: string) returns (error: Option<TotpError>)
      modifies this
      ensures match Enroll(old(Contents()), drawn)
              case Ok(after) => error == None && Contents() == after
              case Err(e) => error == Some(e) && Contents() == old(Contents())
    {
      if enabled {
        return Some(AlreadyActive);
      }
      secret := Some(drawn);
      error := None;
    }

    /** Checks a code and spends its step. */
    method VerifyCode(codes: Codes, code: string, time: int) returns (accepted: bool)
      modifies this`lastStep
      ensures (Contents(), accepted) == Verify(codes, old(Contents()), code, time / 30)
    {
      if secret.None? || code == "" {
        return false;
      }
      var now := time / STEP;
      ghost var start := Contents();
      for delta := -VALID_WINDOW to VALID_WINDOW + 1
        invariant Contents() == start
        invariant forall step :: now - VALID_WINDOW <= step < now + delta ==> codes(secret.value, step) != code
      {
        var step := now + delta;
        if codes(secret.value, step) != code {
          continue;
        }
        assert Matching(codes, secret.value, code, now) == Some(step);
        if !(lastStep.None? || lastStep.value < step) {
          return false;
        }
        lastStep := Some(step);
        return true;
      }
      accepted := false;
    }

    /** Confirms the enrollment with a code; the recovery codes are handed over once. */
    method ActivateFactor(codes: Codes, code: string, time: int, drawn: seq<string>)
      returns (r: Result<seq<string>, TotpError>)
      requires |drawn| == RECOVERY_CODES
      modifies this
      ensures match Activate(codes, old(Contents()), code, time / 30, drawn)
              case Ok(after) => r == Ok(drawn) && Contents() == after
              case Err(e) => r == Err(e) && Contents() == old(Contents())
    {
      if enabled {
        return Err(AlreadyActive);
      }
      if secret.None? {
        return Err(NotEnrolled);
      }
      var accepted := VerifyCode(codes, code, time);
      if !accepted {
        return Err(BadCode);
      }
      enabled := true;
      for i := 0 to |drawn|
        invariant secret == old(secret) && enabled && (Contents().(enabled := old(enabled), recovery := old(recovery)), true)
                  == Verify(codes, old(Contents()), code, time / STEP)
        invariant recovery == old(recovery) + drawn[..i]
      {
        recovery := recovery + [drawn[i]];
      }
      assert drawn[..|drawn|] == drawn;
      r := Ok(drawn);
    }

    method DisableFactor()
      modifies this
      ensures Contents() == Disable(old(Contents()))
    {
      secret, enabled, lastStep, recovery := None, false, None, [];
    }
  }
}
