/**
 Any number of requests checking codes at once, to log in or to confirm an enrolment: each reads the
 account and the clock, and later makes one conditional update.
 */
module TotpProtocol {
  import opened Wrappers
  import opened Totp

  /** What a confirmation read: the secret its code is of, and the recovery codes it will hand over. */
  datatype Confirmation = Confirmation(secret: string, recovery: seq<string>)

  /** A request that found its code in the window and is about to spend it, to log in or to switch the
      factor on. */
  datatype Attempt = Attempt(step: int, readAt: int, confirms: Option<Confirmation>)

  /** A code that was accepted. */
  datatype Acceptance = Acceptance(step: int, readAt: int)

  /** The account, the clock in steps, the requests under way, and what was accepted since the
      factor was last switched off. */
  datatype State = State(user: User, clock: int, pending: map<nat, Attempt>, accepted: seq<Acceptance>)

  const START := State(User(None, false, None, []), 0, map[], [])

  datatype Action =
    | Tick(clock: int)
    | Present(worker: nat, code: string)
    | Finish(worker: nat)
    | StartEnrollment(secret: string)
    | Confirm(worker: nat, code: string, recovery: seq<string>)
    | SwitchOff

  function Accept(s: State, step: int, readAt: int): State {
    s.(user := Spend(s.user, step), accepted := s.accepted + [Acceptance(step, readAt)])
  }

  /** What a confirmation does once its step is spent; it does not look again at what it read. */
  function SwitchedOn(user: User, confirms: Option<Confirmation>): User {
    match confirms
    case None => user
    case Some(c) => user.(enabled := true, recovery := user.recovery + c.recovery)
  }

  /** One step. A login presents a code only to an active factor, a confirmation only to one that is
      off and has a secret; spending the code is another step. */
  function Act(codes: Codes, s: State, a: Action): State {
    match a
    case Tick(clock) => if clock >= s.clock then s.(clock := clock) else s
    case Present(w, code) =>
      var step := Presented(codes, s.user, code, s.clock);
      if s.user.enabled && w !in s.pending && step.Some? then s.(pending := s.pending[w := Attempt(step.value, s.clock, None)])
      else s
    case Confirm(w, code, recovery) =>
      var step := Presented(codes, s.user, code, s.clock);
      if !s.user.enabled && w !in s.pending && step.Some? then
        s.(pending := s.pending[w := Attempt(step.value, s.clock, Some(Confirmation(s.user.secret.value, recovery)))])
      else s
    case Finish(w) =>
      if w !in s.pending then s
      else
        var attempt, rest := s.pending[w], s.(pending := s.pending - {w});
        if !Fresh(s.user, attempt.step) then rest
        else
          var spent := Accept(rest, attempt.step, attempt.readAt);
          spent.(user := SwitchedOn(spent.user, attempt.confirms))
    case StartEnrollment(secret) =>
      (match Enroll(s.user, secret) case Ok(after) => s.(user := after) case Err(_) => s)
    case SwitchOff => s.(user := Disable(s.user), accepted := [])
  }

  function Run(codes: Codes, s: State, actions: seq<Action>): State {
    if actions == [] then s else Act(codes, Run(codes, s, actions[..|actions| - 1]), actions[|actions| - 1])
  }

  // ---------------------------------------------------------------- accepted steps increase

  /** What was accepted was spent in order, near the clock of its request, and the last step spent
      is remembered. */
  ghost predicate Inv(s: State) {
    && (forall i, j :: 0 <= i < j < |s.accepted| ==> s.accepted[i].step < s.accepted[j].step)
    && (forall x <- s.accepted :: Near(x.step, x.readAt))
    && (forall w <- s.pending :: Near(s.pending[w].step, s.pending[w].readAt))
    && s.user.lastStep == if s.accepted == [] then None else Some(s.accepted[|s.accepted| - 1].step)
  }

  predicate Near(step: int, readAt: int) {
    readAt - VALID_WINDOW <= step <= readAt + VALID_WINDOW
  }

  lemma AcceptKeepsInv(s: State, step: int, readAt: int)
    requires Inv(s) && Fresh(s.user, step) && Near(step, readAt)
    ensures Inv(Accept(s, step, readAt))
  {
    var after := Accept(s, step, readAt);
    forall i, j | 0 <= i < j < |after.accepted| ensures after.accepted[i].step < after.accepted[j].step {
      if j == |s.accepted| {
        assert s.accepted[i].step <= s.accepted[|s.accepted| - 1].step;
      }
    }
  }

  lemma MatchingIsNear(codes: Codes, user: User, code: string, now: int)
    ensures var step := Presented(codes, user, code, now);
            step.Some? ==> Near(step.value, now) && user.secret.Some? && codes(user.secret.value, step.value) == code
  {
  }

  lemma PresentKeepsInv(codes: Codes, s: State, w: nat, code: string)
    requires Inv(s)
    ensures Inv(Act(codes, s, Present(w, code)))
  {
    MatchingIsNear(codes, s.user, code, s.clock);
    hide Presented, Near;
  }

  lemma FinishKeepsInv(codes: Codes, s: State, w: nat)
    requires Inv(s)
    ensures Inv(Act(codes, s, Finish(w)))
  {
    if w in s.pending && Fresh(s.user, s.pending[w].step) {
      AcceptKeepsInv(s.(pending := s.pending - {w}), s.pending[w].step, s.pending[w].readAt);
    }
  }

  lemma ConfirmKeepsInv(codes: Codes, s: State, w: nat, code: string, recovery: seq<string>)
    requires Inv(s)
    ensures Inv(Act(codes, s, Confirm(w, code, recovery)))
  {
    MatchingIsNear(codes, s.user, code, s.clock);
    hide Presented, Near;
  }

  lemma ActKeepsInv(codes: Codes, s: State, a: Action)
    requires Inv(s)
    ensures Inv(Act(codes, s, a))
  {
    match a
    case Finish(w) => FinishKeepsInv(codes, s, w);
    case Present(w, code) => PresentKeepsInv(codes, s, w, code);
    case Confirm(w, code, recovery) => ConfirmKeepsInv(codes, s, w, code, recovery);
    case _ =>
  }

  /** However requests interleave, the steps accepted while a factor is on strictly increase: no
      code is accepted twice, nor one older than an accepted one. */
  lemma {:induction false} AcceptedStepsIncrease(codes: Codes, actions: seq<Action>)
    ensures Inv(Run(codes, START, actions))
  {
    if actions != [] {
      AcceptedStepsIncrease(codes, actions[..|actions| - 1]);
      ActKeepsInv(codes, Run(codes, START, actions[..|actions| - 1]), actions[|actions| - 1]);
    }
  }

  // ---------------------------------------------------------------- how many codes pass

  /** What was accepted for requests that read the clock from `a` to `b`. */
  function Between(accepted: seq<Acceptance>, a: int, b: int): seq<Acceptance> {
    if accepted == [] then []
    else
      var last := accepted[|accepted| - 1];
      Between(accepted[..|accepted| - 1], a, b) + if a <= last.readAt <= b then [last] else []
  }

  lemma {:induction false} BetweenIncreases(accepted: seq<Acceptance>, a: int, b: int)
    requires forall i, j :: 0 <= i < j < |accepted| ==> accepted[i].step < accepted[j].step
    ensures var r := Between(accepted, a, b);
            && (forall x <- r :: x in accepted && a <= x.readAt <= b)
            && forall i, j :: 0 <= i < j < |r| ==> r[i].step < r[j].step
  {
    if accepted != [] {
      var start, last := accepted[..|accepted| - 1], accepted[|accepted| - 1];
      BetweenIncreases(start, a, b);
      var before, r := Between(start, a, b), Between(accepted, a, b);
      forall i, j | 0 <= i < j < |r| ensures r[i].step < r[j].step {
        if j == |before| {
          assert before[i] in start;
        }
      }
    }
  }

  lemma {:induction false} IncreasingFits(xs: seq<Acceptance>, low: int, high: int)
    requires forall i, j :: 0 <= i < j < |xs| ==> xs[i].step < xs[j].step
    requires forall x <- xs :: low <= x.step <= high
    ensures xs != [] ==> |xs| <= high - low + 1
  {
    if |xs| > 1 {
      var start, last := xs[..|xs| - 1], xs[|xs| - 1];
      assert last in xs;
      forall x | x in start ensures low <= x.step <= last.step - 1 {
        assert x in xs;
      }
      IncreasingFits(start, low, last.step - 1);
    } else if |xs| == 1 {
      assert xs[0] in xs;
    }
  }

  /** Between two readings of the clock `b - a` steps apart at most `b - a + 3` codes pass, however
      many requests there are and however late they finish. */
  lemma FewCodesPass(codes: Codes, actions: seq<Action>, a: int, b: int)
    requires a <= b
    ensures |Between(Run(codes, START, actions).accepted, a, b)| <= b - a + 3
  {
    var s := Run(codes, START, actions);
    AcceptedStepsIncrease(codes, actions);
    BetweenIncreases(s.accepted, a, b);
    IncreasingFits(Between(s.accepted, a, b), a - VALID_WINDOW, b + VALID_WINDOW);
  }

  // ---------------------------------------------------------------- a new secret is not held back

  /** No request is half-way when the factor is switched off. */
  predicate NothingPendingAtSwitchOff(codes: Codes, actions: seq<Action>) {
    actions != [] ==>
      && NothingPendingAtSwitchOff(codes, actions[..|actions| - 1])
      && (actions[|actions| - 1].SwitchOff? ==> Run(codes, START, actions[..|actions| - 1]).pending == map[])
  }

  /** Then a factor that is off remembers no step, and only confirmations are under way. */
  ghost predicate OffForgets(s: State) {
    !s.user.enabled ==> s.user.lastStep == None && forall w <- s.pending :: s.pending[w].confirms.Some?
  }

  lemma {:induction false} SwitchedOffForgets(codes: Codes, actions: seq<Action>)
    requires NothingPendingAtSwitchOff(codes, actions)
    ensures OffForgets(Run(codes, START, actions))
  {
    if actions != [] {
      var s := Run(codes, START, actions[..|actions| - 1]);
      SwitchedOffForgets(codes, actions[..|actions| - 1]);
      hide Matching, NothingPendingAtSwitchOff, Run;
      assert OffForgets(Act(codes, s, actions[|actions| - 1]));
    }
  }

  /** A request with nothing between its two steps. */
  function ConfirmAtOnce(codes: Codes, s: State, w: nat, code: string, recovery: seq<string>): State {
    Act(codes, Act(codes, s, Confirm(w, code, recovery)), Finish(w))
  }

  /** Alone, a confirmation is the activation of the factor. */
  lemma ConfirmAloneActivates(codes: Codes, s: State, w: nat, code: string, recovery: seq<string>)
    requires w !in s.pending
    ensures var r := Activate(codes, s.user, code, s.clock, recovery);
            ConfirmAtOnce(codes, s, w, code, recovery).user == if r.Ok? then r.value else s.user
    ensures ConfirmAtOnce(codes, s, w, code, recovery).pending == s.pending
  {
    hide Matching;
  }

  /** Alone, a login is the verification of its code. */
  lemma LoginAloneVerifies(codes: Codes, s: State, w: nat, code: string)
    requires s.user.enabled && w !in s.pending
    ensures var end := Act(codes, Act(codes, s, Present(w, code)), Finish(w));
            var (after, accepted) := Verify(codes, s.user, code, s.clock);
            && end.user == after && end.pending == s.pending && end.clock == s.clock
            && end.accepted == s.accepted + if accepted then [Acceptance(after.lastStep.value, s.clock)] else []
  {
    hide Matching;
    var step := Presented(codes, s.user, code, s.clock);
    if step.Some? {
      assert (s.pending[w := Attempt(step.value, s.clock, None)]) - {w} == s.pending;
    }
  }

  /** When a factor is off, a code of a new secret confirms it exactly when it matches in the window
      and every step accepted since the switch-off, by requests that finished late, is below its. */
  lemma NewSecretConfirmedExactly(
      codes: Codes, actions: seq<Action>, w: nat, secret: string, code: string, recovery: seq<string>)
    requires !Run(codes, START, actions).user.enabled && w !in Run(codes, START, actions).pending && code != ""
    ensures var s := Run(codes, START, actions);
            var step := Matching(codes, secret, code, s.clock);
            ConfirmAtOnce(codes, Act(codes, s, StartEnrollment(secret)), w, code, recovery).user.enabled <==>
            step.Some? && forall x <- s.accepted :: x.step < step.value
  {
    var s := Run(codes, START, actions);
    AcceptedStepsIncrease(codes, actions);
    hide Matching, Run;
    ConfirmAloneActivates(codes, Act(codes, s, StartEnrollment(secret)), w, code, recovery);
    hide ConfirmAtOnce;
    if s.accepted != [] {
      var last := s.accepted[|s.accepted| - 1];
      assert last in s.accepted;
      forall x | x in s.accepted ensures x.step <= last.step {
        var i :| 0 <= i < |s.accepted| && s.accepted[i] == x;
      }
    }
  }

  /** So, with no request half-way at the switch-off, it is confirmed by any of its codes in the
      window, whatever was spent before. */
  lemma NewSecretsAreConfirmed(
      codes: Codes, actions: seq<Action>, w: nat, secret: string, code: string, recovery: seq<string>)
    requires NothingPendingAtSwitchOff(codes, actions)
    requires !Run(codes, START, actions).user.enabled && w !in Run(codes, START, actions).pending && code != ""
    ensures var s := Run(codes, START, actions);
            ConfirmAtOnce(codes, Act(codes, s, StartEnrollment(secret)), w, code, recovery).user.enabled <==>
            Matching(codes, secret, code, s.clock).Some?
  {
    SwitchedOffForgets(codes, actions);
    AcceptedStepsIncrease(codes, actions);
    NewSecretConfirmedExactly(codes, actions, w, secret, code, recovery);
    hide Matching, Run, Act, ConfirmAtOnce;
  }

  /** A login that presented its code while the factor was on and finishes after it was switched
      off leaves a step behind: a code of the new secret is then accepted exactly when its step is
      above that one. */
  lemma LateRequestHoldsBackNewSecret(
      codes: Codes, s: State, w: nat, oldCode: string, secret: string, code: string, recovery: seq<string>)
    requires s.user.enabled && w !in s.pending && Presented(codes, s.user, oldCode, s.clock).Some?
    requires code != "" && Matching(codes, secret, code, s.clock).Some?
    ensures var late := Run(codes, s, [Present(w, oldCode), SwitchOff, Finish(w)]);
            var enrolled := Act(codes, late, StartEnrollment(secret));
            && !late.user.enabled && late.user.lastStep == Presented(codes, s.user, oldCode, s.clock)
            && enrolled.user.secret == Some(secret)
            && (ConfirmAtOnce(codes, enrolled, w, code, recovery).user.enabled <==>
                Matching(codes, secret, code, s.clock).value > Presented(codes, s.user, oldCode, s.clock).value)
  {
    hide Matching;
    var step := Presented(codes, s.user, oldCode, s.clock).value;
    var one := Act(codes, s, Present(w, oldCode));
    var off := Act(codes, one, SwitchOff);
    var late := Act(codes, off, Finish(w));
    RunOfThree(codes, s, Present(w, oldCode), SwitchOff, Finish(w));
    assert off.pending == s.pending[w := Attempt(step, s.clock, None)] && off.user == User(None, false, None, []);
    assert late.user == User(None, false, Some(step), []) && w !in late.pending;
    var enrolled := Act(codes, late, StartEnrollment(secret));
    assert enrolled.user == User(Some(secret), false, Some(step), []) && enrolled.clock == s.clock && w !in enrolled.pending;
    ConfirmAloneActivates(codes, enrolled, w, code, recovery);
    assert Verify(codes, enrolled.user, code, enrolled.clock).1 <==>
           Matching(codes, secret, code, s.clock).value > step;
    hide ConfirmAtOnce;
  }

  lemma RunOfThree(codes: Codes, s: State, a: Action, b: Action, c: Action)
    ensures Run(codes, s, [a, b, c]) == Act(codes, Act(codes, Act(codes, s, a), b), c)
  {
    hide Act;
    assert [a, b, c][..2] == [a, b] && [a, b][..1] == [a] && [a][..0] == [];
    assert Run(codes, s, [a]) == Act(codes, s, a);
    assert Run(codes, s, [a, b]) == Act(codes, Run(codes, s, [a]), b);
  }

  // ---------------------------------------------------------------- the secret that was confirmed

  /** The secret of which the factor that is on was given a code, if it was by the last confirmation. */
  function Confirmed(codes: Codes, s: State, actions: seq<Action>): Option<string> {
    if actions == [] then None
    else
      var before, last := Run(codes, s, actions[..|actions| - 1]), actions[|actions| - 1];
      if SwitchesOn(before, last) then Some(before.pending[last.worker].confirms.value.secret)
      else Confirmed(codes, s, actions[..|actions| - 1])
  }

  /** The step of a confirmation that switches the factor on. */
  predicate SwitchesOn(s: State, a: Action) {
    && a.Finish? && a.worker in s.pending && s.pending[a.worker].confirms.Some?
    && Fresh(s.user, s.pending[a.worker].step)
  }

  /** It switches on the secret its code was of. */
  predicate SecretStands(s: State, a: Action) {
    SwitchesOn(s, a) ==> s.user.secret == Some(s.pending[a.worker].confirms.value.secret)
  }

  /** A factor that is on has a secret, and a code of it was given when it was switched on. */
  ghost predicate OnWasConfirmed(codes: Codes, actions: seq<Action>) {
    var user := Run(codes, START, actions).user;
    user.enabled ==> user.secret.Some? && Confirmed(codes, START, actions) == user.secret
  }

  ghost predicate AlwaysConfirmed(codes: Codes, actions: seq<Action>) {
    forall n :: 0 <= n <= |actions| ==> OnWasConfirmed(codes, actions[..n])
  }

  ghost predicate SecretsStand(codes: Codes, actions: seq<Action>) {
    forall n :: 0 <= n < |actions| ==> SecretStands(Run(codes, START, actions[..n]), actions[n])
  }

  lemma NextStaysConfirmedExactly(codes: Codes, actions: seq<Action>, a: Action)
    requires OnWasConfirmed(codes, actions)
    ensures OnWasConfirmed(codes, actions + [a]) <==> SecretStands(Run(codes, START, actions), a)
  {
    hide Matching, Presented;
    assert (actions + [a])[..|actions|] == actions;
  }

  lemma NextSecretStands(codes: Codes, actions: seq<Action>, n: nat)
    requires n < |actions| && OnWasConfirmed(codes, actions[..n])
    ensures OnWasConfirmed(codes, actions[..n + 1]) <==> SecretStands(Run(codes, START, actions[..n]), actions[n])
  {
    hide OnWasConfirmed, SecretStands, Run;
    assert actions[..n + 1] == actions[..n] + [actions[n]];
    NextStaysConfirmedExactly(codes, actions[..n], actions[n]);
  }

  lemma {:induction false} StandingSecretsStayConfirmed(codes: Codes, actions: seq<Action>, n: nat)
    requires SecretsStand(codes, actions) && n <= |actions|
    ensures OnWasConfirmed(codes, actions[..n])
  {
    if n == 0 {
      assert actions[..0] == [];
    } else {
      hide OnWasConfirmed, SecretStands, Run;
      StandingSecretsStayConfirmed(codes, actions, n - 1);
      NextSecretStands(codes, actions, n - 1);
    }
  }

  /** At every moment of a run a factor that is on was confirmed with a code of its own secret, exactly
      when no confirmation finished after its secret was replaced or forgotten. */
  lemma AlwaysConfirmedExactly(codes: Codes, actions: seq<Action>)
    ensures AlwaysConfirmed(codes, actions) <==> SecretsStand(codes, actions)
  {
    hide OnWasConfirmed, SecretStands, Run;
    if SecretsStand(codes, actions) {
      forall n: nat | n <= |actions| ensures OnWasConfirmed(codes, actions[..n]) {
        StandingSecretsStayConfirmed(codes, actions, n);
      }
    }
    if AlwaysConfirmed(codes, actions) {
      forall n: nat | n < |actions| ensures SecretStands(Run(codes, START, actions[..n]), actions[n]) {
        NextSecretStands(codes, actions, n);
      }
    }
  }

  /** Replacing the secret while a confirmation is half-way switches on a secret no code of which was
      ever given. */
  lemma ReplacedSecretIsSwitchedOn(codes: Codes, s: State, w: nat, secret: string, code: string, recovery: seq<string>)
    requires !s.user.enabled && w !in s.pending
    requires Presented(codes, s.user, code, s.clock).Some? && Fresh(s.user, Presented(codes, s.user, code, s.clock).value)
    ensures var end := Run(codes, s, [Confirm(w, code, recovery), StartEnrollment(secret), Finish(w)]);
            end.user.enabled && end.user.secret == Some(secret)
  {
    hide Matching, Presented;
    RunOfThree(codes, s, Confirm(w, code, recovery), StartEnrollment(secret), Finish(w));
    hide Run;
  }
}
