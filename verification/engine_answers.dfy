/** What a call over several targets comes to, told from its parts, and the limits its names take. */
module EngineAnswers {
  import opened ActionLimiting
  import opened EngineMany
  import opened Wrappers
  import LimitRuns

  // ---------- the answer ----------

  predicate IsRead(resolution: Resolution) {
    resolution.ResolvedTo? && resolution.isRead
  }

  lemma NoError(errors: seq<Option<string>>)
    ensures FirstError(errors).None? <==> forall i | 0 <= i < |errors| :: errors[i].None?
  {
    FirstErrorIsFirst(errors);
  }

  lemma ResolutionsHold(resolutions: seq<Resolution>)
    ensures FirstError(ResolutionErrors(resolutions)).None?
            <==> forall i | 0 <= i < |resolutions| :: IsRead(resolutions[i])
  {
    NoError(ResolutionErrors(resolutions));
    hide FirstError;
    assert forall i | 0 <= i < |resolutions| :: ResolutionErrors(resolutions)[i].None? <==> IsRead(resolutions[i]);
  }

  lemma LimitsHold(limits: seq<LimitDecision>)
    ensures FirstError(LimitErrors(limits)).None? <==> forall i | 0 <= i < |limits| :: limits[i].Admitted?
  {
    NoError(LimitErrors(limits));
    hide FirstError;
    assert forall i | 0 <= i < |limits| :: LimitErrors(limits)[i].None? <==> limits[i].Admitted?;
  }

  lemma AttemptsHold(attempts: seq<Attempt>)
    ensures FirstError(AttemptErrors(attempts)).None?
            <==> forall i | 0 <= i < |attempts| :: attempts[i].fetch == None && attempts[i].pin == None
  {
    NoError(AttemptErrors(attempts));
    hide FirstError;
    assert forall i | 0 <= i < |attempts| ::
        AttemptErrors(attempts)[i].None? <==> attempts[i].fetch == None && attempts[i].pin == None;
  }

  /** A call succeeds exactly when every name resolves to a read, the connector allows them together, every limit admits
      its name, every credential is fetched and its destination pinned, and the run answers; its rows then say "ok". */
  lemma DoneExactly(names: seq<string>, resolutions: seq<Resolution>, isJointlyRefused: bool,
                    limits: seq<LimitDecision>, attempts: seq<Attempt>, end: RunEnd)
    requires |names| == |resolutions| == |attempts| == |limits|
    ensures var verdict := VerdictOf(names, resolutions, isJointlyRefused, limits, attempts, end);
            && (verdict.answer == Done <==>
                  && (forall i | 0 <= i < |names| :: IsRead(resolutions[i])) && !isJointlyRefused
                  && (forall i | 0 <= i < |names| :: limits[i].Admitted?)
                  && (forall i | 0 <= i < |names| :: attempts[i].fetch == None && attempts[i].pin == None)
                  && end == Answered)
            && (verdict.outcome == "ok" <==> verdict.answer == Done)
  {
    hide FirstError;
    ResolutionsHold(resolutions);
    LimitsHold(limits);
    AttemptsHold(attempts);
    OutcomesAreNotOk(names, resolutions, isJointlyRefused, limits, attempts, end);
  }

  lemma OutcomesAreNotOk(names: seq<string>, resolutions: seq<Resolution>, isJointlyRefused: bool,
                         limits: seq<LimitDecision>, attempts: seq<Attempt>, end: RunEnd)
    requires |names| == |resolutions| == |attempts| == |limits|
    ensures var verdict := VerdictOf(names, resolutions, isJointlyRefused, limits, attempts, end);
            verdict.answer != Done ==> |verdict.outcome| > 2
  {
    hide FirstError;
  }

  /** How a run that began is told: the connector's own code, or what kept it from answering; each row was reserved. */
  lemma RunTells(end: RunEnd)
    ensures var (verdict, code) := (AfterRun(end), match end
                                      case Answered => None
                                      case Failed(own) => Some(own)
                                      case Threw => Some("upstream_error")
                                      case TimedOut => Some("timeout")
                                      case NoRunMany => Some("connector_fault"));
            && verdict.isReserved
            && verdict.answer == (if code.None? then Done else Refusal(code.value, None))
            && verdict.outcome == if code.None? then "ok" else "error:" + code.value
  {
  }

  /** The outcome written for a code: denied for the ten a call is refused with before anything runs. */
  lemma OutcomeTells(code: string)
    ensures var codes := ["actions_disabled", "connector_disabled", "unknown_target", "target_disabled",
                          "target_invalid", "not_granted", "insufficient_scope", "invalid_arguments", "policy_denied",
                          "rate_limited"];
            OutcomeOf(code) == (if code in codes then "denied:" else "error:") + code
  {
  }

  predicate IsFine(attempt: EngineMany.Attempt) {
    attempt.fetch == None && attempt.pin == None
  }

  /** A refusal is for the first name that fails, and failures come in order: a name not resolved to a read, the
      connector's refusal of all the names together, a limit, a credential not fetched or a destination not pinned. */
  lemma {:induction false} FirstFailureTells(
    names: seq<string>, resolutions: seq<Resolution>, isJointlyRefused: bool, limits: seq<LimitDecision>,
    attempts: seq<EngineMany.Attempt>, end: RunEnd, i: nat)
    requires |names| == |resolutions| == |attempts| == |limits| && i < |names|
    ensures var told := VerdictOf(names, resolutions, isJointlyRefused, limits, attempts, end);
            var allRead := forall j | 0 <= j < |names| :: IsRead(resolutions[j]);
            var allAdmitted := forall j | 0 <= j < |names| :: limits[j].Admitted?;
            && ((forall j | 0 <= j < i :: IsRead(resolutions[j])) && !IsRead(resolutions[i]) ==>
                  var code := if resolutions[i].Unresolved? then resolutions[i].code else "connector_fault";
                  told == Verdict(Refusal(code, Some(names[i])), OutcomeOf(code), false))
            && (allRead && isJointlyRefused ==>
                  told == Verdict(Refusal("policy_denied", None), OutcomeOf("policy_denied"), false))
            && (allRead && !isJointlyRefused && (forall j | 0 <= j < i :: limits[j].Admitted?) && limits[i].Denied? ==>
                  told == Verdict(Refusal("rate_limited", Some(names[i])), OutcomeOf("rate_limited"), false))
            && (allRead && !isJointlyRefused && allAdmitted && (forall j | 0 <= j < i :: IsFine(attempts[j]))
                && !IsFine(attempts[i]) ==>
                  var code := if attempts[i].fetch.Some? then attempts[i].fetch.value else attempts[i].pin.value;
                  told == Verdict(Refusal(code, Some(names[i])), OutcomeOf(code), false))
  {
    ResolutionsHold(resolutions);
    LimitsHold(limits);
    hide FirstError, OutcomeOf;
    if (forall j | 0 <= j < i :: IsRead(resolutions[j])) && !IsRead(resolutions[i]) {
      FirstErrorAt(ResolutionErrors(resolutions), Some(i));
    }
    if (forall j | 0 <= j < i :: limits[j].Admitted?) && limits[i].Denied? {
      FirstErrorAt(LimitErrors(limits), Some(i));
    }
    if (forall j | 0 <= j < i :: IsFine(attempts[j])) && !IsFine(attempts[i]) {
      FirstErrorAt(AttemptErrors(attempts), Some(i));
    }
  }

  /** The credentials fetched are those before which nothing failed. */
  lemma {:induction false} FetchedExactly(attempts: seq<EngineMany.Attempt>, i: nat)
    requires i < |attempts|
    ensures FetchedBy(attempts) <= |attempts|
    ensures i < FetchedBy(attempts) <==> attempts[i].fetch == None && forall j | 0 <= j < i :: IsFine(attempts[j])
  {
    var errors := AttemptErrors(attempts);
    FirstErrorIsFirst(errors);
    AttemptsHold(attempts);
    hide FirstError;
    assert forall j | 0 <= j < |attempts| :: errors[j].None? <==> IsFine(attempts[j]);
  }

  /** The names of a call: distinct, one to `max`, and one only where an argument goes with one only. */
  lemma GoodRepoIs(names: seq<string>, max: nat, hasSingleOnly: bool)
    ensures IsGoodRepo(names, max, hasSingleOnly) <==>
              && 0 < |names| <= max && (hasSingleOnly ==> |names| == 1)
              && forall i, j | 0 <= i < j < |names| :: names[i] != names[j]
  {
    CountedApart(names);
  }

  lemma {:induction false} CountedApart(names: seq<string>)
    ensures |set name | name in names| <= |names|
    ensures |set name | name in names| == |names| <==> forall i, j | 0 <= i < j < |names| :: names[i] != names[j]
  {
    if names != [] {
      var front, last := names[..|names| - 1], names[|names| - 1];
      CountedApart(front);
      assert names == front + [last];
      assert (set name | name in names) == (set name | name in front) + {last};
      if last in front {
        assert (set name | name in names) == (set name | name in front);
        var i :| 0 <= i < |front| && front[i] == last;
        assert names[i] == names[|names| - 1];
      } else {
        assert |(set name | name in front) + {last}| == |set name | name in front| + 1;
        assert forall i | 0 <= i < |front| :: names[i] == front[i] && front[i] in front;
      }
    }
  }

  // ---------- the limits ----------

  /** One name's attempt on the limits: on its own target and budget, of the calling client. */
  function AttemptOf(resolution: Resolution, clientId: string, at: int): LimitRuns.Attempt
    requires IsRead(resolution)
  {
    LimitRuns.Attempt([], LimitKey(resolution.targetId, clientId, resolution.perMinute), at)
  }

  ghost predicate AreAttempts(attempts: seq<LimitRuns.Attempt>, resolutions: seq<Resolution>, clientId: string,
                              ats: seq<int>) {
    && |attempts| == |resolutions| == |ats|
    && forall i | 0 <= i < |ats| :: IsRead(resolutions[i]) && attempts[i] == AttemptOf(resolutions[i], clientId, ats[i])
  }

  lemma OneMoreAttempt(run: seq<LimitRuns.Attempt>, n: nat)
    requires n < |run|
    ensures (LimitRuns.AfterRun(run, n + 1), LimitRuns.Answer(run, n))
            == Acquired(LimitRuns.Freed(LimitRuns.AfterRun(run, n), run[n].freed), run[n].key, run[n].at)
  {
    hide Acquired, LimitRuns.Freed;
  }

  lemma NothingFreed(l: Limits)
    ensures LimitRuns.Freed(l, []) == l
  {
  }

  lemma {:induction false} SameBeginning(run: seq<LimitRuns.Attempt>, more: seq<LimitRuns.Attempt>, n: nat)
    requires n <= |run|
    ensures LimitRuns.AfterRun(run + more, n) == LimitRuns.AfterRun(run, n)
  {
    hide Acquired, LimitRuns.Freed;
    if n > 0 {
      SameBeginning(run, more, n - 1);
      assert (run + more)[n - 1] == run[n - 1];
    }
  }

  lemma {:induction false} TakenInTurn(before: seq<LimitRuns.Attempt>, attempts: seq<LimitRuns.Attempt>,
                                       resolutions: seq<Resolution>, clientId: string, ats: seq<int>, n: nat)
    requires AreAttempts(attempts, resolutions, clientId, ats) && n <= |ats|
    ensures var (after, decisions) := AcquiredAll(LimitRuns.AfterRun(before, |before|),
                                                  LimitKeys(resolutions, clientId)[..n], ats[..n]);
            && after == LimitRuns.AfterRun(before + attempts, |before| + n)
            && forall i | 0 <= i < n :: decisions[i] == LimitRuns.Answer(before + attempts, |before| + i)
  {
    hide Acquired, LimitRuns.Freed, LimitRuns.AfterRun, LimitRuns.Answer;
    var keys, run, l := LimitKeys(resolutions, clientId), before + attempts, LimitRuns.AfterRun(before, |before|);
    if n == 0 {
      SameBeginning(before, attempts, |before|);
    } else {
      TakenInTurn(before, attempts, resolutions, clientId, ats, n - 1);
      OneMoreAcquired(l, keys, ats, n - 1);
      OneMoreAttempt(run, |before| + n - 1);
      assert run[|before| + n - 1] == attempts[n - 1];
      assert keys[n - 1] == attempts[n - 1].key && attempts[n - 1].freed == [];
      NothingFreed(LimitRuns.AfterRun(run, |before| + n - 1));
      hide AcquiredAll;
    }
  }

  /** After any run of attempts, the limits a call's names take one after another are those of the run continued by one
      attempt for each. */
  lemma NamesAreAttempts(before: seq<LimitRuns.Attempt>, attempts: seq<LimitRuns.Attempt>,
                         resolutions: seq<Resolution>, clientId: string, ats: seq<int>)
    requires AreAttempts(attempts, resolutions, clientId, ats)
    ensures var (after, decisions) :=
              AcquiredAll(LimitRuns.AfterRun(before, |before|), LimitKeys(resolutions, clientId), ats);
            && after == LimitRuns.AfterRun(before + attempts, |before + attempts|)
            && forall i | 0 <= i < |ats| :: decisions[i] == LimitRuns.Answer(before + attempts, |before| + i)
  {
    hide Acquired, AcquiredAll, LimitRuns.Freed, LimitRuns.AfterRun, LimitRuns.Answer;
    TakenInTurn(before, attempts, resolutions, clientId, ats, |ats|);
    assert LimitKeys(resolutions, clientId)[..|ats|] == LimitKeys(resolutions, clientId) && ats[..|ats|] == ats;
  }
}
