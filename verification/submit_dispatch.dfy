/**
 * One `submit` event as the page dispatches it. The listeners main.js attaches
 * to the form run first (at the target): `handleFormSubmit`, then, on the
 * contact form, the contact listener. The event then bubbles to the document,
 * where security.js has registered the submit guard and, after it, the
 * honeypot check. `preventDefault` does not stop propagation, so every
 * listener runs; and since both `handleFormSubmit` and the guard consult the
 * form-submission limit, a valid submission is counted twice.
 */
module SubmitDispatch {
  import opened Wrappers
  import opened RateLimiter
  import opened ActivityDetector
  import opened SecurityManager
  import opened FormValidation

  /** The state the listeners share. `security` tells whether `window.securityManager`
      exists, that is whether security.js is loaded. */
  datatype Page = Page(log: Log, detector: Detector, security: bool)

  /** The submitted form: its controls, whether it has a submit control `submitForm` can
      relabel, and whether it is the contact form. */
  datatype Form = Form(fields: seq<Field>, submitControl: bool, contact: bool)

  /** `outcome` is how `handleFormSubmit` ended (`Sent` is the simulated send),
      `contactSent` whether the contact listener handed the data on, and `guard` the
      document-level guard's verdict when security.js is loaded. */
  datatype Dispatched = Dispatched(page: Page, outcome: FormOutcome, contactSent: bool, guard: Option<GuardVerdict>)

  /** Every control `handleFormSubmit` checks passes `validateField`. */
  predicate ValidForm(fields: seq<Field>) {
    forall f :: f in fields && CheckedOnSubmit(f) ==> ValidateField(f)
  }

  function Submit(p: Page, form: Form, policies: Policies, client: string, now: int): (r: Dispatched)
    ensures r.page.security == p.security && (r.guard.Some? <==> p.security)
    // the contact listener looks at nothing but the three values
    ensures r.contactSent <==> form.contact && ContactReady(form.fields)
    // without security.js nothing is counted and nothing is flagged
    ensures !p.security ==> r.page == p && r.outcome == if ValidForm(form.fields) then SubmitForm(form.submitControl) else InvalidFields
    // with it, a valid form is checked against the limit twice and an invalid one once
    ensures p.security && ValidForm(form.fields) ==>
              var d1 := IsAllowed(p.log, policies, client, FormSubmission, now);
              var d2 := IsAllowed(d1.log, policies, client, FormSubmission, now);
              r.page.log == d2.log && r.outcome == (if d1.allowed then SubmitForm(form.submitControl) else TooManyRequests)
    ensures p.security && !ValidForm(form.fields) ==>
              r.page.log == IsAllowed(p.log, policies, client, FormSubmission, now).log && r.outcome == InvalidFields
    // only the honeypot listener touches the detector
    ensures p.security ==> r.page.detector == Step(p.detector, HoneypotCheck(HoneypotValue(form.fields)))
  {
    var handled := HandleFormSubmit(form.fields, form.submitControl, p.log, policies, client, now, p.security);
    var contactSent := form.contact && ContactReady(form.fields);
    if !p.security then
      Dispatched(p, handled.outcome, contactSent, None)
    else
      var guarded := SubmitGuard(handled.log, policies, client, p.detector, now);
      var detector := Step(p.detector, HoneypotCheck(HoneypotValue(form.fields)));
      Dispatched(Page(guarded.log, detector, true), handled.outcome, contactSent, Some(guarded.verdict))
  }

  /** With security.js loaded a valid submission is the same as two checks of the limit at
      the same time, the first of which decides whether the form reaches `submitForm`. */
  lemma ValidSubmitChecksTwice(p: Page, form: Form, policies: Policies, client: string, now: int)
    requires p.security && ValidForm(form.fields)
    ensures var r := Submit(p, form, policies, client, now);
            var two := Run(p.log, policies, client, FormSubmission, [now, now]);
            r.page.log == two.log && (ReachedSubmitForm(r.outcome) <==> two.results[0]) && r.outcome != InvalidFields
  {
    TwoChecks(p.log, policies, client, now);
  }

  /** The bot verdict is read by the guard only after `handleFormSubmit` has already sent
      (or refused) the form, so it never changes what is sent or counted. */
  lemma BotVerdictDoesNotStopSend(p: Page, d: Detector, form: Form, policies: Policies, client: string, now: int)
    ensures Submit(p.(detector := d), form, policies, client, now).outcome == Submit(p, form, policies, client, now).outcome
    ensures Submit(p.(detector := d), form, policies, client, now).page.log == Submit(p, form, policies, client, now).page.log
  {
  }

  /** The contact form hands its data on whatever the validation, the limiter and the
      detector say. */
  lemma ContactCheckIgnoresGuards(p: Page, q: Page, form: Form, policies: Policies, client: string, now: int)
    ensures Submit(p, form, policies, client, now).contactSent == Submit(q, form, policies, client, now).contactSent
  {
  }

  /** A filled honeypot flags the session, but only later submissions see the flag. */
  lemma FilledHoneypotFlagsLater(p: Page, form: Form, policies: Policies, client: string, now: int)
    requires p.security && Filled(HoneypotValue(form.fields))
    ensures var r := Submit(p, form, policies, client, now);
            IsBot(r.page.detector) && r.page.detector.botFlags == p.detector.botFlags + 1
            && r.guard == Some(SubmitGuard(HandleFormSubmit(form.fields, form.submitControl, p.log, policies, client, now, true).log,
                                           policies, client, p.detector, now).verdict)
  {
  }

  /** The outcomes of the same form submitted at each of `times`, and the page they leave. */
  datatype Session = Session(outcomes: seq<FormOutcome>, page: Page)

  function SubmitRun(p: Page, form: Form, policies: Policies, client: string, times: seq<int>): (s: Session)
    ensures |s.outcomes| == |times|
    decreases |times|
  {
    if times == [] then Session([], p)
    else
      var r := Submit(p, form, policies, client, times[0]);
      var rest := SubmitRun(r.page, form, policies, client, times[1..]);
      Session([r.outcome] + rest.outcomes, rest.page)
  }

  /** Each time twice in a row: the checks the limiter sees from a session of valid submissions. */
  function Doubled(times: seq<int>): (r: seq<int>)
    ensures |r| == 2 * |times|
    ensures forall i :: 0 <= i < |r| ==> r[i] == times[i / 2]
  {
    seq(2 * |times|, i requires 0 <= i < 2 * |times| => times[i / 2])
  }

  lemma DoubledCons(times: seq<int>)
    requires times != []
    ensures Doubled(times) == [times[0], times[0]] + Doubled(times[1..])
  {
    var d, rest := Doubled(times), Doubled(times[1..]);
    forall i | 2 <= i < |d| ensures d[i] == rest[i - 2] {
      assert (i - 2) / 2 == i / 2 - 1;
    }
  }

  lemma DoubledWithinSpan(times: seq<int>, window: int)
    requires window > 0 && WithinSpan(times, window)
    ensures WithinSpan(Doubled(times), window)
  {
    var d := Doubled(times);
    forall i, j | 0 <= i < j < |d| ensures d[j] - d[i] < window {
      if i / 2 < j / 2 {
        assert d[j] - d[i] == times[j / 2] - times[i / 2];
      }
    }
  }

  /** What the limiter makes of a session of valid submissions: each time is checked twice
      in a row, and the first check decides whether the form reaches `submitForm`. */
  datatype Checks = Checks(sent: seq<bool>, log: Log)

  function DoubleChecks(log: Log, policies: Policies, client: string, times: seq<int>): (c: Checks)
    ensures |c.sent| == |times|
    decreases |times|
  {
    if times == [] then Checks([], log)
    else
      var d1 := IsAllowed(log, policies, client, FormSubmission, times[0]);
      var d2 := IsAllowed(d1.log, policies, client, FormSubmission, times[0]);
      var rest := DoubleChecks(d2.log, policies, client, times[1..]);
      Checks([d1.allowed] + rest.sent, rest.log)
  }

  /** A session of valid submissions with security.js loaded leaves the log the double
      checks leave ... */
  lemma {:induction false} SessionLogFollowsChecks(p: Page, form: Form, policies: Policies, client: string, times: seq<int>)
    requires p.security && ValidForm(form.fields)
    ensures SubmitRun(p, form, policies, client, times).page.log == DoubleChecks(p.log, policies, client, times).log
    decreases |times|
  {
    if times != [] {
      var r := Submit(p, form, policies, client, times[0]);
      SessionLogFollowsChecks(r.page, form, policies, client, times[1..]);
    }
  }

  /** ... and reaches `submitForm` the i-th time exactly when the first of the i-th pair of checks admits. */
  lemma {:induction false} SessionFollowsChecks(p: Page, form: Form, policies: Policies, client: string, times: seq<int>, i: nat)
    requires p.security && ValidForm(form.fields) && i < |times|
    ensures SubmitRun(p, form, policies, client, times).outcomes[i]
            == if DoubleChecks(p.log, policies, client, times).sent[i] then SubmitForm(form.submitControl) else TooManyRequests
    decreases i
  {
    var t := times[0];
    var r := Submit(p, form, policies, client, t);
    var d1 := IsAllowed(p.log, policies, client, FormSubmission, t);
    var d2 := IsAllowed(d1.log, policies, client, FormSubmission, t);
    assert r.page.security && r.page.log == d2.log && r.outcome == (if d1.allowed then SubmitForm(form.submitControl) else TooManyRequests);
    var s := SubmitRun(p, form, policies, client, times);
    var c := DoubleChecks(p.log, policies, client, times);
    SubmitRunStep(p, form, policies, client, times);
    DoubleChecksStep(p.log, policies, client, times);
    if i > 0 {
      var rest := SubmitRun(r.page, form, policies, client, times[1..]);
      var later := DoubleChecks(d2.log, policies, client, times[1..]);
      SessionFollowsChecks(r.page, form, policies, client, times[1..], i - 1);
      assert s.outcomes[i] == rest.outcomes[i - 1] && c.sent[i] == later.sent[i - 1];
    }
  }

  lemma DoubleChecksStep(log: Log, policies: Policies, client: string, times: seq<int>)
    requires times != []
    ensures var d1 := IsAllowed(log, policies, client, FormSubmission, times[0]);
            var d2 := IsAllowed(d1.log, policies, client, FormSubmission, times[0]);
            var c := DoubleChecks(log, policies, client, times);
            var rest := DoubleChecks(d2.log, policies, client, times[1..]);
            && c.sent[0] == d1.allowed
            && c.log == rest.log
            && forall i :: 1 <= i < |times| ==> c.sent[i] == rest.sent[i - 1]
  {
    var d1 := IsAllowed(log, policies, client, FormSubmission, times[0]);
    var d2 := IsAllowed(d1.log, policies, client, FormSubmission, times[0]);
    var rest := DoubleChecks(d2.log, policies, client, times[1..]);
    var head := [d1.allowed];
    assert DoubleChecks(log, policies, client, times) == Checks(head + rest.sent, rest.log);
    forall i | 1 <= i < |times| ensures (head + rest.sent)[i] == rest.sent[i - 1] {
    }
  }

  /** The first submission of a session, then the session of the remaining times. */
  lemma SubmitRunStep(p: Page, form: Form, policies: Policies, client: string, times: seq<int>)
    requires times != []
    ensures var r := Submit(p, form, policies, client, times[0]);
            var s := SubmitRun(p, form, policies, client, times);
            var rest := SubmitRun(r.page, form, policies, client, times[1..]);
            && s.outcomes[0] == r.outcome
            && s.page == rest.page
            && forall i :: 1 <= i < |times| ==> s.outcomes[i] == rest.outcomes[i - 1]
  {
    var r := Submit(p, form, policies, client, times[0]);
    var rest := SubmitRun(r.page, form, policies, client, times[1..]);
    var head := [r.outcome];
    assert SubmitRun(p, form, policies, client, times) == Session(head + rest.outcomes, rest.page);
    forall i | 1 <= i < |times| ensures (head + rest.outcomes)[i] == rest.outcomes[i - 1] {
    }
  }

  /** The double checks leave the log of the run of every time taken twice ... */
  lemma {:induction false} DoubleChecksLogIsDoubledRun(log: Log, policies: Policies, client: string, times: seq<int>)
    ensures DoubleChecks(log, policies, client, times).log
            == Run(log, policies, client, FormSubmission, Doubled(times)).log
    decreases |times|
  {
    if times == [] {
      assert Doubled(times) == [];
    } else {
      var d1 := IsAllowed(log, policies, client, FormSubmission, times[0]);
      var d2 := IsAllowed(d1.log, policies, client, FormSubmission, times[0]);
      DoubleChecksStep(log, policies, client, times);
      DoubledRunStep(log, policies, client, times);
      DoubleChecksLogIsDoubledRun(d2.log, policies, client, times[1..]);
    }
  }

  /** ... and the i-th submission reaches `submitForm` exactly when the (2·i)-th check of that run admits. */
  lemma {:induction false} DoubleChecksIsDoubledRun(log: Log, policies: Policies, client: string, times: seq<int>, i: nat)
    requires i < |times|
    ensures DoubleChecks(log, policies, client, times).sent[i]
            == Run(log, policies, client, FormSubmission, Doubled(times)).results[2 * i]
    decreases i
  {
    var t := times[0];
    var d1 := IsAllowed(log, policies, client, FormSubmission, t);
    var d2 := IsAllowed(d1.log, policies, client, FormSubmission, t);
    var c := DoubleChecks(log, policies, client, times);
    var run := Run(log, policies, client, FormSubmission, Doubled(times));
    var later := DoubleChecks(d2.log, policies, client, times[1..]);
    var rest := Run(d2.log, policies, client, FormSubmission, Doubled(times[1..]));
    assert c.sent[i] == if i == 0 then d1.allowed else later.sent[i - 1] by {
      DoubleChecksStep(log, policies, client, times);
    }
    assert run.results[2 * i] == if i == 0 then d1.allowed else rest.results[2 * i - 2] by {
      DoubledRunStep(log, policies, client, times);
    }
    if i > 0 {
      DoubleChecksIsDoubledRun(d2.log, policies, client, times[1..], i - 1);
    }
  }

  /** The doubled run, one submission time at a time. */
  lemma DoubledRunStep(log: Log, policies: Policies, client: string, times: seq<int>)
    requires times != []
    ensures var d1 := IsAllowed(log, policies, client, FormSubmission, times[0]);
            var d2 := IsAllowed(d1.log, policies, client, FormSubmission, times[0]);
            var run := Run(log, policies, client, FormSubmission, Doubled(times));
            var later := Run(d2.log, policies, client, FormSubmission, Doubled(times[1..]));
            && run.results[0] == d1.allowed
            && run.log == later.log
            && (forall i :: 2 <= i < |run.results| ==> run.results[i] == later.results[i - 2])
  {
    var t := times[0];
    DoubledCons(times);
    var tail := Doubled(times[1..]);
    var d1 := IsAllowed(log, policies, client, FormSubmission, t);
    assert ([t, t] + tail)[1..] == [t] + tail;
    assert ([t] + tail)[1..] == tail;
    RunStep(log, policies, client, FormSubmission, [t, t] + tail);
    RunStep(d1.log, policies, client, FormSubmission, [t] + tail);
  }

  /** Two checks at the same time: the second sees the log the first left. */
  lemma TwoChecks(log: Log, policies: Policies, client: string, now: int)
    ensures var d1 := IsAllowed(log, policies, client, FormSubmission, now);
            var d2 := IsAllowed(d1.log, policies, client, FormSubmission, now);
            Run(log, policies, client, FormSubmission, [now, now]) == Trace([d1.allowed, d2.allowed], d2.log)
  {
    var d1 := IsAllowed(log, policies, client, FormSubmission, now);
    var d2 := IsAllowed(d1.log, policies, client, FormSubmission, now);
    assert [now, now][1..] == [now];
    assert [now][1..] == [];
    var one := Run(d1.log, policies, client, FormSubmission, [now]);
    assert Run(d2.log, policies, client, FormSubmission, []) == Trace([], d2.log);
    assert [d2.allowed] + [] == [d2.allowed];
    assert one == Trace([d2.allowed], d2.log);
    assert [d1.allowed] + [d2.allowed] == [d1.allowed, d2.allowed];
  }

  /** From a fresh key, inside one window, the i-th valid submission reaches `submitForm` exactly when
      2·i is below the form-submission maximum: the limit is effectively halved. */
  lemma SendsPerWindow(p: Page, form: Form, policies: Policies, client: string, times: seq<int>)
    requires p.security && ValidForm(form.fields)
    requires FormSubmission in policies && policies[FormSubmission].window > 0
    requires Key(client, FormSubmission) !in p.log
    requires WithinSpan(times, policies[FormSubmission].window)
    ensures var s := SubmitRun(p, form, policies, client, times);
            forall i :: 0 <= i < |times| ==>
              s.outcomes[i] == if 2 * i < policies[FormSubmission].max then SubmitForm(form.submitControl) else TooManyRequests
  {
    var window := policies[FormSubmission].window;
    SessionLogFollowsChecks(p, form, policies, client, times);
    forall i | 0 <= i < |times| {
      SessionFollowsChecks(p, form, policies, client, times, i);
    }
    forall i | 0 <= i < |times| {
      DoubleChecksIsDoubledRun(p.log, policies, client, times, i);
    }
    DoubledWithinSpan(times, window);
    assert Entries(p.log, Key(client, FormSubmission)) + Doubled(times) == Doubled(times);
    RunWithinWindow(p.log, policies, client, FormSubmission, Doubled(times));
  }

  /** With the default policy of five submissions a minute, only three valid submissions a
      minute reach `submitForm`; the fourth is refused. */
  lemma ThreeSendsPerMinute(p: Page, form: Form, client: string, times: seq<int>)
    requires p.security && ValidForm(form.fields)
    requires Key(client, FormSubmission) !in p.log
    requires |times| == 4 && WithinSpan(times, 60000)
    ensures var sent := SubmitForm(form.submitControl);
            SubmitRun(p, form, DefaultPolicies, client, times).outcomes == [sent, sent, sent, TooManyRequests]
  {
    SendsPerWindow(p, form, DefaultPolicies, client, times);
    var max := DefaultPolicies[FormSubmission].max;
    assert max == 5;
  }

  /** With one slot left, a valid submission takes it in `handleFormSubmit` and reaches
      `submitForm`; the guard, checking second, is refused and shows the rate-limit warning
      although the form went out. */
  lemma LastSlotSendsAndWarns(p: Page, form: Form, policies: Policies, client: string, now: int)
    requires p.security && ValidForm(form.fields)
    requires FormSubmission in policies && policies[FormSubmission].window > 0
    requires forall t :: t in Entries(p.log, Key(client, FormSubmission)) ==> Live(t, now, policies[FormSubmission].window)
    requires |Entries(p.log, Key(client, FormSubmission))| + 1 == policies[FormSubmission].max
    ensures var r := Submit(p, form, policies, client, now);
            && r.outcome == SubmitForm(form.submitControl)
            && r.guard == Some(RateLimited)
            && Entries(r.page.log, Key(client, FormSubmission)) == Entries(p.log, Key(client, FormSubmission)) + [now]
  {
    var key := Key(client, FormSubmission);
    var window := policies[FormSubmission].window;
    var d1 := IsAllowed(p.log, policies, client, FormSubmission, now);
    CheckWithAllLive(p.log, policies, client, FormSubmission, now);
    assert forall t :: t in Entries(d1.log, key) ==> Live(t, now, window);
    CheckWithAllLive(d1.log, policies, client, FormSubmission, now);
  }

  /** An invalid submission is not sent, yet the guard still counts it. */
  lemma InvalidSubmitUsesOneSlot(p: Page, form: Form, policies: Policies, client: string, now: int)
    requires p.security && !ValidForm(form.fields)
    requires FormSubmission in policies && policies[FormSubmission].max > 0
    requires Key(client, FormSubmission) !in p.log
    ensures var r := Submit(p, form, policies, client, now);
            r.outcome == InvalidFields && Entries(r.page.log, Key(client, FormSubmission)) == [now]
  {
  }
}
