/**
 * The sliding-window rate limiter of the security layer (`RateLimiter` in
 * js/security.js). Under the key "<client id>_<action>" it keeps the
 * timestamps, in milliseconds, of the attempts it accepted recently. A check
 * drops the timestamps that have left the action's window, refuses when as
 * many as the action's maximum remain, and otherwise records `now`.
 *
 * The clock and the client id are parameters: the source reads `Date.now()`
 * and a client id persisted in local storage.
 */
module RateLimiter {

  /** The limit configured for one action: at most `max` attempts in any `window` milliseconds. */
  datatype Policy = Policy(max: int, window: int)

  type Policies = map<string, Policy>

  /** The request map: one timestamp log per storage key. */
  type Log = map<string, seq<int>>

  const FormSubmission := "form_submission"
  const PageRequest := "page_request"
  const ApiCall := "api_call"

  const DefaultPolicies: Policies := map[
    FormSubmission := Policy(5, 60000),
    PageRequest := Policy(50, 60000),
    ApiCall := Policy(10, 60000)]

  /** The storage key `${clientId}_${action}`. */
  function Key(client: string, action: string): string {
    client + "_" + action
  }

  /** The log stored under `key`; a key never used reads as the empty log. */
  function Entries(log: Log, key: string): seq<int> {
    if key in log then log[key] else []
  }

  /** A timestamp still counts at `now` while it is less than `window` milliseconds old. */
  predicate Live(t: int, now: int, window: int) {
    now - t < window
  }

  /** The timestamps of `ts` still live at `now`, in their original order (the source's `filter`). */
  function Recent(ts: seq<int>, now: int, window: int): (r: seq<int>)
    ensures |r| <= |ts|
    ensures forall t :: t in r <==> t in ts && Live(t, now, window)
  {
    if ts == [] then []
    else
      assert ts == [ts[0]] + ts[1..];
      var rest := Recent(ts[1..], now, window);
      if Live(ts[0], now, window) then [ts[0]] + rest else rest
  }

  /** The filter keeps every live occurrence and drops every expired one: as multisets,
      the result is the live part of the input. */
  lemma {:induction false} RecentKeepsLiveCounts(ts: seq<int>, now: int, window: int)
    ensures forall t :: multiset(Recent(ts, now, window))[t] == if Live(t, now, window) then multiset(ts)[t] else 0
  {
    if ts != [] {
      assert ts == [ts[0]] + ts[1..];
      RecentKeepsLiveCounts(ts[1..], now, window);
    }
  }

  datatype Decision = Decision(allowed: bool, log: Log)

  /** `isAllowed(action)` for the client `client` at time `now`. */
  function IsAllowed(log: Log, policies: Policies, client: string, action: string, now: int): (d: Decision)
    // an action without a policy fails open and is not recorded
    ensures action !in policies ==> d.allowed && d.log == log
    // the verdict: refused exactly when the live timestamps already reach the maximum
    ensures action in policies ==>
              (d.allowed <==> |Recent(Entries(log, Key(client, action)), now, policies[action].window)| < policies[action].max)
    // a refusal records nothing
    ensures !d.allowed ==> d.log == log
    // an admission stores the live old timestamps followed by `now`, so the log never exceeds the maximum
    ensures d.allowed && action in policies ==>
              var key := Key(client, action);
              var stored := Entries(d.log, key);
              && key in d.log
              && |stored| <= policies[action].max
              && stored == Recent(Entries(log, key), now, policies[action].window) + [now]
  {
    if action !in policies then Decision(true, log)
    else
      var limit := policies[action];
      var key := Key(client, action);
      var valid := Recent(Entries(log, key), now, limit.window);
      if |valid| >= limit.max then Decision(false, log)
      else Decision(true, log[key := valid + [now]])
  }

  /** A check writes only the key of its client and action. */
  lemma OnlyKeyChanges(log: Log, policies: Policies, client: string, action: string, now: int)
    ensures var d := IsAllowed(log, policies, client, action, now);
            && (forall k :: k != Key(client, action) ==> (k in d.log <==> k in log) && Entries(d.log, k) == Entries(log, k))
            && d.log.Keys <= log.Keys + {Key(client, action)}
  {
  }

  /** `reset(action)`: forget the client's log for the action. */
  function Reset(log: Log, client: string, action: string): (r: Log)
    ensures Key(client, action) !in r
    ensures forall k :: k != Key(client, action) ==> (k in r <==> k in log) && Entries(r, k) == Entries(log, k)
  {
    log - {Key(client, action)}
  }

  /** The outcomes of consecutive checks of one action, and the log they leave. */
  datatype Trace = Trace(results: seq<bool>, log: Log)

  function Run(log: Log, policies: Policies, client: string, action: string, times: seq<int>): (t: Trace)
    ensures |t.results| == |times|
    decreases |times|
  {
    if times == [] then Trace([], log)
    else
      var d := IsAllowed(log, policies, client, action, times[0]);
      var rest := Run(d.log, policies, client, action, times[1..]);
      Trace([d.allowed] + rest.results, rest.log)
  }

  /** Every later time is less than `window` after every earlier one. */
  ghost predicate WithinSpan(times: seq<int>, window: int) {
    forall i, j :: 0 <= i < j < |times| ==> times[j] - times[i] < window
  }

  ghost predicate Chronological(ts: seq<int>) {
    forall i, j :: 0 <= i < j < |ts| ==> ts[i] <= ts[j]
  }

  /** For one client the key determines the action ... */
  lemma KeyDeterminesAction(client: string, a: string, b: string)
    requires Key(client, a) == Key(client, b)
    ensures a == b
  {
    assert a == Key(client, a)[|client| + 1..];
    assert b == Key(client, b)[|client| + 1..];
  }

  /** ... and for one action it determines the client. */
  lemma KeyDeterminesClient(c: string, e: string, action: string)
    requires Key(c, action) == Key(e, action)
    ensures c == e
  {
    assert c == Key(c, action)[..|c|];
    assert e == Key(e, action)[..|e|];
  }

  /** The key is a plain concatenation, so two different clients using two
      different actions can share a key. */
  lemma KeysOfDifferentClientsCanCollide()
    ensures Key("client_1_form", "submission") == Key("client_1", FormSubmission)
  {
  }

  /** Checking an action never changes the log of another action of the same client. */
  lemma ActionsAreIndependent(log: Log, policies: Policies, client: string, action: string, other: string, now: int)
    requires other != action
    ensures Entries(IsAllowed(log, policies, client, action, now).log, Key(client, other)) == Entries(log, Key(client, other))
  {
    if Key(client, other) == Key(client, action) {
      KeyDeterminesAction(client, other, action);
    }
  }

  /** Checking an action for one client never changes another client's log for that action. */
  lemma ClientsAreIndependent(log: Log, policies: Policies, client: string, other: string, action: string, now: int)
    requires other != client
    ensures Entries(IsAllowed(log, policies, client, action, now).log, Key(other, action)) == Entries(log, Key(other, action))
  {
    if Key(other, action) == Key(client, action) {
      KeyDeterminesClient(other, client, action);
    }
  }

  /** Every stored log of the client is within its action's maximum. */
  ghost predicate Bounded(log: Log, policies: Policies, client: string) {
    forall a :: a in policies && Key(client, a) in log ==> |log[Key(client, a)]| <= policies[a].max
  }

  lemma BoundedIsPreserved(log: Log, policies: Policies, client: string, action: string, now: int)
    requires Bounded(log, policies, client)
    ensures Bounded(IsAllowed(log, policies, client, action, now).log, policies, client)
  {
    var d := IsAllowed(log, policies, client, action, now);
    forall a | a in policies && Key(client, a) in d.log
      ensures |d.log[Key(client, a)]| <= policies[a].max
    {
      if a != action {
        ActionsAreIndependent(log, policies, client, action, a, now);
      }
    }
  }

  /** After `reset(action)` the next check is refused only by a policy whose maximum is zero. */
  lemma AllowedAfterReset(log: Log, policies: Policies, client: string, action: string, now: int)
    ensures IsAllowed(Reset(log, client, action), policies, client, action, now).allowed
            <==> (action !in policies || policies[action].max > 0)
  {
  }

  /** Filtering distributes over concatenation: the filter keeps insertion order. */
  lemma {:induction false} RecentAppend(a: seq<int>, b: seq<int>, now: int, window: int)
    ensures Recent(a + b, now, window) == Recent(a, now, window) + Recent(b, now, window)
  {
    if a == [] {
      assert a + b == b;
    } else {
      assert (a + b)[0] == a[0];
      assert (a + b)[1..] == a[1..] + b;
      RecentAppend(a[1..], b, now, window);
    }
  }

  /** A log whose timestamps are all live is kept whole. */
  lemma {:induction false} RecentKeepsLive(ts: seq<int>, now: int, window: int)
    requires forall i :: 0 <= i < |ts| ==> Live(ts[i], now, window)
    ensures Recent(ts, now, window) == ts
  {
    if ts != [] {
      RecentKeepsLive(ts[1..], now, window);
    }
  }

  lemma FirstIsEarliest(ts: seq<int>)
    requires ts != [] && Chronological(ts)
    ensures forall t :: t in ts[1..] ==> ts[0] <= t
  {
    forall t | t in ts[1..] ensures ts[0] <= t {
      var k :| 0 <= k < |ts[1..]| && ts[1..][k] == t;
      assert ts[k + 1] == t;
    }
  }

  lemma ChronologicalCons(t: int, ts: seq<int>)
    requires Chronological(ts) && forall u :: u in ts ==> t <= u
    ensures Chronological([t] + ts)
  {
    var r := [t] + ts;
    forall i, j | 0 <= i < j < |r| ensures r[i] <= r[j] {
      assert r[j] == ts[j - 1] && ts[j - 1] in ts;
      if i > 0 {
        assert r[i] == ts[i - 1];
      }
    }
  }

  lemma ChronologicalTail(ts: seq<int>)
    requires ts != [] && Chronological(ts)
    ensures Chronological(ts[1..])
  {
    forall i, j | 0 <= i < j < |ts| - 1 ensures ts[1..][i] <= ts[1..][j] {
      assert ts[1..][i] == ts[i + 1] && ts[1..][j] == ts[j + 1];
    }
  }

  lemma {:induction false} RecentIsChronological(ts: seq<int>, now: int, window: int)
    requires Chronological(ts)
    ensures Chronological(Recent(ts, now, window))
  {
    if ts != [] {
      ChronologicalTail(ts);
      RecentIsChronological(ts[1..], now, window);
      var rest := Recent(ts[1..], now, window);
      if Live(ts[0], now, window) {
        FirstIsEarliest(ts);
        ChronologicalCons(ts[0], rest);
      }
    }
  }

  /** With a clock that does not run backwards the stored log stays in chronological order. */
  lemma StaysChronological(log: Log, policies: Policies, client: string, action: string, now: int)
    requires Chronological(Entries(log, Key(client, action)))
    requires forall t :: t in Entries(log, Key(client, action)) ==> t <= now
    ensures Chronological(Entries(IsAllowed(log, policies, client, action, now).log, Key(client, action)))
  {
    var key := Key(client, action);
    var d := IsAllowed(log, policies, client, action, now);
    if d.allowed && action in policies {
      var live := Recent(Entries(log, key), now, policies[action].window);
      RecentIsChronological(Entries(log, key), now, policies[action].window);
      assert forall i :: 0 <= i < |live| ==> live[i] in live;
    }
  }

  /** The window slides: once the oldest stored timestamp has aged out, a bounded log admits again. */
  lemma ReopensWhenOldestExpires(log: Log, policies: Policies, client: string, action: string, now: int)
    requires action in policies
    requires Bounded(log, policies, client)
    requires Key(client, action) in log && log[Key(client, action)] != []
    requires !Live(log[Key(client, action)][0], now, policies[action].window)
    ensures IsAllowed(log, policies, client, action, now).allowed
  {
    var ts := log[Key(client, action)];
    assert Recent(ts, now, policies[action].window) == Recent(ts[1..], now, policies[action].window);
  }

  /** One check when every stored timestamp is live at `now`: the verdict depends only on how many there are. */
  lemma CheckWithAllLive(log: Log, policies: Policies, client: string, action: string, now: int)
    requires action in policies
    requires forall t :: t in Entries(log, Key(client, action)) ==> Live(t, now, policies[action].window)
    ensures var d := IsAllowed(log, policies, client, action, now);
            && (d.allowed <==> |Entries(log, Key(client, action))| < policies[action].max)
            && (d.allowed ==> Entries(d.log, Key(client, action)) == Entries(log, Key(client, action)) + [now])
  {
    var ts := Entries(log, Key(client, action));
    assert forall i :: 0 <= i < |ts| ==> ts[i] in ts;
    RecentKeepsLive(ts, now, policies[action].window);
  }

  lemma SpanDropsFirstTime(prior: seq<int>, times: seq<int>, window: int)
    requires times != [] && WithinSpan(prior + times, window)
    ensures WithinSpan(prior + times[1..], window)
    ensures forall t :: t in prior ==> Live(t, times[0], window)
  {
    var whole := prior + times;
    var part := prior + times[1..];
    forall i, j | 0 <= i < j < |part| ensures part[j] - part[i] < window {
      var i' := if i < |prior| then i else i + 1;
      var j' := if j < |prior| then j else j + 1;
      assert part[i] == whole[i'] && part[j] == whole[j'];
    }
    forall t | t in prior ensures Live(t, times[0], window) {
      var k :| 0 <= k < |prior| && prior[k] == t;
      assert whole[k] == t && whole[|prior|] == times[0];
    }
  }

  /** One step of a run: the first check, then the run of the remaining times from the log it leaves. */
  lemma RunStep(log: Log, policies: Policies, client: string, action: string, times: seq<int>)
    requires times != []
    ensures var d := IsAllowed(log, policies, client, action, times[0]);
            var rest := Run(d.log, policies, client, action, times[1..]);
            var t := Run(log, policies, client, action, times);
            && t.results[0] == d.allowed
            && (forall i :: 1 <= i < |times| ==> t.results[i] == rest.results[i - 1])
            && t.log == rest.log
  {
    var d := IsAllowed(log, policies, client, action, times[0]);
    var rest := Run(d.log, policies, client, action, times[1..]);
    var head := [d.allowed];
    assert Run(log, policies, client, action, times) == Trace(head + rest.results, rest.log);
    forall i | 1 <= i < |times| ensures (head + rest.results)[i] == rest.results[i - 1] {
    }
  }

  /** Consecutive checks inside one window, starting from a stored log: the n-th check is admitted
      exactly when fewer than `max` timestamps precede it. */
  lemma {:induction false} RunWithinWindow(log: Log, policies: Policies, client: string, action: string, times: seq<int>)
    requires action in policies
    requires WithinSpan(Entries(log, Key(client, action)) + times, policies[action].window)
    ensures forall i :: 0 <= i < |times| ==>
              Run(log, policies, client, action, times).results[i]
              == (|Entries(log, Key(client, action))| + i < policies[action].max)
    decreases |times|
  {
    var key := Key(client, action);
    var p := policies[action];
    var prior := Entries(log, key);
    if times != [] {
      SpanDropsFirstTime(prior, times, p.window);
      CheckWithAllLive(log, policies, client, action, times[0]);
      var d := IsAllowed(log, policies, client, action, times[0]);
      var next := Entries(d.log, key);
      if d.allowed {
        assert next + times[1..] == prior + times;
      } else {
        assert next == prior && |prior| >= p.max;
      }
      RunWithinWindow(d.log, policies, client, action, times[1..]);
      RunStep(log, policies, client, action, times);
      var results := Run(log, policies, client, action, times).results;
      var rest := Run(d.log, policies, client, action, times[1..]).results;
      forall i | 0 <= i < |times| ensures results[i] == (|prior| + i < p.max) {
        if i == 0 {
          assert results[0] == d.allowed;
        } else {
          assert results[i] == rest[i - 1];
          assert rest[i - 1] == (|next| + (i - 1) < p.max);
        }
      }
    }
  }

  /** The log a run inside one window leaves: the first `max` times are kept, later ones are not recorded. */
  lemma {:induction false} RunWithinWindowLog(log: Log, policies: Policies, client: string, action: string, times: seq<int>)
    requires action in policies
    requires WithinSpan(Entries(log, Key(client, action)) + times, policies[action].window)
    requires |Entries(log, Key(client, action))| <= policies[action].max
    ensures var n := |Entries(log, Key(client, action))| + |times|;
            Entries(Run(log, policies, client, action, times).log, Key(client, action))
            == (Entries(log, Key(client, action)) + times)[..if n < policies[action].max then n else policies[action].max]
    decreases |times|
  {
    var key := Key(client, action);
    var p := policies[action];
    var prior := Entries(log, key);
    if times == [] {
      assert (prior + times)[..|prior|] == prior;
    } else {
      SpanDropsFirstTime(prior, times, p.window);
      CheckWithAllLive(log, policies, client, action, times[0]);
      var d := IsAllowed(log, policies, client, action, times[0]);
      var next := Entries(d.log, key);
      if d.allowed {
        assert next == prior + [times[0]] && next + times[1..] == prior + times;
      } else {
        assert next == prior && |prior| == p.max;
        assert (prior + times[1..])[..p.max] == prior == (prior + times)[..p.max];
      }
      RunWithinWindowLog(d.log, policies, client, action, times[1..]);
    }
  }


  /** From a fresh key, `max` checks inside one window are admitted and every later one is refused. */
  lemma FreshWindow(log: Log, policies: Policies, client: string, action: string, times: seq<int>)
    requires action in policies
    requires Key(client, action) !in log
    requires WithinSpan(times, policies[action].window)
    ensures var t := Run(log, policies, client, action, times);
            forall i :: 0 <= i < |times| ==> t.results[i] == (i < policies[action].max)
  {
    assert Entries(log, Key(client, action)) + times == times;
    RunWithinWindow(log, policies, client, action, times);
  }

  /** The default form-submission policy: five submissions a minute, the sixth refused. */
  lemma FormSubmissionQuota(log: Log, client: string, times: seq<int>)
    requires Key(client, FormSubmission) !in log
    requires |times| == 6 && WithinSpan(times, 60000)
    ensures Run(log, DefaultPolicies, client, FormSubmission, times).results == [true, true, true, true, true, false]
  {
    FreshWindow(log, DefaultPolicies, client, FormSubmission, times);
  }

  /** An action without a policy is admitted every time, however often, and is never recorded. */
  lemma {:induction false} UnlimitedActionRun(log: Log, policies: Policies, client: string, action: string, times: seq<int>)
    requires action !in policies
    ensures var t := Run(log, policies, client, action, times);
            t.log == log && forall i :: 0 <= i < |times| ==> t.results[i]
    decreases |times|
  {
    if times != [] {
      UnlimitedActionRun(log, policies, client, action, times[1..]);
    }
  }
}
