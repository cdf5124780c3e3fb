/**
 * The coordinator (`SecurityManager` in js/security.js): the document-level
 * submit guard and the rapid-click monitor. Both feed the rate limiter and
 * the activity detector; notifications are left to the caller.
 */
module SecurityManager {
  import opened RateLimiter
  import opened ActivityDetector

  /** The click monitor's closure state; the last click time starts at 0. */
  datatype ClickMonitor = ClickMonitor(clickCount: nat, lastClickTime: int)

  const FreshClicks := ClickMonitor(0, 0)

  /** A click less than this many milliseconds after the previous one is rapid. */
  const RapidClickMillis := 100
  /** Rapid clicks beyond this many in a row flag the session, one flag per click. */
  const RapidClickLimit := 10

  datatype Watch = Watch(clicks: ClickMonitor, detector: Detector)

  predicate Rapid(m: ClickMonitor, now: int) {
    now - m.lastClickTime < RapidClickMillis
  }

  /** The document-level click listener. */
  function OnClick(w: Watch, now: int): (r: Watch)
    ensures r.clicks.lastClickTime == now
    // a slow click restarts the count and never flags
    ensures !Rapid(w.clicks, now) ==> r.clicks.clickCount == 0 && r.detector == w.detector
    // a rapid click extends the streak and flags once the streak exceeds the limit
    ensures Rapid(w.clicks, now) ==> r.clicks.clickCount == w.clicks.clickCount + 1
    ensures r.detector.botFlags == w.detector.botFlags + (if Rapid(w.clicks, now) && r.clicks.clickCount > RapidClickLimit then 1 else 0)
    ensures r.detector.botFlags > w.detector.botFlags ==> IsBot(r.detector)
  {
    if now - w.clicks.lastClickTime < RapidClickMillis then
      var count := w.clicks.clickCount + 1;
      var detector := if count > RapidClickLimit then FlagAsBot(w.detector) else w.detector;
      Watch(ClickMonitor(count, now), detector)
    else
      Watch(ClickMonitor(0, now), w.detector)
  }

  function Clicks(w: Watch, times: seq<int>): Watch
    decreases |times|
  {
    if times == [] then w else Clicks(OnClick(w, times[0]), times[1..])
  }

  /** Each click of `times` comes less than 100 ms after the one before (the first, after `last`). */
  ghost predicate RapidSeries(last: int, times: seq<int>) {
    && (times != [] ==> times[0] - last < RapidClickMillis)
    && forall i :: 0 < i < |times| ==> times[i] - times[i - 1] < RapidClickMillis
  }

  /** How many of `k` further rapid clicks, after a streak of `count`, bring the streak above the limit. */
  function Excess(count: nat, k: nat): nat {
    if count + k <= RapidClickLimit then 0
    else if count >= RapidClickLimit then k
    else count + k - RapidClickLimit
  }

  /** A burst of rapid clicks lengthens the streak by its size and flags once for every click
      that finds the streak already at the limit. */
  lemma {:induction false} RapidBurst(w: Watch, times: seq<int>)
    requires RapidSeries(w.clicks.lastClickTime, times)
    ensures Clicks(w, times).clicks.clickCount == w.clicks.clickCount + |times|
    ensures Clicks(w, times).detector.botFlags == w.detector.botFlags + Excess(w.clicks.clickCount, |times|)
    ensures Excess(w.clicks.clickCount, |times|) > 0 ==> IsBot(Clicks(w, times).detector)
    decreases |times|
  {
    if times != [] {
      var next := OnClick(w, times[0]);
      assert RapidSeries(next.clicks.lastClickTime, times[1..]) by {
        forall i | 0 < i < |times[1..]| ensures times[1..][i] - times[1..][i - 1] < RapidClickMillis {
          assert times[1..][i] == times[i + 1] && times[1..][i - 1] == times[i];
        }
        if |times| > 1 {
          assert times[1] - times[0] < RapidClickMillis;
        }
      }
      RapidBurst(next, times[1..]);
      if Excess(w.clicks.clickCount, |times|) > 0 && Excess(next.clicks.clickCount, |times| - 1) == 0 {
        assert next.clicks.clickCount > RapidClickLimit;
      }
    }
  }

  /** From a fresh monitor (or after a slow click), ten rapid clicks do not flag and the eleventh does. */
  lemma EleventhRapidClickFlags(w: Watch, times: seq<int>)
    requires w.clicks.clickCount == 0
    requires RapidSeries(w.clicks.lastClickTime, times) && |times| == RapidClickLimit + 1
    ensures Clicks(w, times[..RapidClickLimit]).detector == w.detector
    ensures Clicks(w, times).detector.botFlags == w.detector.botFlags + 1
  {
    var first := times[..RapidClickLimit];
    assert RapidSeries(w.clicks.lastClickTime, first);
    RapidBurst(w, first);
    RapidBurst(w, times);
    NoFlagKeepsDetector(w, first);
  }

  /** Clicks that add no flag leave the detector as it was. */
  lemma {:induction false} NoFlagKeepsDetector(w: Watch, times: seq<int>)
    requires Clicks(w, times).detector.botFlags == w.detector.botFlags
    ensures Clicks(w, times).detector == w.detector
    decreases |times|
  {
    if times != [] {
      var next := OnClick(w, times[0]);
      ClicksNeverUnflag(next, times[1..]);
      NoFlagKeepsDetector(next, times[1..]);
    }
  }

  lemma {:induction false} ClicksNeverUnflag(w: Watch, times: seq<int>)
    ensures Clicks(w, times).detector.botFlags >= w.detector.botFlags
    decreases |times|
  {
    if times != [] {
      ClicksNeverUnflag(OnClick(w, times[0]), times[1..]);
    }
  }

  datatype GuardVerdict = RateLimited | BotBlocked | Proceed

  datatype Guarded = Guarded(verdict: GuardVerdict, log: Log)

  /** The document-level submit listener: the rate limiter first, then the bot verdict. */
  function SubmitGuard(log: Log, policies: Policies, client: string, d: Detector, now: int): (r: Guarded)
    // the limiter is consulted on every submission, whatever the detector says
    ensures r.log == IsAllowed(log, policies, client, FormSubmission, now).log
    ensures r.verdict == RateLimited <==> !IsAllowed(log, policies, client, FormSubmission, now).allowed
    ensures r.verdict == BotBlocked <==> IsAllowed(log, policies, client, FormSubmission, now).allowed && IsBot(d)
  {
    var decision := IsAllowed(log, policies, client, FormSubmission, now);
    if !decision.allowed then Guarded(RateLimited, decision.log)
    else if IsBot(d) then Guarded(BotBlocked, decision.log)
    else Guarded(Proceed, decision.log)
  }

  /** Because the limiter is consulted first, a submission the bot check blocks still uses a slot. */
  lemma BlockedBotUsesSlot(log: Log, policies: Policies, client: string, d: Detector, now: int)
    requires FormSubmission in policies && IsBot(d)
    requires |Recent(Entries(log, Key(client, FormSubmission)), now, policies[FormSubmission].window)| < policies[FormSubmission].max
    ensures var r := SubmitGuard(log, policies, client, d, now);
            && r.verdict == BotBlocked
            && Entries(r.log, Key(client, FormSubmission))
               == Recent(Entries(log, Key(client, FormSubmission)), now, policies[FormSubmission].window) + [now]
  {
  }

  /** Once the limit is reached, the verdict is the rate limit whether or not the session looks like a bot. */
  lemma RateLimitComesFirst(log: Log, policies: Policies, client: string, d: Detector, e: Detector, now: int)
    requires !IsAllowed(log, policies, client, FormSubmission, now).allowed
    ensures SubmitGuard(log, policies, client, d, now) == SubmitGuard(log, policies, client, e, now)
    ensures SubmitGuard(log, policies, client, d, now) == Guarded(RateLimited, log)
  {
  }
}
