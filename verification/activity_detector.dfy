/**
 * The suspicious-activity detector (`SuspiciousActivityDetector` in
 * js/security.js). Each DOM event it listens to becomes a transition of an
 * immutable state; `IsBot` is the verdict the submit guard consults.
 *
 * The detector does not make a bot verdict permanent: a trusted key press, or
 * the eleventh and every later mouse movement, sets `isHuman` back to true,
 * and only more than two flags keep the verdict once that happens.
 */
module ActivityDetector {
  import opened Wrappers

  /** `isHuman` is the source's tri-state field: None while unknown (`null`),
      Some(true) after a human signal, Some(false) after any flag.
      `mouseMovements` is the mouse-move counter of the monitoring closure. */
  datatype Detector = Detector(botFlags: nat, isHuman: Option<bool>, mouseMovements: nat)

  const Fresh := Detector(0, None, 0)

  /** More mouse movements than this count as human. */
  const HumanMouseMoves := 10
  /** A field filled in less than this many milliseconds ... */
  const FastFillMillis := 100
  /** ... with more characters than this is suspicious. */
  const FastFillLength := 5
  /** More flags than this classify the session as a bot whatever `isHuman` says. */
  const FlagLimit := 2

  /** `flagAsBot()`. */
  function FlagAsBot(d: Detector): (r: Detector)
    ensures r.botFlags == d.botFlags + 1
    ensures r.isHuman == Some(false)
    ensures r.mouseMovements == d.mouseMovements
    ensures IsBot(r)
  {
    d.(botFlags := d.botFlags + 1, isHuman := Some(false))
  }

  /** `isBot()`: more than two flags, or an explicit (not unknown) non-human classification. */
  predicate IsBot(d: Detector) {
    d.botFlags > FlagLimit || d.isHuman == Some(false)
  }

  /** The events the detector listens to. `FocusOut` carries the focus time the element's
      dataset holds (None when it holds none), the current time and the length of the
      field's value; `HoneypotCheck` carries the value of the submitted form's first
      `website_url` input, None when the form has none. */
  datatype Event =
    | MouseMove
    | KeyDown(trusted: bool)
    | FocusOut(focusTime: Option<int>, now: int, valueLength: nat)
    | HoneypotCheck(honeypot: Option<string>)

  /** The signals that count against the session: a synthetic key press, a field
      of more than five characters filled in under 100 ms, a filled honeypot. */
  predicate Suspicious(e: Event) {
    match e
    case MouseMove => false
    case KeyDown(trusted) => !trusted
    case FocusOut(focusTime, now, valueLength) =>
      focusTime.Some? && now - focusTime.value < FastFillMillis && valueLength > FastFillLength
    case HoneypotCheck(honeypot) => Filled(honeypot)
  }

  /** The signals that mark the session as human: a trusted key press, or a mouse
      movement that brings the count above ten. */
  predicate Reassuring(d: Detector, e: Event) {
    e == KeyDown(true) || (e == MouseMove && d.mouseMovements + 1 > HumanMouseMoves)
  }

  /** The listener for one event. */
  function Step(d: Detector, e: Event): (r: Detector)
    ensures r.botFlags == d.botFlags + (if Suspicious(e) then 1 else 0)
    ensures r.isHuman == if Suspicious(e) then Some(false) else if Reassuring(d, e) then Some(true) else d.isHuman
    ensures r.mouseMovements == d.mouseMovements + (if e.MouseMove? then 1 else 0)
  {
    match e
    case MouseMove =>
      var moved := d.(mouseMovements := d.mouseMovements + 1);
      if moved.mouseMovements > HumanMouseMoves then moved.(isHuman := Some(true)) else moved
    case KeyDown(trusted) =>
      if !trusted then FlagAsBot(d) else d.(isHuman := Some(true))
    case FocusOut(focusTime, now, valueLength) =>
      if focusTime.Some? then
        var duration := now - focusTime.value;
        if duration < FastFillMillis && valueLength > FastFillLength then FlagAsBot(d) else d
      else d
    case HoneypotCheck(honeypot) =>
      if Filled(honeypot) then FlagAsBot(d) else d
  }

  /** The detector after a sequence of events, in dispatch order. */
  function Observe(d: Detector, es: seq<Event>): Detector
    decreases |es|
  {
    if es == [] then d else Observe(Step(d, es[0]), es[1..])
  }

  /** Number of suspicious events in `es`. */
  function Signals(es: seq<Event>): (n: nat)
    ensures n <= |es|
  {
    if es == [] then 0 else (if Suspicious(es[0]) then 1 else 0) + Signals(es[1..])
  }

  /** The flag count after a run is the count before it plus one per suspicious event:
      flags are never withdrawn and nothing else adds to them. */
  lemma {:induction false} RunCountsSignals(d: Detector, es: seq<Event>)
    ensures Observe(d, es).botFlags == d.botFlags + Signals(es)
    ensures Observe(d, es).mouseMovements >= d.mouseMovements
    decreases |es|
  {
    if es != [] {
      RunCountsSignals(Step(d, es[0]), es[1..]);
    }
  }

  /** Past the flag limit the verdict holds whatever comes next. */
  lemma {:induction false} ThreeFlagsArePermanent(d: Detector, es: seq<Event>)
    requires d.botFlags > FlagLimit
    ensures IsBot(Observe(d, es))
  {
    RunCountsSignals(d, es);
  }

  /** A single flag already classifies the session as a bot: `flagAsBot` also sets
      `isHuman` to false. */
  lemma OneFlagIsEnough(d: Detector, e: Event)
    requires Suspicious(e)
    ensures IsBot(Step(d, e))
  {
  }

  /** No ratchet: with at most two flags, a trusted key press after a flag clears the verdict. */
  lemma TrustedKeyClearsVerdict(d: Detector, e: Event)
    requires Suspicious(e) && d.botFlags < FlagLimit
    ensures IsBot(Step(d, e))
    ensures !IsBot(Step(Step(d, e), KeyDown(true)))
  {
  }

  /** Mouse movements alone never flag, and from the eleventh on they mark the session human. */
  lemma {:induction false} MouseMovesMarkHuman(d: Detector, n: nat)
    requires d.mouseMovements + n > HumanMouseMoves && n > 0
    ensures Observe(d, seq(n, _ => MouseMove)).isHuman == Some(true)
    ensures Observe(d, seq(n, _ => MouseMove)).botFlags == d.botFlags
    decreases n
  {
    var es := seq(n, _ => MouseMove);
    assert es[1..] == seq(n - 1, _ => MouseMove);
    var next := Step(d, MouseMove);
    if n > 1 {
      MouseMovesMarkHuman(next, n - 1);
    } else {
      assert Observe(d, es) == Observe(next, []);
    }
  }

  /** The fill-time heuristic: a field left within 100 ms of being focused is flagged
      exactly when its value is longer than five characters. */
  lemma FastFillFlags(d: Detector, focused: int, elapsed: int, valueLength: nat)
    ensures Step(d, FocusOut(Some(focused), focused + elapsed, valueLength)).botFlags
            == d.botFlags + (if elapsed < FastFillMillis && valueLength > FastFillLength then 1 else 0)
  {
  }
}
