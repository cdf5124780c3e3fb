/**
 * Form validation and submission gating of js/main.js: the per-field rules of
 * `validateField`, the all-required-fields pass of `handleFormSubmit` that
 * runs before the rate limiter is consulted, and the contact form's own
 * non-empty check and honeypot field.
 */
module FormValidation {
  import opened Wrappers
  import opened JsText
  import opened RateLimiter

  datatype Tag = Input | TextArea | Select | OtherElement

  /** A form control as the handlers see it: element tag, `type`, `name`, whether it
      carries the `required` attribute, and its current value. */
  datatype Field = Field(tag: Tag, kind: string, name: string, required: bool, value: string)

  // ---------------------------------------------------------------- email

  /** The class `[^\s@]`. */
  predicate EmailChar(c: char) {
    !IsWhiteSpace(c) && c != '@'
  }

  predicate AllEmailChars(s: string) {
    forall i :: 0 <= i < |s| ==> EmailChar(s[i])
  }

  /** The pattern `^[^\s@]+@[^\s@]+\.[^\s@]+$` read piece by piece: a local part, "@",
      a first domain piece, ".", a last domain piece, each a non-empty run of
      characters that are neither white space nor "@". */
  ghost predicate EmailPattern(s: string) {
    exists at, dot ::
      && 0 < at && at + 1 < dot && dot + 1 < |s|
      && s[at] == '@' && s[dot] == '.'
      && AllEmailChars(s[..at]) && AllEmailChars(s[at + 1..dot]) && AllEmailChars(s[dot + 1..])
  }

  /** The same check as a user would state it: no white space, exactly one "@" with
      something before it, and a "." in the domain that is neither its first nor its
      last character. */
  predicate IsEmail(s: string) {
    var at := IndexOf(s, '@', 0);
    && (forall i :: 0 <= i < |s| ==> !IsWhiteSpace(s[i]))
    && 0 < at < |s|
    && IndexOf(s, '@', at + 1) == |s|
    && exists dot :: at + 1 < dot < |s| - 1 && s[dot] == '.'
  }

  lemma EmailCheckMatchesPattern(s: string)
    ensures IsEmail(s) <==> EmailPattern(s)
  {
    if IsEmail(s) {
      EmailCheckIsSound(s);
    }
    if EmailPattern(s) {
      EmailCheckIsComplete(s);
    }
  }

  /** Every characterwise slice of a string without white space or "@" outside `at` is free of them. */
  lemma EmailCharsBetween(s: string, at: nat, lo: nat, hi: nat)
    requires lo <= hi <= |s| && at < |s|
    requires forall i :: 0 <= i < |s| && i != at ==> EmailChar(s[i])
    requires at < lo || hi <= at
    ensures AllEmailChars(s[lo..hi])
  {
    forall i | 0 <= i < hi - lo ensures EmailChar(s[lo..hi][i]) {
      assert s[lo..hi][i] == s[lo + i];
    }
  }

  lemma {:induction false} EmailCheckIsSound(s: string)
    requires IsEmail(s)
    ensures EmailPattern(s)
  {
    var at := IndexOf(s, '@', 0);
    var dot :| at + 1 < dot < |s| - 1 && s[dot] == '.';
    assert forall i :: 0 <= i < |s| && i != at ==> EmailChar(s[i]);
    EmailCharsBetween(s, at, 0, at);
    EmailCharsBetween(s, at, at + 1, dot);
    EmailCharsBetween(s, at, dot + 1, |s|);
    assert s[..at] == s[0..at] && s[dot + 1..] == s[dot + 1..|s|];
  }

  lemma {:induction false} EmailCheckIsComplete(s: string)
    requires EmailPattern(s)
    ensures IsEmail(s)
  {
    var at, dot :| 0 < at && at + 1 < dot && dot + 1 < |s| && s[at] == '@' && s[dot] == '.'
      && AllEmailChars(s[..at]) && AllEmailChars(s[at + 1..dot]) && AllEmailChars(s[dot + 1..]);
    EmailPiecesCover(s, at, dot);
    IndexOfIsFirst(s, '@', 0, at);
    IndexOfIsFirst(s, '@', at + 1, |s|);
    assert !IsWhiteSpace(s[at]);
    assert forall i :: 0 <= i < |s| ==> !IsWhiteSpace(s[i]);
    assert at + 1 < dot < |s| - 1 && s[dot] == '.';
  }

  /** The three pieces around "@" and "." cover every other character. */
  lemma EmailPiecesCover(s: string, at: nat, dot: nat)
    requires at < dot < |s| && s[dot] == '.'
    requires AllEmailChars(s[..at]) && AllEmailChars(s[at + 1..dot]) && AllEmailChars(s[dot + 1..])
    ensures forall i :: 0 <= i < |s| && i != at ==> EmailChar(s[i])
  {
    forall i | 0 <= i < |s| && i != at ensures EmailChar(s[i]) {
      if i < at {
        assert s[..at][i] == s[i];
      } else if i < dot {
        assert s[at + 1..dot][i - at - 1] == s[i];
      } else if i > dot {
        assert s[dot + 1..][i - dot - 1] == s[i];
      }
    }
  }

  // ---------------------------------------------------------------- telephone

  /** The class `[0-9\s\-\(\)]`. */
  predicate PhoneChar(c: char) {
    ('0' <= c <= '9') || IsWhiteSpace(c) || c == '-' || c == '(' || c == ')'
  }

  predicate AllPhoneChars(s: string) {
    forall i :: 0 <= i < |s| ==> PhoneChar(s[i])
  }

  const MinPhoneChars := 8

  /** The pattern `^[\+]?[0-9\s\-\(\)]{8,}$`: an optional "+" (a prefix of length 0 or 1)
      followed by at least eight characters of the class. */
  ghost predicate PhonePattern(s: string) {
    exists plus :: 0 <= plus <= 1 && plus <= |s| && (plus == 1 ==> s[0] == '+')
      && |s[plus..]| >= MinPhoneChars && AllPhoneChars(s[plus..])
  }

  /** The check as it runs: strip one leading "+", then count and classify the rest. */
  predicate IsPhone(s: string) {
    var rest := if |s| > 0 && s[0] == '+' then s[1..] else s;
    |rest| >= MinPhoneChars && AllPhoneChars(rest)
  }

  lemma PhoneCheckMatchesPattern(s: string)
    ensures IsPhone(s) <==> PhonePattern(s)
  {
    if IsPhone(s) {
      var plus := if |s| > 0 && s[0] == '+' then 1 else 0;
      assert s[plus..] == (if |s| > 0 && s[0] == '+' then s[1..] else s);
    }
    if PhonePattern(s) {
      var plus :| 0 <= plus <= 1 && plus <= |s| && (plus == 1 ==> s[0] == '+')
        && |s[plus..]| >= MinPhoneChars && AllPhoneChars(s[plus..]);
      if plus == 0 {
        assert s[plus..] == s;
        assert !PhoneChar('+');
      }
    }
  }

  // ---------------------------------------------------------------- one field

  /** `validateField`: the field's value is trimmed; email and tel fields must match their
      pattern whether or not they are required; any other field fails only when it is
      required and empty once trimmed. */
  function ValidateField(f: Field): (ok: bool)
    ensures f.kind == "email" ==> (ok <==> EmailPattern(Trim(f.value)))
    ensures f.kind == "tel" ==> (ok <==> PhonePattern(Trim(f.value)))
    ensures f.kind != "email" && f.kind != "tel" ==> (ok <==> !f.required || !AllWhiteSpace(f.value))
  {
    var value := Trim(f.value);
    if f.kind == "email" then
      EmailCheckMatchesPattern(value);
      IsEmail(value)
    else if f.kind == "tel" then
      PhoneCheckMatchesPattern(value);
      IsPhone(value)
    else
      !(f.required && value == "")
  }

  /** An email or telephone field whose value is blank is invalid, required or not. */
  lemma BlankEmailOrPhoneIsInvalid(f: Field)
    requires f.kind == "email" || f.kind == "tel"
    requires AllWhiteSpace(f.value)
    ensures !ValidateField(f)
  {
  }

  /** A field of any other type without the `required` attribute is always valid. */
  lemma OptionalPlainFieldIsValid(f: Field)
    requires f.kind != "email" && f.kind != "tel" && !f.required
    ensures ValidateField(f)
  {
  }

  /** White space around a value never changes the verdict. */
  lemma SurroundingSpaceIgnored(f: Field, pre: string, post: string)
    requires AllWhiteSpace(pre) && AllWhiteSpace(post)
    ensures ValidateField(f.(value := pre + f.value + post)) == ValidateField(f)
  {
    TrimIgnoresPadding(f.value, pre, post);
  }

  lemma TrimIgnoresPadding(s: string, pre: string, post: string)
    requires AllWhiteSpace(pre) && AllWhiteSpace(post)
    ensures Trim(pre + s + post) == Trim(s)
    ensures AllWhiteSpace(pre + s + post) == AllWhiteSpace(s)
  {
    var front, back := TrimParts(s);
    var core := Trim(s);
    AllWhiteSpaceConcat(pre, front);
    AllWhiteSpaceConcat(back, post);
    Regroup(pre, front, core, back, post);
    TrimIsUnique(pre + s + post, pre + front, core, back + post);
    PaddingKeepsSpace(s, pre, post);
  }

  lemma PaddingKeepsSpace(s: string, pre: string, post: string)
    requires AllWhiteSpace(pre) && AllWhiteSpace(post)
    ensures AllWhiteSpace(pre + s + post) == AllWhiteSpace(s)
  {
    AllWhiteSpaceConcat(pre, s);
    AllWhiteSpaceConcat(pre + s, post);
  }

  lemma Regroup<T>(pre: seq<T>, front: seq<T>, core: seq<T>, back: seq<T>, post: seq<T>)
    ensures pre + (front + core + back) + post == (pre + front) + core + (back + post)
  {
  }

  // ---------------------------------------------------------------- form submission

  /** Matched by `input[required], textarea[required], select[required]`. */
  predicate CheckedOnSubmit(f: Field) {
    f.required && f.tag != OtherElement
  }

  /** The required controls of a form, in document order. */
  function RequiredFields(fields: seq<Field>): (r: seq<Field>)
    ensures |r| <= |fields|
    ensures forall f :: f in r <==> f in fields && CheckedOnSubmit(f)
  {
    if fields == [] then []
    else
      var rest := RequiredFields(fields[1..]);
      assert forall f :: f in fields <==> f == fields[0] || f in fields[1..];
      if CheckedOnSubmit(fields[0]) then [fields[0]] + rest else rest
  }

  /** How `handleFormSubmit` ends. `Sent`: `submitForm` scheduled the simulated send.
      `SendThrew`: `submitForm` threw a TypeError because the form has no
      `button[type="submit"]` or `input[type="submit"]` to relabel, so nothing was sent. */
  datatype FormOutcome = InvalidFields | TooManyRequests | Sent | SendThrew

  /** `submitForm(form)`, given whether the form has a `button[type="submit"]` or an
      `input[type="submit"]`. */
  function SubmitForm(submitControl: bool): (o: FormOutcome)
    ensures o == Sent || o == SendThrew
    ensures o == Sent <==> submitControl
  {
    if submitControl then Sent else SendThrew
  }

  /** The submission got past validation and the limiter and reached `submitForm`. */
  predicate ReachedSubmitForm(o: FormOutcome) {
    o == Sent || o == SendThrew
  }

  /** `errors[i]` tells whether the i-th required field shows an error message. */
  datatype FormResult = FormResult(outcome: FormOutcome, errors: seq<bool>, log: Log)

  /** The error shown by each of the given fields after validation. */
  function Errors(required: seq<Field>): (e: seq<bool>)
    ensures |e| == |required|
    ensures forall i :: 0 <= i < |e| ==> e[i] == !ValidateField(required[i])
  {
    seq(|required|, i requires 0 <= i < |required| => !ValidateField(required[i]))
  }

  lemma SomeFlagged<T>(xs: seq<T>, flags: seq<bool>, ok: T -> bool)
    requires |flags| == |xs| && forall i :: 0 <= i < |xs| ==> flags[i] == !ok(xs[i])
    ensures true in flags <==> exists x :: x in xs && !ok(x)
  {
    if true in flags {
      var i :| 0 <= i < |flags| && flags[i];
      assert xs[i] in xs;
    }
  }

  /** Some checked field shows an error exactly when some checked field is invalid. */
  lemma ErrorsFindInvalid(fields: seq<Field>)
    ensures true in Errors(RequiredFields(fields)) <==> exists f :: f in fields && CheckedOnSubmit(f) && !ValidateField(f)
  {
    var required := RequiredFields(fields);
    SomeFlagged(required, Errors(required), ValidateField);
  }

  /** `handleFormSubmit`: every required field is validated (so every invalid one shows its
      error); only when all pass is the rate limiter consulted, and only when the security
      layer is loaded (`limiter`). `submitControl` tells whether the form has a submit
      control `submitForm` can find. */
  function HandleFormSubmit(fields: seq<Field>, submitControl: bool, log: Log, policies: Policies, client: string, now: int, limiter: bool): (r: FormResult)
    ensures r.outcome == InvalidFields <==> exists f :: f in fields && CheckedOnSubmit(f) && !ValidateField(f)
    // a submission stopped by validation consumes no slot
    ensures r.outcome == InvalidFields ==> r.log == log
    ensures r.outcome == TooManyRequests ==> limiter && r.log == log
    // the slot is taken before `submitForm` runs, whether or not it then throws
    ensures ReachedSubmitForm(r.outcome) && limiter ==> r.log == IsAllowed(log, policies, client, FormSubmission, now).log
    ensures ReachedSubmitForm(r.outcome) && !limiter ==> r.log == log
    ensures ReachedSubmitForm(r.outcome) ==> (r.outcome == Sent <==> submitControl)
    ensures r.outcome != InvalidFields ==>
              (r.outcome == TooManyRequests <==> limiter && !IsAllowed(log, policies, client, FormSubmission, now).allowed)
  {
    var errors := Errors(RequiredFields(fields));
    ErrorsFindInvalid(fields);
    if true in errors then FormResult(InvalidFields, errors, log)
    else if limiter then
      var decision := IsAllowed(log, policies, client, FormSubmission, now);
      if !decision.allowed then FormResult(TooManyRequests, errors, log)
      else FormResult(SubmitForm(submitControl), errors, decision.log)
    else FormResult(SubmitForm(submitControl), errors, log)
  }

  /** Each required control, in document order, shows its error exactly when it is invalid. */
  lemma SubmitShowsEveryError(fields: seq<Field>, submitControl: bool, log: Log, policies: Policies, client: string, now: int, limiter: bool)
    ensures HandleFormSubmit(fields, submitControl, log, policies, client, now, limiter).errors == Errors(RequiredFields(fields))
  {
  }

  lemma {:induction false} RequiredFieldsAppend(fields: seq<Field>, extra: seq<Field>)
    ensures RequiredFields(fields + extra) == RequiredFields(fields) + RequiredFields(extra)
  {
    if fields == [] {
      assert fields + extra == extra;
    } else {
      assert (fields + extra)[0] == fields[0];
      assert (fields + extra)[1..] == fields[1..] + extra;
      RequiredFieldsAppend(fields[1..], extra);
    }
  }

  /** Fields that are not required play no part in the submission decision, wherever
      they stand in the form. */
  lemma OptionalFieldsIgnoredOnSubmit(before: seq<Field>, extra: Field, after: seq<Field>, submitControl: bool, log: Log, policies: Policies, client: string, now: int, limiter: bool)
    requires !CheckedOnSubmit(extra)
    ensures HandleFormSubmit(before + [extra] + after, submitControl, log, policies, client, now, limiter)
            == HandleFormSubmit(before + after, submitControl, log, policies, client, now, limiter)
  {
    RequiredFieldsAppend(before + [extra], after);
    RequiredFieldsAppend(before, [extra]);
    RequiredFieldsAppend(before, after);
    assert RequiredFields([extra]) == [];
    assert RequiredFields(before) + [] == RequiredFields(before);
  }

  // ---------------------------------------------------------------- contact form

  const HoneypotName := "website_url"

  /** `form.querySelector('[name="…"]')?.value`: the value of the first control with that name. */
  function ValueOf(fields: seq<Field>, name: string): (r: Option<string>)
    ensures r.None? <==> forall i :: 0 <= i < |fields| ==> fields[i].name != name
    ensures r.Some? ==> exists i :: 0 <= i < |fields| && fields[i].name == name && fields[i].value == r.value
                          && forall j :: 0 <= j < i ==> fields[j].name != name
  {
    if fields == [] then None
    else if fields[0].name == name then Some(fields[0].value)
    else
      var r := ValueOf(fields[1..], name);
      assert forall i :: 1 <= i < |fields| ==> fields[i] == fields[1..][i - 1];
      r
  }

  /** The contact form's own submit check: name, email and message present and non-empty.
      The values are not trimmed. */
  predicate ContactReady(fields: seq<Field>) {
    Filled(ValueOf(fields, "name")) && Filled(ValueOf(fields, "email")) && Filled(ValueOf(fields, "message"))
  }

  /** The first control named `name` exists and holds a non-empty value. */
  predicate FirstFilled(fields: seq<Field>, name: string) {
    exists i :: 0 <= i < |fields| && fields[i].name == name && fields[i].value != ""
                && forall j :: 0 <= j < i ==> fields[j].name != name
  }

  /** The contact check reads the first control of each of the three names, and nothing else. */
  lemma ContactReadyIffFirstFilled(fields: seq<Field>)
    ensures ContactReady(fields) <==>
              FirstFilled(fields, "name") && FirstFilled(fields, "email") && FirstFilled(fields, "message")
  {
  }

  /** The lookup by name over two runs of controls: the first run's control wins. */
  lemma {:induction false} ValueOfAppend(fields: seq<Field>, more: seq<Field>, name: string)
    ensures ValueOf(fields + more, name) == if ValueOf(fields, name).Some? then ValueOf(fields, name) else ValueOf(more, name)
    decreases |fields|
  {
    if fields == [] {
      assert fields + more == more;
    } else {
      assert (fields + more)[1..] == fields[1..] + more;
      ValueOfAppend(fields[1..], more, name);
    }
  }

  /** Controls added after one of each name cannot change the contact check's verdict. */
  lemma ContactReadyIgnoresLaterControls(fields: seq<Field>, more: seq<Field>)
    requires ValueOf(fields, "name").Some? && ValueOf(fields, "email").Some? && ValueOf(fields, "message").Some?
    ensures ContactReady(fields + more) == ContactReady(fields)
  {
    ValueOfAppend(fields, more, "name");
    ValueOfAppend(fields, more, "email");
    ValueOfAppend(fields, more, "message");
  }

  /** A name made of spaces passes the contact check: nothing is trimmed there. */
  lemma BlankNamePassesContactCheck(email: string, message: string)
    requires email != "" && message != ""
    ensures ContactReady([
      Field(Input, "text", "name", true, " "),
      Field(Input, "email", "email", true, email),
      Field(TextArea, "textarea", "message", true, message)])
  {
    var fields := [
      Field(Input, "text", "name", true, " "),
      Field(Input, "email", "email", true, email),
      Field(TextArea, "textarea", "message", true, message)];
    assert fields[1..] == [fields[1], fields[2]] && fields[1..][1..] == [fields[2]];
    assert ValueOf(fields, "email") == ValueOf(fields[1..], "email") == Some(email);
    assert ValueOf(fields, "message") == ValueOf(fields[1..][1..], "message") == Some(message);
  }

  /** `input[name="website_url"]` among the fields. */
  predicate IsHoneypot(f: Field) {
    f.tag == Input && f.name == HoneypotName
  }

  predicate HasHoneypot(fields: seq<Field>) {
    exists i :: 0 <= i < |fields| && IsHoneypot(fields[i])
  }

  /** The value the honeypot check reads: that of the first `website_url` input, if any. */
  function HoneypotValue(fields: seq<Field>): (r: Option<string>)
    ensures r.None? <==> !HasHoneypot(fields)
    ensures r.Some? ==> exists i :: 0 <= i < |fields| && IsHoneypot(fields[i]) && fields[i].value == r.value
                          && forall j :: 0 <= j < i ==> !IsHoneypot(fields[j])
  {
    if fields == [] then None
    else if IsHoneypot(fields[0]) then Some(fields[0].value)
    else
      var r := HoneypotValue(fields[1..]);
      assert forall i :: 1 <= i < |fields| ==> fields[i] == fields[1..][i - 1];
      r
  }

  /** When every control named `website_url` is an input, the honeypot check reads the same
      value as a lookup by name. */
  lemma {:induction false} HoneypotIsFirstByName(fields: seq<Field>)
    requires forall i :: 0 <= i < |fields| && fields[i].name == HoneypotName ==> fields[i].tag == Input
    ensures HoneypotValue(fields) == ValueOf(fields, HoneypotName)
  {
    if fields != [] && !IsHoneypot(fields[0]) {
      assert forall i :: 1 <= i < |fields| ==> fields[i] == fields[1..][i - 1];
      HoneypotIsFirstByName(fields[1..]);
    }
  }

  /** A `website_url` control that is not an input (a textarea, say) is skipped by the
      honeypot check but found by a lookup by name. */
  lemma HoneypotSkipsOtherTags()
    ensures var fields := [Field(TextArea, "textarea", HoneypotName, false, "x")];
            HoneypotValue(fields) == None && ValueOf(fields, HoneypotName) == Some("x")
  {
  }

  /** The hidden text input the contact form appends. */
  const Honeypot := Field(Input, "text", HoneypotName, false, "")

  /** The contact form adds a honeypot only when it has none. */
  function WithHoneypot(fields: seq<Field>): (r: seq<Field>)
    ensures HasHoneypot(r)
    ensures HasHoneypot(fields) ==> r == fields
    ensures !HasHoneypot(fields) ==> r == fields + [Honeypot] && HoneypotValue(r) == Some("")
  {
    if HasHoneypot(fields) then fields
    else
      var r := fields + [Honeypot];
      assert IsHoneypot(r[|fields|]);
      HoneypotLast(fields);
      r
  }

  lemma {:induction false} HoneypotLast(fields: seq<Field>)
    requires !HasHoneypot(fields)
    ensures HoneypotValue(fields + [Honeypot]) == Some("")
  {
    if fields != [] {
      assert (fields + [Honeypot])[1..] == fields[1..] + [Honeypot];
      assert !HasHoneypot(fields[1..]) by {
        forall i | 0 <= i < |fields[1..]| ensures !IsHoneypot(fields[1..][i]) {
          assert fields[1..][i] == fields[i + 1];
        }
      }
      HoneypotLast(fields[1..]);
    }
  }

  lemma AddingHoneypotIsIdempotent(fields: seq<Field>)
    ensures WithHoneypot(WithHoneypot(fields)) == WithHoneypot(fields)
  {
  }
}
