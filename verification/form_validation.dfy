/**
 * Client-side form validation (`FormValidator` in script.js).
 *
 * An input is described by its `type` attribute, whether it carries the
 * `required` attribute, and its current value. The two regular expressions
 * of the validator are written out as predicates over strings, with `\s`
 * read as `Text.IsSpace`, the same set `trim` strips.
 */
module FormValidation {
  import opened Text

  datatype InputKind = EmailInput | TelInput | OtherInput

  datatype Input = Input(kind: InputKind, required: bool, value: string)

  /** The result of validating one input: valid, or invalid with the message `validateInput` sets. */
  datatype Verdict = Valid | Invalid(message: string)

  const RequiredMessage: string := "Field ini wajib diisi"
  const EmailMessage: string := "Email tidak valid"
  const TelMessage: string := "Nomor telepon tidak valid"

  // ---------------------------------------------------------------------
  // Character counting and searching
  // ---------------------------------------------------------------------

  /** Number of occurrences of `c` in `s`. */
  function Count(s: string, c: char): nat {
    if s == [] then 0
    else (if s[0] == c then 1 else 0) + Count(s[1..], c)
  }

  lemma {:induction false} CountAppend(a: string, b: string, c: char)
    ensures Count(a + b, c) == Count(a, c) + Count(b, c)
  {
    if a != [] {
      assert (a + b)[1..] == a[1..] + b;
      CountAppend(a[1..], b, c);
    } else {
      assert a + b == b;
    }
  }

  lemma {:induction false} CountZero(s: string, c: char)
    ensures Count(s, c) == 0 <==> forall k :: 0 <= k < |s| ==> s[k] != c
  {
    if s != [] {
      CountZero(s[1..], c);
      assert forall k :: 1 <= k < |s| ==> s[k] == s[1..][k - 1];
    }
  }

  /** Index of the first `c` in `s`, or `|s|` when there is none. */
  function IndexOf(s: string, c: char): (k: nat)
    ensures k <= |s|
    ensures k < |s| ==> s[k] == c
    ensures forall m :: 0 <= m < k ==> s[m] != c
  {
    if s == [] then 0
    else if s[0] == c then 0
    else 1 + IndexOf(s[1..], c)
  }

  // ---------------------------------------------------------------------
  // The email pattern /^[^\s@]+@[^\s@]+\.[^\s@]+$/
  // ---------------------------------------------------------------------

  /** The class `[^\s@]`. */
  predicate EmailChar(c: char) {
    !IsSpace(c) && c != '@'
  }

  /** The language of `[^\s@]+`. */
  predicate EmailRun(s: string) {
    |s| > 0 && forall k :: 0 <= k < |s| ==> EmailChar(s[k])
  }

  /** The language of the whole anchored pattern: three runs of `[^\s@]`, joined by `@` and by `.`. */
  ghost predicate MatchesEmailPattern(s: string) {
    exists i, j ::
      && 0 < i < j < |s|
      && s[i] == '@' && s[j] == '.'
      && EmailRun(s[..i]) && EmailRun(s[i + 1..j]) && EmailRun(s[j + 1..])
  }

  /** The domain (text after `@`) has a `.` with text before and after it. */
  predicate HasInnerDot(domain: string) {
    |domain| >= 3 && IndexOf(domain[1..|domain| - 1], '.') < |domain| - 2
  }

  /** The email test of the validator: no whitespace, exactly one `@` with
      text before it, and a domain with an inner dot. */
  function IsEmail(s: string): (ok: bool)
    ensures ok <==> MatchesEmailPattern(s)
  {
    var at := IndexOf(s, '@');
    var ok := NoSpace(s) && Count(s, '@') == 1 && 0 < at < |s| && HasInnerDot(s[at + 1..]);
    EmailComplete(s);
    if ok then EmailSound(s); ok else ok
  }

  /** A slice of class characters with at least one character is a run. */
  lemma RunOfSlice(s: string, lo: nat, hi: nat)
    requires lo < hi <= |s|
    requires forall k :: lo <= k < hi ==> EmailChar(s[k])
    ensures EmailRun(s[lo..hi])
  {
    assert forall k :: 0 <= k < hi - lo ==> s[lo..hi][k] == s[lo + k];
  }

  /** Every character of a run is a class character. */
  lemma CharsOfRun(s: string, lo: nat, hi: nat)
    requires lo <= hi <= |s|
    requires EmailRun(s[lo..hi])
    ensures forall k :: lo <= k < hi ==> EmailChar(s[k])
  {
    forall k | lo <= k < hi
      ensures EmailChar(s[k])
    {
      assert s[k] == s[lo..hi][k - lo];
    }
  }

  /** With exactly one `c` in `s`, found at `i`, no other position holds `c`. */
  lemma OnlyOccurrence(s: string, c: char, i: nat)
    requires i < |s| && s[i] == c && Count(s, c) == 1
    ensures forall k :: 0 <= k < |s| && k != i ==> s[k] != c
  {
    assert s == s[..i] + ([s[i]] + s[i + 1..]);
    CountAppend(s[..i], [s[i]] + s[i + 1..], c);
    CountAppend([s[i]], s[i + 1..], c);
    assert Count([s[i]], c) == 1;
    CountZero(s[..i], c);
    CountZero(s[i + 1..], c);
    forall k | 0 <= k < |s| && k != i
      ensures s[k] != c
    {
      if k < i {
        assert s[k] == s[..i][k];
      } else {
        assert s[k] == s[i + 1..][k - i - 1];
      }
    }
  }

  /** With no `c` except at `i`, `s` holds exactly one `c`. */
  lemma SingleOccurrence(s: string, c: char, i: nat)
    requires i < |s| && s[i] == c
    requires forall k :: 0 <= k < |s| && k != i ==> s[k] != c
    ensures Count(s, c) == 1
  {
    assert s == s[..i] + ([s[i]] + s[i + 1..]);
    CountAppend(s[..i], [s[i]] + s[i + 1..], c);
    CountAppend([s[i]], s[i + 1..], c);
    assert Count([s[i]], c) == 1;
    assert forall k :: 0 <= k < i ==> s[..i][k] == s[k];
    CountZero(s[..i], c);
    var tail := s[i + 1..];
    assert forall k :: 0 <= k < |tail| ==> tail[k] == s[i + 1 + k];
    CountZero(s[i + 1..], c);
  }

  /** Position of the first inner dot of the domain starting after `at`, as an index into `s`. */
  lemma InnerDotPosition(s: string, at: nat) returns (j: nat)
    requires at < |s| && HasInnerDot(s[at + 1..])
    ensures at + 1 < j < |s| - 1 && s[j] == '.'
  {
    var domain := s[at + 1..];
    var inner := domain[1..|domain| - 1];
    j := at + 2 + IndexOf(inner, '.');
    assert s[j] == inner[j - at - 2];
  }

  /** An inner dot of the domain, given as an index into `s`, makes `HasInnerDot` hold. */
  lemma InnerDotFound(s: string, at: nat, j: nat)
    requires at + 1 < j < |s| - 1 && s[j] == '.'
    ensures HasInnerDot(s[at + 1..])
  {
    var domain := s[at + 1..];
    var inner := domain[1..|domain| - 1];
    assert inner[j - at - 2] == '.';
  }

  lemma EmailSound(s: string)
    requires NoSpace(s) && Count(s, '@') == 1
    requires 0 < IndexOf(s, '@') < |s| && HasInnerDot(s[IndexOf(s, '@') + 1..])
    ensures MatchesEmailPattern(s)
  {
    var i := IndexOf(s, '@');
    var j := InnerDotPosition(s, i);
    OnlyOccurrence(s, '@', i);
    assert forall k :: 0 <= k < |s| && k != i ==> EmailChar(s[k]);
    RunOfSlice(s, 0, i);
    RunOfSlice(s, i + 1, j);
    RunOfSlice(s, j + 1, |s|);
    assert s[0..i] == s[..i] && s[j + 1..|s|] == s[j + 1..];
  }

  /** The first occurrence of `c` is at `i` when `s[i]` is `c` and no earlier character is. */
  lemma IndexOfAt(s: string, c: char, i: nat)
    requires i < |s| && s[i] == c
    requires forall k :: 0 <= k < i ==> s[k] != c
    ensures IndexOf(s, c) == i
  {
  }

  lemma EmailCompleteAt(s: string, i: nat, j: nat)
    requires 0 < i < j < |s| && s[i] == '@' && s[j] == '.'
    requires EmailRun(s[..i]) && EmailRun(s[i + 1..j]) && EmailRun(s[j + 1..])
    ensures NoSpace(s) && Count(s, '@') == 1
    ensures IndexOf(s, '@') == i && HasInnerDot(s[i + 1..])
  {
    assert s[0..i] == s[..i] && s[j + 1..|s|] == s[j + 1..];
    CharsOfRun(s, 0, i);
    CharsOfRun(s, i + 1, j);
    CharsOfRun(s, j + 1, |s|);
    assert forall k :: 0 <= k < |s| && k != i && k != j ==> EmailChar(s[k]);
    IndexOfAt(s, '@', i);
    SingleOccurrence(s, '@', i);
    InnerDotFound(s, i, j);
  }

  lemma EmailComplete(s: string)
    ensures MatchesEmailPattern(s) ==>
      && NoSpace(s) && Count(s, '@') == 1
      && 0 < IndexOf(s, '@') < |s| && HasInnerDot(s[IndexOf(s, '@') + 1..])
  {
    if MatchesEmailPattern(s) {
      var i, j :|
        && 0 < i < j < |s|
        && s[i] == '@' && s[j] == '.'
        && EmailRun(s[..i]) && EmailRun(s[i + 1..j]) && EmailRun(s[j + 1..]);
      EmailCompleteAt(s, i, j);
    }
  }

  /** The characterisation of a valid address in plain terms. */
  lemma EmailCharacterization(s: string)
    ensures MatchesEmailPattern(s) <==>
      && NoSpace(s)
      && Count(s, '@') == 1
      && 0 < IndexOf(s, '@')
      && exists k :: IndexOf(s, '@') + 1 < k < |s| - 1 && s[k] == '.'
  {
    var i := IndexOf(s, '@');
    EmailComplete(s);
    if MatchesEmailPattern(s) {
      var k := InnerDotPosition(s, i);
    } else if && NoSpace(s) && Count(s, '@') == 1 && 0 < i
              && exists k :: i + 1 < k < |s| - 1 && s[k] == '.' {
      var k :| i + 1 < k < |s| - 1 && s[k] == '.';
      InnerDotFound(s, i, k);
      EmailSound(s);
    }
  }

  // ---------------------------------------------------------------------
  // The telephone pattern /^[\d\s\-\+\(\)]+$/
  // ---------------------------------------------------------------------

  /** The class `[\d\s\-\+\(\)]`; `\d` is the ASCII digits only. */
  predicate TelChar(c: char) {
    ('0' <= c <= '9') || IsSpace(c) || c == '-' || c == '+' || c == '(' || c == ')'
  }

  /** The language of the whole anchored pattern: a non-empty run of the class. */
  ghost predicate MatchesTelPattern(s: string) {
    |s| > 0 && forall k :: 0 <= k < |s| ==> TelChar(s[k])
  }

  /** The test of the telephone pattern: one class character, then the rest of the run. */
  function IsTel(s: string): (ok: bool)
    ensures ok <==> MatchesTelPattern(s)
  {
    if s == [] then false
    else if !TelChar(s[0]) then false
    else if |s| == 1 then true
    else
      var rest := IsTel(s[1..]);
      assert forall k :: 1 <= k < |s| ==> s[k] == s[1..][k - 1];
      rest
  }

  // ---------------------------------------------------------------------
  // validateInput / validateForm
  // ---------------------------------------------------------------------

  /** `validateInput`: trim, then the required, email and telephone checks in
      that order, each failing one overwriting the message. */
  function ValidateInput(input: Input): (v: Verdict)
    ensures v.Invalid? ==> v.message == RequiredMessage || v.message == EmailMessage || v.message == TelMessage
  {
    var value := Trim(input.value);
    var (ok0, msg0) := (true, "");
    var (ok1, msg1) := if input.required && value == [] then (false, RequiredMessage) else (ok0, msg0);
    var (ok2, msg2) := if input.kind == EmailInput && value != [] && !IsEmail(value) then (false, EmailMessage) else (ok1, msg1);
    var (ok3, msg3) := if input.kind == TelInput && value != [] && !IsTel(value) then (false, TelMessage) else (ok2, msg2);
    if ok3 then Valid else Invalid(msg3)
  }

  /** What `validateInput` decides, in terms of the untrimmed value and the two patterns. */
  lemma ValidateInputMeaning(input: Input)
    // The required check fails exactly on an all-whitespace value.
    ensures input.required && AllSpace(input.value) ==> ValidateInput(input) == Invalid(RequiredMessage)
    // An empty optional input is valid: the format checks are skipped.
    ensures !input.required && AllSpace(input.value) ==> ValidateInput(input) == Valid
    ensures input.kind == EmailInput && !AllSpace(input.value) ==>
      (ValidateInput(input).Valid? <==> MatchesEmailPattern(Trim(input.value)))
    ensures input.kind == EmailInput && !AllSpace(input.value) && ValidateInput(input).Invalid? ==> ValidateInput(input).message == EmailMessage
    ensures input.kind == TelInput && !AllSpace(input.value) ==>
      (ValidateInput(input).Valid? <==> MatchesTelPattern(Trim(input.value)))
    ensures input.kind == TelInput && !AllSpace(input.value) && ValidateInput(input).Invalid? ==> ValidateInput(input).message == TelMessage
    ensures input.kind == OtherInput ==> (ValidateInput(input).Valid? <==> !(input.required && AllSpace(input.value)))
  {
    var value := Trim(input.value);
    TrimEmptyIff(input.value, value);
  }

  /** The inputs `validateForm` selects (`input[required], textarea[required]`), in document order. */
  function RequiredInputs(form: seq<Input>): (r: seq<Input>)
    ensures |r| <= |form|
    ensures forall k :: 0 <= k < |r| ==> r[k].required && r[k] in form
    ensures forall x :: x in form && x.required ==> x in r
  {
    if form == [] then []
    else
      var rest := RequiredInputs(form[1..]);
      assert forall x :: x in form[1..] ==> x in form;
      if form[0].required then [form[0]] + rest else rest
  }

  /** Every required input is selected as often as it occurs in the form, and
      nothing else is selected: two identical required fields get two verdicts. */
  lemma {:induction false} RequiredInputsCount(form: seq<Input>, x: Input)
    ensures multiset(RequiredInputs(form))[x] == if x.required then multiset(form)[x] else 0
  {
    if form != [] {
      RequiredInputsCount(form[1..], x);
      assert form == [form[0]] + form[1..];
      assert multiset(form) == multiset{form[0]} + multiset(form[1..]);
      var rest := RequiredInputs(form[1..]);
      if form[0].required {
        assert RequiredInputs(form) == [form[0]] + rest;
        assert multiset([form[0]] + rest) == multiset{form[0]} + multiset(rest);
      } else {
        assert RequiredInputs(form) == rest;
      }
    }
  }

  /** Selection keeps document order: selecting from two consecutive parts of a
      form gives the selections of the parts, one after the other. */
  lemma {:induction false} RequiredInputsAppend(a: seq<Input>, b: seq<Input>)
    ensures RequiredInputs(a + b) == RequiredInputs(a) + RequiredInputs(b)
  {
    if a != [] {
      var ab := a + b;
      assert ab[0] == a[0] && ab[1..] == a[1..] + b;
      RequiredInputsAppend(a[1..], b);
      var head := if a[0].required then [a[0]] else [];
      assert RequiredInputs(ab) == head + RequiredInputs(a[1..] + b);
      assert RequiredInputs(a) == head + RequiredInputs(a[1..]);
    } else {
      assert a + b == b;
    }
  }

  /** `validateForm`: validates every required input, without stopping at the
      first failure, and reports whether all passed. `verdicts[k]` is the
      verdict, with the message `validateInput` sets, for the k-th required input. */
  method ValidateForm(form: seq<Input>) returns (ok: bool, verdicts: seq<Verdict>)
    ensures |verdicts| == |RequiredInputs(form)|
    ensures forall k :: 0 <= k < |verdicts| ==> verdicts[k] == ValidateInput(RequiredInputs(form)[k])
    ensures ok <==> forall k :: 0 <= k < |verdicts| ==> verdicts[k].Valid?
    ensures ok <==> forall x :: x in form && x.required ==> ValidateInput(x).Valid?
  {
    ok, verdicts := ValidateEach(RequiredInputs(form), ValidateInput);
    SubmitAllowedIff(form, ValidateInput, ok, verdicts);
  }

  /** The loop of `validateForm`: every input is validated, failing ones included. */
  method ValidateEach(inputs: seq<Input>, validate: Input -> Verdict) returns (ok: bool, verdicts: seq<Verdict>)
    ensures |verdicts| == |inputs|
    ensures forall k :: 0 <= k < |inputs| ==> verdicts[k] == validate(inputs[k])
    ensures ok <==> forall k :: 0 <= k < |inputs| ==> verdicts[k].Valid?
  {
    ok := true;
    verdicts := [];
    var n := 0;
    while n < |inputs|
      invariant n <= |inputs|
      invariant |verdicts| == n
      invariant forall k :: 0 <= k < n ==> verdicts[k] == validate(inputs[k])
      invariant ok <==> forall k :: 0 <= k < n ==> verdicts[k].Valid?
    {
      var v := validate(inputs[n]);
      ok := ok && v.Valid?;
      verdicts := verdicts + [v];
      n := n + 1;
    }
  }

  /** Submission goes ahead exactly when every required input of the form is valid. */
  lemma SubmitAllowedIff(form: seq<Input>, validate: Input -> Verdict, ok: bool, verdicts: seq<Verdict>)
    requires |verdicts| == |RequiredInputs(form)|
    requires forall k :: 0 <= k < |verdicts| ==> verdicts[k] == validate(RequiredInputs(form)[k])
    requires ok <==> forall k :: 0 <= k < |verdicts| ==> verdicts[k].Valid?
    ensures ok <==> forall x :: x in form && x.required ==> validate(x).Valid?
  {
    var inputs := RequiredInputs(form);
    if ok {
      forall x | x in form && x.required
        ensures validate(x).Valid?
      {
        var k :| 0 <= k < |inputs| && inputs[k] == x;
        assert verdicts[k].Valid?;
      }
    } else {
      var k :| 0 <= k < |verdicts| && !verdicts[k].Valid?;
      assert inputs[k] in form && inputs[k].required;
    }
  }

  // ---------------------------------------------------------------------
  // Real-time validation: the error marker on an input
  // ---------------------------------------------------------------------

  /** One of the checks fails: a blank required value, or a non-blank email
      or telephone value that does not match its pattern once trimmed. */
  ghost predicate FailsACheck(input: Input) {
    || (input.required && AllSpace(input.value))
    || (input.kind == EmailInput && !AllSpace(input.value) && !MatchesEmailPattern(Trim(input.value)))
    || (input.kind == TelInput && !AllSpace(input.value) && !MatchesTelPattern(Trim(input.value)))
  }

  /** Leaving an input (`blur`) validates it; the marker is set exactly when
      a check fails on the trimmed value. */
  function AfterBlur(input: Input): (marked: bool)
    ensures marked <==> FailsACheck(input)
  {
    ValidateInputMeaning(input);
    ValidateInput(input).Invalid?
  }

  /** Editing an input (`input` event) re-validates it only while it is marked:
      the marker stays exactly when it was set and a check still fails. */
  function AfterEdit(marked: bool, input: Input): (marked': bool)
    ensures marked' <==> marked && FailsACheck(input)
  {
    ValidateInputMeaning(input);
    if marked then ValidateInput(input).Invalid? else false
  }

  /** Submitting the form runs `validateForm`, which re-validates the input
      only when it is required (the selector `[required]`). */
  function AfterSubmit(marked: bool, input: Input): (marked': bool)
    ensures input.required ==> (marked' <==> FailsACheck(input))
    ensures !input.required ==> marked' == marked
  {
    ValidateInputMeaning(input);
    if input.required then ValidateInput(input).Invalid? else marked
  }

  /** Something that happens to one input, carrying the input as it is at that
      moment: leaving it, typing into it, or submitting its form. */
  datatype FieldEvent = Blur(input: Input) | Edit(input: Input) | Submit(input: Input)

  /** The events that run `validateInput` whatever the marker is. */
  predicate Revalidates(e: FieldEvent) {
    e.Blur? || (e.Submit? && e.input.required)
  }

  /** The error marker after one event. */
  function React(marked: bool, e: FieldEvent): (marked': bool)
    ensures Revalidates(e) ==> (marked' <==> FailsACheck(e.input))
    ensures !Revalidates(e) ==> (marked' ==> marked)
    ensures e.Edit? ==> (marked' <==> marked && FailsACheck(e.input))
    ensures e.Submit? && !e.input.required ==> marked' == marked
  {
    match e
    case Blur(input) => AfterBlur(input)
    case Edit(input) => AfterEdit(marked, input)
    case Submit(input) => AfterSubmit(marked, input)
  }

  /** The error marker after a series of events, starting from `marked`. */
  function AfterEvents(marked: bool, events: seq<FieldEvent>): (m: bool)
    ensures events == [] ==> m == marked
    ensures events != [] && Revalidates(events[|events| - 1]) ==> (m <==> FailsACheck(events[|events| - 1].input))
    ensures events != [] && events[|events| - 1].Edit? && !FailsACheck(events[|events| - 1].input) ==> !m
  {
    if events == [] then marked
    else React(AfterEvents(marked, events[..|events| - 1]), events[|events| - 1])
  }

  /** Once the marker is off, it comes back only through a blur or a submit
      whose check fails: edits, and submits of an optional input, never set it. */
  lemma {:induction false} MarkerStaysCleared(marked: bool, events: seq<FieldEvent>, k: nat)
    requires k <= |events| && !AfterEvents(marked, events[..k])
    ensures AfterEvents(marked, events) ==>
      exists j :: k <= j < |events| && Revalidates(events[j]) && FailsACheck(events[j].input)
  {
    if |events| == k {
      assert events[..k] == events;
    } else if AfterEvents(marked, events) {
      var n := |events| - 1;
      var init := events[..n];
      assert init[..k] == events[..k];
      if !Revalidates(events[n]) {
        MarkerStaysCleared(marked, init, k);
        var j :| k <= j < |init| && Revalidates(init[j]) && FailsACheck(init[j].input);
        assert events[j] == init[j];
      }
    }
  }

  /** From an unmarked input, a marker is always explained by a failing
      validation on a blur or a submit. */
  lemma MarkerJustified(events: seq<FieldEvent>)
    ensures AfterEvents(false, events) ==>
      exists j :: 0 <= j < |events| && Revalidates(events[j]) && FailsACheck(events[j].input)
  {
    assert events[..0] == [];
    MarkerStaysCleared(false, events, 0);
  }
}
