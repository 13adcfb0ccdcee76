/** The sign-up / login form of `sign-up.jsx`: three input strings, the step being
    shown (email, password, confirm password), the login/sign-up mode and the modal
    that reports progress. Event handlers are pure functions from form to form; the
    asynchronous `onAuth` call is represented by the reply it resolves to, and the
    timer that turns the loading modal into the success modal is an event of its own. */
module SignUp {
  import opened Wrappers

  // ---------------------------------------------------------------------------
  // Validators
  // ---------------------------------------------------------------------------

  /** The characters JavaScript's `\s` matches: the ECMAScript white-space and
      line-terminator code points. `\S` is every other character. */
  predicate IsSpace(c: char) {
    || c == '\t' || c == '\n' || c == '\U{B}' || c == '\U{C}' || c == '\r' || c == ' '
    || c == '\U{A0}' || c == '\U{1680}' || ('\U{2000}' <= c <= '\U{200A}')
    || c == '\U{2028}' || c == '\U{2029}' || c == '\U{202F}' || c == '\U{205F}'
    || c == '\U{3000}' || c == '\U{FEFF}'
  }

  predicate AllNonSpace(s: string) {
    forall k | 0 <= k < |s| :: !IsSpace(s[k])
  }

  /** `s[a..b]` is a match of the regular expression `\S+@\S+\.\S+` whose literal
      '@' sits at `i` and whose literal '.' sits at `j`. */
  predicate RegexMatchAt(s: string, a: int, i: int, j: int, b: int)
    requires 0 <= a <= i < j < b <= |s|
  {
    && a < i && AllNonSpace(s[a..i])
    && s[i] == '@'
    && i + 1 < j && AllNonSpace(s[i + 1..j])
    && s[j] == '.'
    && j + 1 < b && AllNonSpace(s[j + 1..b])
  }

  /** `/\S+@\S+\.\S+/.test(s)`: the test is unanchored, so it succeeds when any
      substring matches. */
  ghost predicate RegexMatches(s: string) {
    exists a, i, j, b | 0 <= a <= i < j < b <= |s| :: RegexMatchAt(s, a, i, j, b)
  }

  /** A match with '@' at `i` and '.' at `j`, each outer `\S+` cut down to the one
      character next to its literal. */
  predicate EmailMatchAt(s: string, i: int, j: int)
    requires 0 < i < j < |s| - 1
  {
    && !IsSpace(s[i - 1]) && s[i] == '@'
    && i + 1 < j && (forall k | i < k < j :: !IsSpace(s[k]))
    && s[j] == '.' && !IsSpace(s[j + 1])
  }

  /** `isEmailValid` (sign-up.jsx:181). */
  predicate EmailValid(s: string) {
    exists i, j | 0 < i < j < |s| - 1 :: EmailMatchAt(s, i, j)
  }

  /** The validator agrees with the regular expression's semantics. */
  lemma EmailValidIsRegex(s: string)
    ensures EmailValid(s) <==> RegexMatches(s)
  {
    if EmailValid(s) {
      var i, j :| 0 < i < j < |s| - 1 && EmailMatchAt(s, i, j);
      assert RegexMatchAt(s, i - 1, i, j, j + 2);
    }
    if RegexMatches(s) {
      var a, i, j, b :| 0 <= a <= i < j < b <= |s| && RegexMatchAt(s, a, i, j, b);
      assert s[a..i][i - 1 - a] == s[i - 1];
      assert s[j + 1..b][0] == s[j + 1];
      forall k | i < k < j
        ensures !IsSpace(s[k])
      {
        assert s[i + 1..j][k - i - 1] == s[k];
      }
      assert EmailMatchAt(s, i, j);
    }
  }

  /** One left-to-right pass deciding `EmailValid`. It tracks the maximal run of
      non-space characters ending at the cursor and the first '@' inside that run
      that has a run character before it. */
  method ScanEmail(s: string) returns (ok: bool)
    ensures ok <==> EmailValid(s)
  {
    var k, runStart, firstAt := 0, 0, -1;
    ok := false;
    while k < |s|
      invariant 0 <= runStart <= k <= |s|
      invariant forall m | runStart <= m < k :: !IsSpace(s[m])
      invariant runStart > 0 ==> IsSpace(s[runStart - 1])
      invariant firstAt == -1 || (runStart < firstAt < k && s[firstAt] == '@')
      invariant firstAt == -1 ==> forall m | runStart < m < k :: s[m] != '@'
      invariant firstAt != -1 ==> forall m | runStart < m < firstAt :: s[m] != '@'
      invariant ok <==> exists i, j | 0 < i < j && j + 1 < k :: EmailMatchAt(s, i, j)
    {
      if IsSpace(s[k]) {
        runStart, firstAt := k + 1, -1;
      } else {
        if 1 <= k && s[k - 1] == '.' && firstAt != -1 && firstAt + 1 < k - 1 {
          assert EmailMatchAt(s, firstAt, k - 1);
          ok := true;
        } else if k >= 1 {
          MatchIsTracked(s, k, k - 1, runStart, firstAt);
        }
        if s[k] == '@' && firstAt == -1 && runStart < k {
          firstAt := k;
        }
      }
      k := k + 1;
    }
  }

  /** A match whose last character is `s[k]` lies inside the current run, so the
      scanner's first tracked '@' is at or before its '@'. */
  lemma MatchIsTracked(s: string, k: int, j: int, runStart: int, firstAt: int)
    requires 0 <= runStart <= k < |s| && 1 <= k && j == k - 1 && !IsSpace(s[k])
    requires forall m | runStart <= m < k :: !IsSpace(s[m])
    requires runStart > 0 ==> IsSpace(s[runStart - 1])
    requires firstAt == -1 || (runStart < firstAt < k && s[firstAt] == '@')
    requires firstAt == -1 ==> forall m | runStart < m < k :: s[m] != '@'
    requires firstAt != -1 ==> forall m | runStart < m < firstAt :: s[m] != '@'
    ensures forall i | 0 < i < j :: EmailMatchAt(s, i, j) ==> firstAt != -1 && firstAt + 1 < j
  {
    forall i | 0 < i < j && EmailMatchAt(s, i, j)
      ensures firstAt != -1 && firstAt + 1 < j
    {
      assert forall m | i - 1 <= m <= k :: !IsSpace(s[m]);
      assert runStart <= i - 1;
    }
  }

  /** `password.length`: JavaScript counts UTF-16 code units, so a character outside
      the Basic Multilingual Plane counts twice. */
  function Utf16Length(s: string): (n: nat)
    ensures |s| <= n <= 2 * |s|
  {
    if |s| == 0 then 0
    else (if s[0] as int > 0xFFFF then 2 else 1) + Utf16Length(s[1..])
  }

  const MinPasswordLength := 6

  /** `isPasswordValid` and `isConfirmPasswordValid` (sign-up.jsx:182-183). */
  predicate PasswordValid(p: string) {
    Utf16Length(p) >= MinPasswordLength
  }

  /** A password of at least six characters is valid; one of fewer than three is not. */
  lemma PasswordValidBounds(p: string)
    ensures |p| >= 6 ==> PasswordValid(p)
    ensures |p| < 3 ==> !PasswordValid(p)
  {
  }

  // ---------------------------------------------------------------------------
  // Form state
  // ---------------------------------------------------------------------------

  /** `authStep`. */
  datatype Step = EmailStep | PasswordStep | ConfirmStep

  /** `modalStatus`: 'closed', 'loading', 'error', 'success'. */
  datatype Modal = Closed | Loading | Error | Success

  /** The component's state, less the show-password toggles, which only change how an
      input is drawn. */
  datatype Form = Form(
    email: string,
    password: string,
    confirmPassword: string,
    loginMode: bool,
    step: Step,
    modal: Modal,
    modalError: string)

  /** The state the `useState` initialisers give (sign-up.jsx:170-178). */
  const Initial := Form("", "", "", false, EmailStep, Closed, "")

  const PasswordsMismatch := "Passwords do not match!"
  const AuthFailedFallback := "Authentication failed"

  /** What an `onAuth` promise resolves to: `result.success` and `result.error`. */
  datatype AuthReply = AuthReply(success: bool, error: Option<string>)

  /** The `onAuth` prop: absent, or a handler that will resolve to `reply`. */
  datatype AuthHandler = NoHandler | Handler(reply: AuthReply)

  /** The arguments of a call to `onAuth(email, password, isLoginMode)`. */
  datatype AuthRequest = AuthRequest(email: string, password: string, isLogin: bool)

  /** A form after a handler, and the `onAuth` call it made, if any. */
  datatype Outcome = Outcome(form: Form, request: Option<AuthRequest>)

  /** `result.error || "Authentication failed"`: an absent or empty message falls back
      to the default. */
  function FailureText(error: Option<string>): (r: string)
    ensures r != ""
    ensures error.Some? && error.value != "" ==> r == error.value
    ensures (error.None? || error.value == "") ==> r == AuthFailedFallback
  {
    if error.Some? && error.value != "" then error.value else AuthFailedFallback
  }

  /** The early returns of `handleFinalSubmit`: the modal must be closed, and the
      step must be confirmPassword in sign-up mode and password in login mode. */
  predicate SubmitAllowed(f: Form) {
    f.modal == Closed && f.step == (if f.loginMode then PasswordStep else ConfirmStep)
  }

  /** In sign-up mode the two passwords must agree; login mode skips the check. */
  predicate PasswordsAgree(f: Form) {
    f.loginMode || f.password == f.confirmPassword
  }

  /** `handleFinalSubmit` once `onAuth` (if any) has resolved. A form that reaches
      `Loading` has the success timer running. */
  function Submit(f: Form, h: AuthHandler): (r: Outcome)
    // Only the modal and its message ever change.
    ensures r.form.(modal := f.modal, modalError := f.modalError) == f
    ensures !SubmitAllowed(f) ==> r.form == f && r.request == None
    ensures SubmitAllowed(f) && !PasswordsAgree(f) ==>
      r.form.modal == Error && r.form.modalError == PasswordsMismatch && r.request == None
    ensures r.request.Some? <==> SubmitAllowed(f) && PasswordsAgree(f) && h.Handler?
    ensures r.request.Some? ==> r.request.value == AuthRequest(f.email, f.password, f.loginMode)
    ensures SubmitAllowed(f) ==>
      (r.form.modal == Loading <==> PasswordsAgree(f) && (h.NoHandler? || h.reply.success))
    ensures r.form.modal == Loading ==> r.form.modalError == f.modalError
    ensures SubmitAllowed(f) && PasswordsAgree(f) && h.Handler? && !h.reply.success ==>
      r.form.modal == Error && r.form.modalError == FailureText(h.reply.error)
  {
    if !SubmitAllowed(f) then Outcome(f, None)
    else if !PasswordsAgree(f) then
      Outcome(f.(modal := Error, modalError := PasswordsMismatch), None)
    else
      match h
      case NoHandler => Outcome(f.(modal := Loading), None)
      case Handler(reply) =>
        var request := Some(AuthRequest(f.email, f.password, f.loginMode));
        if reply.success then Outcome(f.(modal := Loading), request)
        else Outcome(f.(modal := Error, modalError := FailureText(reply.error)), request)
  }

  /** `handleProgressStep`: the Enter key or the arrow button. */
  function ProgressStep(f: Form, h: AuthHandler): (r: Outcome)
    ensures f.step == EmailStep ==>
      r == Outcome(if EmailValid(f.email) then f.(step := PasswordStep) else f, None)
    ensures f.step == PasswordStep && !PasswordValid(f.password) ==> r == Outcome(f, None)
    ensures f.step == PasswordStep && PasswordValid(f.password) && !f.loginMode ==>
      r == Outcome(f.(step := ConfirmStep), None)
    ensures f.step == PasswordStep && PasswordValid(f.password) && f.loginMode ==>
      r == Submit(f, h)
    ensures f.step == ConfirmStep ==> r == Outcome(f, None)
  {
    match f.step
    case EmailStep =>
      Outcome(if EmailValid(f.email) then f.(step := PasswordStep) else f, None)
    case PasswordStep =>
      if !PasswordValid(f.password) then Outcome(f, None)
      else if f.loginMode then Submit(f, h)
      else Outcome(f.(step := ConfirmStep), None)
    case ConfirmStep => Outcome(f, None)
  }

  /** `handleGoBack`. */
  function GoBack(f: Form): (r: Form)
    ensures f.step == ConfirmStep ==> r == f.(step := PasswordStep, confirmPassword := "")
    ensures f.step == PasswordStep ==> r == f.(step := EmailStep)
    ensures f.step == EmailStep ==> r == f
  {
    match f.step
    case ConfirmStep => f.(step := PasswordStep, confirmPassword := "")
    case PasswordStep => f.(step := EmailStep)
    case EmailStep => f
  }

  /** `closeModal`. */
  function CloseModal(f: Form): (r: Form)
    ensures r.modal == Closed && r.modalError == ""
    ensures r.(modal := f.modal, modalError := f.modalError) == f
  {
    f.(modal := Closed, modalError := "")
  }

  // ---------------------------------------------------------------------------
  // Events and reachable states
  // ---------------------------------------------------------------------------

  /** What a user (or the success timer) can do to the form. */
  datatype Event =
    | TypeEmail(text: string)
    | TypePassword(text: string)
    | TypeConfirm(text: string)
    | Progress(handler: AuthHandler)
    | SubmitForm(handler: AuthHandler)
    | Back
    | ToggleMode
    | CloseButton
    | SuccessTimer

  /** Whether the rendered page offers the event. Every input and button of the form
      sits in a `fieldset` disabled while the modal is open. The email input shows on
      the email and password steps, the password input only on the password step, the
      confirm input only on the confirm step, which also holds the form's only submit
      button (with the confirm input alone on screen, Enter submits the form even when
      that button is hidden). Back shows on the password and confirm steps, the mode
      toggle on the email step, and the modal's close buttons on the error and success
      modals. */
  predicate Enabled(f: Form, e: Event) {
    match e
    case TypeEmail(_) => f.modal == Closed && f.step != ConfirmStep
    case TypePassword(_) => f.modal == Closed && f.step == PasswordStep
    case TypeConfirm(_) => f.modal == Closed && f.step == ConfirmStep
    case Progress(_) => f.modal == Closed && f.step != ConfirmStep
    case SubmitForm(_) => f.modal == Closed && f.step == ConfirmStep
    case Back => f.modal == Closed && f.step != EmailStep
    case ToggleMode => f.modal == Closed && f.step == EmailStep
    case CloseButton => f.modal == Error || f.modal == Success
    case SuccessTimer => f.modal == Loading
  }

  /** The handler an event runs. */
  function Apply(f: Form, e: Event): Form {
    match e
    case TypeEmail(t) => f.(email := t)
    case TypePassword(t) => f.(password := t)
    case TypeConfirm(t) => f.(confirmPassword := t)
    case Progress(h) => ProgressStep(f, h).form
    case SubmitForm(h) => Submit(f, h).form
    case Back => GoBack(f)
    case ToggleMode => f.(loginMode := !f.loginMode)
    case CloseButton => CloseModal(f)
    case SuccessTimer => f.(modal := Success)
  }

  /** An event the page does not offer cannot happen. */
  function StepForm(f: Form, e: Event): Form {
    if Enabled(f, e) then Apply(f, e) else f
  }

  function Run(f: Form, es: seq<Event>): Form
    decreases |es|
  {
    if |es| == 0 then f else Run(StepForm(f, es[0]), es[1..])
  }

  /** What every reachable form satisfies:
      - the modal shows a message exactly when it is the error modal;
      - the confirm step is only reached in sign-up mode with a valid password;
      - the loading and success modals are only reached through a submit that passed
        its guards: in login mode from the password step with a valid password, in
        sign-up mode from the confirm step with matching passwords. */
  predicate Inv(f: Form) {
    && (f.modal == Error <==> f.modalError != "")
    && (f.step == ConfirmStep ==> !f.loginMode && PasswordValid(f.password))
    && ((f.modal == Loading || f.modal == Success) ==>
          if f.loginMode then f.step == PasswordStep && PasswordValid(f.password)
          else f.step == ConfirmStep && f.password == f.confirmPassword)
  }

  lemma InitialInv()
    ensures Inv(Initial)
  {
  }

  lemma StepPreservesInv(f: Form, e: Event)
    requires Inv(f)
    ensures Inv(StepForm(f, e))
  {
    if Enabled(f, e) {
      match e
      case Progress(h) =>
        if f.step == PasswordStep && PasswordValid(f.password) && f.loginMode {
          assert SubmitAllowed(f) && PasswordsAgree(f);
        }
      case SubmitForm(h) =>
        assert SubmitAllowed(f);
      case _ =>
    }
  }

  lemma {:induction false} RunPreservesInv(f: Form, es: seq<Event>)
    requires Inv(f)
    ensures Inv(Run(f, es))
    decreases |es|
  {
    if |es| > 0 {
      StepPreservesInv(f, es[0]);
      RunPreservesInv(StepForm(f, es[0]), es[1..]);
    }
  }

  /** Whatever the user does, the success modal of a sign-up shows two matching,
      valid passwords, and the success modal of a login a valid password. */
  lemma SuccessOnlyAfterValidInput(es: seq<Event>)
    ensures var f := Run(Initial, es);
      f.modal == Success ==>
        PasswordValid(f.password) && (!f.loginMode ==> f.confirmPassword == f.password)
  {
    InitialInv();
    RunPreservesInv(Initial, es);
  }

  /** Running one event and then the rest. */
  lemma RunCons(f: Form, e: Event, es: seq<Event>)
    ensures Run(f, [e] + es) == Run(StepForm(f, e), es)
  {
    assert ([e] + es)[1..] == es;
  }

  /** With no `onAuth` handler, typing a valid e-mail, progressing, typing a valid
      password, progressing, confirming it and submitting reaches the success modal
      once the timer fires; nothing else of the form changes on the way. */
  lemma SignUpWithoutHandlerSucceeds(email: string, password: string)
    requires EmailValid(email) && PasswordValid(password)
    ensures Run(Initial, [TypeEmail(email), Progress(NoHandler), TypePassword(password), Progress(NoHandler),
                          TypeConfirm(password), SubmitForm(NoHandler), SuccessTimer])
            == Form(email, password, password, false, ConfirmStep, Success, "")
  {
    var es := [TypeEmail(email), Progress(NoHandler), TypePassword(password), Progress(NoHandler),
               TypeConfirm(password), SubmitForm(NoHandler), SuccessTimer];
    var f1 := Form(email, "", "", false, EmailStep, Closed, "");
    var f2 := Form(email, "", "", false, PasswordStep, Closed, "");
    var f3 := Form(email, password, "", false, PasswordStep, Closed, "");
    var f4 := Form(email, password, "", false, ConfirmStep, Closed, "");
    var f5 := Form(email, password, password, false, ConfirmStep, Closed, "");
    var f6 := Form(email, password, password, false, ConfirmStep, Loading, "");
    var f7 := Form(email, password, password, false, ConfirmStep, Success, "");
    assert StepForm(Initial, es[0]) == f1;
    assert StepForm(f1, es[1]) == f2;
    assert StepForm(f2, es[2]) == f3;
    assert StepForm(f3, es[3]) == f4;
    assert StepForm(f4, es[4]) == f5;
    assert StepForm(f5, es[5]) == f6;
    assert StepForm(f6, es[6]) == f7;
    RunCons(f6, es[6], es[7..]);
    RunCons(f5, es[5], es[6..]);
    RunCons(f4, es[4], es[5..]);
    RunCons(f3, es[3], es[4..]);
    RunCons(f2, es[2], es[3..]);
    RunCons(f1, es[1], es[2..]);
    RunCons(Initial, es[0], es[1..]);
    assert forall k | 0 <= k < 7 :: es[k..] == [es[k]] + es[k + 1..];
  }


  // ---------------------------------------------------------------------------
  // TextLoop
  // ---------------------------------------------------------------------------

  /** JavaScript's `%`: the result takes the sign of the dividend. */
  function JsRem(a: int, n: int): int
    requires n != 0
  {
    if a >= 0 then a % n else -((-a) % n)
  }

  /** One tick of `TextLoop`'s interval over `n` items (sign-up.jsx:38-45). With no
      items `(current + 1) % 0` is NaN, which is `None` here. */
  function NextIndex(current: int, n: nat, stopOnEnd: bool): (r: Option<int>)
    ensures stopOnEnd && current == n - 1 ==> r == Some(current)
    ensures n == 0 && !(stopOnEnd && current == -1) ==> r == None
    ensures 0 <= current < n ==> r.Some? && 0 <= r.value < n
    ensures 0 <= current < n - 1 ==> r == Some(current + 1)
    ensures !stopOnEnd && n > 0 && current == n - 1 ==> r == Some(0)
  {
    if stopOnEnd && current == n - 1 then Some(current)
    else if n == 0 then None
    else Some(JsRem(current + 1, n))
  }

  /** The index after `k` ticks from the initial index 0. */
  function Ticks(n: nat, stopOnEnd: bool, k: nat): (r: int)
    requires n > 0
    ensures 0 <= r < n
  {
    if k == 0 then 0 else NextIndex(Ticks(n, stopOnEnd, k - 1), n, stopOnEnd).value
  }

  /** `d * n >= n` for positive `d` and `n`. */
  lemma {:induction false} MulAtLeast(d: int, n: int)
    requires n > 0 && d >= 1
    ensures d * n >= n
  {
    if d > 1 {
      MulAtLeast(d - 1, n);
      assert d * n == (d - 1) * n + n;
    }
  }

  /** `(a + 1) % n` in terms of `a % n`. */
  lemma ModNext(a: nat, n: nat)
    requires n > 0
    ensures (a + 1) % n == if a % n == n - 1 then 0 else a % n + 1
  {
    var q, r := a / n, a % n;
    var q', r' := (a + 1) / n, (a + 1) % n;
    assert a == n * q + r;
    assert a + 1 == n * q' + r';
    var d := q' - q;
    assert n * d == r + 1 - r';
    if d >= 1 { MulAtLeast(d, n); }
    if d >= 2 { MulAtLeast(d - 1, n); }
    if d <= -1 { MulAtLeast(-d, n); }
  }

  /** Without `stopOnEnd` the loop cycles through the items. */
  lemma {:induction false} TicksCycle(n: nat, k: nat)
    requires n > 0
    ensures Ticks(n, false, k) == k % n
  {
    if k > 0 {
      TicksCycle(n, k - 1);
      ModNext(k - 1, n);
    }
  }

  /** With `stopOnEnd` the loop climbs to the last item and stays there. */
  lemma {:induction false} TicksStop(n: nat, k: nat)
    requires n > 0
    ensures Ticks(n, true, k) == if k < n then k else n - 1
  {
    if k > 0 {
      TicksStop(n, k - 1);
    }
  }
}
