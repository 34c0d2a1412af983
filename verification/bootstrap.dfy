/**
 * The `__main__` block of the bootstrap script as one function from the
 * observations of a run to what the run prints, what it does to the browser
 * page, and how it ends.
 */
module Bootstrap {
  import opened Wrappers
  import opened Exceptions
  import opened Browser
  import Provisioning
  import CssClass
  import ClientId
  import Screen
  import UserSelect
  import Devices

  /** The parsed command line; `username` and `password` only reach the account lookup. */
  datatype Options = Options(username: string, password: string, initTimeout: int, pin: Option<string>)

  /**
   * Values the script has written into its source: what it types into the
   * credential form and the username its user-entry XPath selects.
   */
  datatype Literals = Literals(formEmail: string, formPassword: string, entryName: string)

  /**
   * Everything the run observes from outside: Docker's results, the connect
   * attempts, the page at each poll of each bounded wait, the URL after the
   * sign-in click, the user-select list and the account's devices.
   */
  datatype Environment = Environment(
    dockerFound: bool,
    pullCode: int,
    runCode: int,
    attempts: seq<Provisioning.Attempt>,
    signInVisible: seq<bool>,
    signInClasses: seq<string>,
    urlAfterSignIn: string,
    submitVisible: seq<bool>,
    postLoginPages: seq<seq<Element>>,
    entries: seq<UserEntry>,
    headerVisible: seq<bool>,
    devices: seq<Devices.Device>)

  /** How the process ends: `exit(code)`, normal completion (`Exited(0)`), or an uncaught exception. */
  datatype Status = Exited(code: int) | Raised(exception: Exception)

  /**
   * What the script itself prints, the actions it performs on the page, and
   * how it ends. The output of the `docker` subprocesses, which shares the
   * script's standard output, is not part of `stdout`.
   */
  datatype Outcome = Outcome(stdout: seq<string>, actions: seq<Action>, status: Status)

  /** The process exit status; an uncaught exception exits with 1. */
  function ExitCode(s: Status): int
  {
    match s
    case Exited(c) => c
    case Raised(_) => 1
  }

  /** A bounded visibility wait over its polls. */
  function AwaitVisible(polls: seq<bool>): (r: Result<bool, Exception>)
    ensures r.Success? <==> exists i :: 0 <= i < |polls| && polls[i]
    ensures r.Failure? ==> r.error == Timeout
  {
    var shown := seq(|polls|, i requires 0 <= i < |polls| => if polls[i] then Some(true) else None);
    assert forall i :: 0 <= i < |polls| ==> (shown[i].Some? <==> polls[i]);
    Until(shown)
  }

  /**
   * The exceptions the browser part can end with: a wait's timeout, the
   * split's `IndexError`, the missing `clientID` key, a failed entry lookup,
   * the missing PIN, and the missing device.
   */
  predicate BrowseException(e: Exception)
  {
    e.Timeout? || e.IndexError? || e == KeyError(ClientId.ClientIdKey) || e.NoSuchElement?
    || e.PinRequired? || e.ClientNotFound?
  }

  /** Whether the line is a token line. */
  predicate IsTokenLine(line: string)
  {
    Devices.ReadTokenLine(line).Some?
  }

  /**
   * Lines 90-100: wait for the sign-in button to show, wait until it no
   * longer has the `isDisabled` class, click it, and capture the client
   * identifier from the URL it leads to.
   */
  function CaptureClientId(env: Environment): (r: (Result<string, Exception>, seq<Action>))
    // the button is clicked at most once, and nothing is sent to the focused field
    ensures r.1 == [] || r.1 == [ClickSignIn]
    ensures SendCount(r.1) == 0
    // it is clicked only once it showed and a poll found `isDisabled` gone from its classes
    ensures r.1 == [ClickSignIn] <==>
      (exists i :: 0 <= i < |env.signInVisible| && env.signInVisible[i])
      && exists i :: 0 <= i < |env.signInClasses| && !CssClass.HasClass(env.signInClasses[i], CssClass.Disabled)
    // the URL is read only after the click; without the click a wait timed out
    ensures r.1 == [ClickSignIn] ==> r.0 == ClientId.ExtractClientId(env.urlAfterSignIn)
    ensures r.1 == [] ==> r.0 == Failure(Timeout)
    ensures r.0.Failure? ==> r.0.error.Timeout? || r.0.error.IndexError? || r.0.error == KeyError(ClientId.ClientIdKey)
  {
    match AwaitVisible(env.signInVisible)
    case Failure(e) => (Failure(e), [])
    case Success(_) =>
      var disabled := seq(|env.signInClasses|, i requires 0 <= i < |env.signInClasses| =>
        CssClass.HasClass(env.signInClasses[i], CssClass.Disabled));
      assert forall i :: 0 <= i < |disabled| ==>
        (disabled[i] <==> CssClass.HasClass(env.signInClasses[i], CssClass.Disabled));
      match UntilNot(disabled)
      case Failure(e) => (Failure(e), [])
      case Success(_) =>
        NoSends([ClickSignIn]);
        (ClientId.ExtractClientId(env.urlAfterSignIn), [ClickSignIn])
  }

  /**
   * Lines 102-109: wait for the submit button, type the credentials, submit,
   * and wait for either post-login screen.
   */
  function LogIn(env: Environment, lits: Literals): (r: (Result<Element, Exception>, seq<Action>))
    // the form is filled and submitted iff the submit button showed
    ensures r.1 == [] <==> forall i :: 0 <= i < |env.submitVisible| ==> !env.submitVisible[i]
    ensures r.1 != [] ==>
      r.1 == [TypeInto(EmailField, lits.formEmail), TypeInto(PasswordField, lits.formPassword), ClickSubmit]
    ensures SendCount(r.1) == 0
    // a screen is found iff the form was submitted and some poll's page satisfies the classifier
    ensures r.0.Success? <==> (r.1 != []
      && exists i :: 0 <= i < |env.postLoginPages| && Screen.LibraryOrUsers(env.postLoginPages[i]).Success?)
    // and the screen is the classifier's result at the first poll it accepts
    ensures r.0.Success? ==>
      exists i :: (0 <= i < |env.postLoginPages| && Screen.LibraryOrUsers(env.postLoginPages[i]) == r.0
        && forall k :: 0 <= k < i ==> Screen.LibraryOrUsers(env.postLoginPages[k]).Failure?)
    ensures r.0.Failure? ==> r.0.error == Timeout
  {
    match AwaitVisible(env.submitVisible)
    case Failure(e) => (Failure(e), [])
    case Success(_) =>
      var typed := [TypeInto(EmailField, lits.formEmail), TypeInto(PasswordField, lits.formPassword), ClickSubmit];
      NoSends(typed);
      (Screen.PostLoginScreen(env.postLoginPages), typed)
  }

  /** Lines 128-138: resolve the identifier and print the token line. */
  function Finish(env: Environment, clientId: string, acted: seq<Action>): (o: Outcome)
    ensures o.actions == acted
    // the run completes iff some device carries the identifier
    ensures o.status.Exited? <==> exists i :: 0 <= i < |env.devices| && env.devices[i].clientIdentifier == clientId
    ensures o.status.Exited? ==> o.status.code == 0
    // and then it prints the token of the first such device, and nothing else
    ensures o.status.Exited? ==> exists i :: (0 <= i < |env.devices| && env.devices[i].clientIdentifier == clientId
      && o.stdout == [Devices.TokenLine(env.devices[i].token)]
      && forall j :: 0 <= j < i ==> env.devices[j].clientIdentifier != clientId)
    ensures o.status.Raised? ==> o.status == Raised(ClientNotFound) && o.stdout == []
  {
    match Devices.Resolve(env.devices, clientId)
    case Failure(e) => Outcome([], acted, Raised(e))
    case Success(line) => Outcome([line], acted, Exited(0))
  }

  /** The part of the run after the container is up and a session is open. */
  function Browse(env: Environment, opts: Options, lits: Literals): (o: Outcome)
    ensures o.status.Exited? ==> o.status.code == 0
    // completing means the identifier was captured and the first device carrying it printed its token
    ensures o.status.Exited? ==> ClientId.ExtractClientId(env.urlAfterSignIn).Success?
    ensures o.status.Exited? ==>
      var clientId := ClientId.ExtractClientId(env.urlAfterSignIn).value;
      exists i :: (0 <= i < |env.devices| && env.devices[i].clientIdentifier == clientId
        && o.stdout == [Devices.TokenLine(env.devices[i].token)]
        && forall j :: 0 <= j < i ==> env.devices[j].clientIdentifier != clientId)
    // a raising run prints nothing, and the exception is one the steps can raise
    ensures o.status.Raised? ==> o.stdout == []
    ensures o.status.Raised? ==> BrowseException(o.status.exception)
  {
    var (captured, signedIn) := CaptureClientId(env);
    if captured.Failure? then Outcome([], signedIn, Raised(captured.error))
    else SignedIn(env, opts, lits, captured.value, signedIn)
  }

  /** Lines 102-138: the rest of the browser part, once the identifier is captured. */
  function SignedIn(env: Environment, opts: Options, lits: Literals, clientId: string, signedIn: seq<Action>): (o: Outcome)
    ensures o.status.Exited? ==> o.status.code == 0
    ensures o.status.Exited? ==> exists i :: (0 <= i < |env.devices| && env.devices[i].clientIdentifier == clientId
      && o.stdout == [Devices.TokenLine(env.devices[i].token)]
      && forall j :: 0 <= j < i ==> env.devices[j].clientIdentifier != clientId)
    ensures o.status.Raised? ==> o.stdout == []
    ensures o.status.Raised? ==> var e := o.status.exception;
      e.Timeout? || e.NoSuchElement? || e.PinRequired? || e.ClientNotFound?
  {
    var (screen, typed) := LogIn(env, lits);
    var submitted := signedIn + typed;
    if screen.Failure? then Outcome([], submitted, Raised(screen.error))
    else Selected(env, opts, lits, clientId, submitted, screen.value)
  }

  /** Lines 111-138: the user-select branch on the post-login screen `elm`, then the resolution. */
  function Selected(env: Environment, opts: Options, lits: Literals, clientId: string, submitted: seq<Action>,
                    elm: Element): (o: Outcome)
    ensures o.status.Exited? ==> o.status.code == 0
    ensures o.status.Exited? ==> exists i :: (0 <= i < |env.devices| && env.devices[i].clientIdentifier == clientId
      && o.stdout == [Devices.TokenLine(env.devices[i].token)]
      && forall j :: 0 <= j < i ==> env.devices[j].clientIdentifier != clientId)
    ensures o.status.Raised? ==> o.stdout == []
    ensures o.status.Raised? ==> var e := o.status.exception;
      e.Timeout? || e.NoSuchElement? || e.PinRequired? || e.ClientNotFound?
  {
    var step := UserSelect.SelectUser(elm, env.entries, lits.entryName, opts.pin, env.headerVisible);
    var acted := submitted + step.actions;
    if step.error.Some? then Outcome([], acted, Raised(step.error.value))
    else Finish(env, clientId, acted)
  }

  /** The whole `__main__` block. */
  function Run(env: Environment, opts: Options, lits: Literals): (o: Outcome)
    // the run succeeds exactly when the script prints a token line, and then it prints nothing else
    ensures ExitCode(o.status) == 0 <==> exists t :: o.stdout == [Devices.TokenLine(t)]
    ensures forall k :: 0 <= k < |o.stdout| && IsTokenLine(o.stdout[k]) ==> ExitCode(o.status) == 0
  {
    match Provisioning.Provision(env.dockerFound, env.pullCode, env.runCode)
    case Some(halt) =>
      var out := match halt.message case Some(m) => [m] case None => [];
      NotTokenLines();
      Outcome(out, [], Exited(halt.code))
    case None =>
      match Provisioning.Connect(env.attempts, opts.initTimeout)
      case None =>
        NotTokenLines();
        Outcome([Provisioning.StartTimeoutMessage], [], Exited(1))
      case Some(_) =>
        var o := Browse(env, opts, lits);
        forall t ensures IsTokenLine(Devices.TokenLine(t)) {
          Devices.TokenLineRoundTrip(t, Devices.TokenLine(t));
        }
        o
  }

  /** A line that does not start like the token prefix is not a token line. */
  lemma NotTokenLine(line: string)
    requires |line| > 0 && line[0] != Devices.TokenPrefix[0]
    ensures !IsTokenLine(line)
    ensures forall t :: Devices.TokenLine(t) != line
  {
    if |line| >= |Devices.TokenPrefix| {
      assert line[..|Devices.TokenPrefix|][0] == line[0];
    }
    forall t ensures Devices.TokenLine(t) != line {
      assert Devices.TokenLine(t)[0] == Devices.TokenPrefix[0];
    }
  }

  /** None of the diagnostic messages can be mistaken for a token line. */
  lemma NotTokenLines()
    ensures !IsTokenLine(Provisioning.DockerMissingMessage)
    ensures !IsTokenLine(Provisioning.PullFailedMessage)
    ensures !IsTokenLine(Provisioning.StartTimeoutMessage)
    ensures forall t :: Devices.TokenLine(t) != Provisioning.StartTimeoutMessage
    ensures forall t :: Devices.TokenLine(t) != Provisioning.DockerMissingMessage
    ensures forall t :: Devices.TokenLine(t) != Provisioning.PullFailedMessage
  {
    NotTokenLine(Provisioning.DockerMissingMessage);
    NotTokenLine(Provisioning.PullFailedMessage);
    NotTokenLine(Provisioning.StartTimeoutMessage);
  }

  /**
   * The exit codes of the start of the run: a missing Docker exits with 1
   * before anything else happens, a failed pull exits with 1 whatever code
   * the pull returned, a failed `docker run` exits with that command's own
   * code, and a session that never connects exits with 1. None of these
   * touch the page.
   */
  lemma ExitCodes(env: Environment, opts: Options, lits: Literals)
    ensures !env.dockerFound ==>
      Run(env, opts, lits) == Outcome([Provisioning.DockerMissingMessage], [], Exited(1))
    ensures env.dockerFound && env.pullCode != 0 ==>
      Run(env, opts, lits) == Outcome([Provisioning.PullFailedMessage], [], Exited(1))
    ensures env.dockerFound && env.pullCode == 0 && env.runCode != 0 ==>
      Run(env, opts, lits) == Outcome([], [], Exited(env.runCode))
    ensures (env.dockerFound && env.pullCode == 0 && env.runCode == 0
             && Provisioning.Connect(env.attempts, opts.initTimeout).None?) ==>
      Run(env, opts, lits) == Outcome([Provisioning.StartTimeoutMessage], [], Exited(1))
  {
  }

  /** Once the container is up and a session is open, the run is the browser part. */
  lemma RunAfterSession(env: Environment, opts: Options, lits: Literals)
    requires env.dockerFound && env.pullCode == 0 && env.runCode == 0
    requires Provisioning.Connect(env.attempts, opts.initTimeout).Some?
    ensures Run(env, opts, lits) == Browse(env, opts, lits)
  {
  }

  /** Once the identifier is captured, the browser part continues with the sign-in form. */
  lemma BrowseAfterCapture(env: Environment, opts: Options, lits: Literals)
    requires CaptureClientId(env).0.Success?
    ensures Browse(env, opts, lits) == SignedIn(env, opts, lits, CaptureClientId(env).0.value, CaptureClientId(env).1)
  {
  }

  /** Once a post-login screen is found, the outcome is the user-select branch's. */
  lemma SignedInAfterScreen(env: Environment, opts: Options, lits: Literals, clientId: string, signedIn: seq<Action>)
    requires LogIn(env, lits).0.Success?
    ensures SignedIn(env, opts, lits, clientId, signedIn)
         == Selected(env, opts, lits, clientId, signedIn + LogIn(env, lits).1, LogIn(env, lits).0.value)
  {
  }

  /** A run that exits with 0 got past provisioning and the connect loop. */
  lemma SuccessOpenedSession(env: Environment, opts: Options, lits: Literals)
    requires ExitCode(Run(env, opts, lits).status) == 0
    ensures env.dockerFound && env.pullCode == 0 && env.runCode == 0
    ensures Provisioning.Connect(env.attempts, opts.initTimeout).Some?
  {
  }

  /**
   * A successful run prints exactly one line: the token of the first device,
   * in list order, whose identifier is the one captured from the redirect
   * URL.
   */
  lemma SuccessPrintsFirstMatchingToken(env: Environment, opts: Options, lits: Literals)
    requires ExitCode(Run(env, opts, lits).status) == 0
    ensures ClientId.ExtractClientId(env.urlAfterSignIn).Success?
    ensures var clientId := ClientId.ExtractClientId(env.urlAfterSignIn).value;
      exists i :: (0 <= i < |env.devices| && env.devices[i].clientIdentifier == clientId
        && Run(env, opts, lits).stdout == [Devices.TokenLine(env.devices[i].token)]
        && forall j :: 0 <= j < i ==> env.devices[j].clientIdentifier != clientId)
  {
    SuccessOpenedSession(env, opts, lits);
    RunAfterSession(env, opts, lits);
  }

  /**
   * The converse: when the container starts, a session opens, the sign-in
   * button shows and loses `isDisabled`, its redirect carries `clientId`,
   * the form can be submitted, the first classified poll `p` leads through
   * the user list (if that is what it shows), and some device carries
   * `clientId`, the run exits with 0 and prints the token of the first such
   * device.
   */
  lemma RunSucceeds(env: Environment, opts: Options, lits: Literals, clientId: string, p: nat)
    requires env.dockerFound && env.pullCode == 0 && env.runCode == 0
    requires Provisioning.Connect(env.attempts, opts.initTimeout).Some?
    requires exists i :: 0 <= i < |env.signInVisible| && env.signInVisible[i]
    requires exists i :: 0 <= i < |env.signInClasses| && !CssClass.HasClass(env.signInClasses[i], CssClass.Disabled)
    requires ClientId.ExtractClientId(env.urlAfterSignIn) == Success(clientId)
    requires exists i :: 0 <= i < |env.submitVisible| && env.submitVisible[i]
    requires p < |env.postLoginPages| && Screen.LibraryOrUsers(env.postLoginPages[p]).Success?
    requires forall k :: 0 <= k < p ==> Screen.LibraryOrUsers(env.postLoginPages[k]).Failure?
    requires Screen.ShowsUserSelect(Screen.LibraryOrUsers(env.postLoginPages[p]).value) ==>
      (exists j :: 0 <= j < |env.entries| && UserSelect.EntryFor(lits.entryName, env.entries[j]))
      && (UserSelect.PinGiven(opts.pin)
          || forall j :: 0 <= j < |env.entries| ==> !UserSelect.ProtectedEntryFor(lits.entryName, env.entries[j]))
      && (exists i :: 0 <= i < |env.headerVisible| && env.headerVisible[i])
    requires exists i :: 0 <= i < |env.devices| && env.devices[i].clientIdentifier == clientId
    ensures ExitCode(Run(env, opts, lits).status) == 0
    ensures exists i :: (0 <= i < |env.devices| && env.devices[i].clientIdentifier == clientId
      && Run(env, opts, lits).stdout == [Devices.TokenLine(env.devices[i].token)]
      && forall j :: 0 <= j < i ==> env.devices[j].clientIdentifier != clientId)
  {
    var elm := Screen.LibraryOrUsers(env.postLoginPages[p]).value;
    assert CaptureClientId(env).0 == Success(clientId);
    LogInScreen(env, lits, p);
    UserSelect.SelectUserSucceeds(elm, env.entries, lits.entryName, opts.pin, env.headerVisible);
    StepsSucceed(env, opts, lits);
  }

  /** A submitted form leads to the page of the first poll the classifier accepts. */
  lemma LogInScreen(env: Environment, lits: Literals, p: nat)
    requires exists i :: 0 <= i < |env.submitVisible| && env.submitVisible[i]
    requires p < |env.postLoginPages| && Screen.LibraryOrUsers(env.postLoginPages[p]).Success?
    requires forall k :: 0 <= k < p ==> Screen.LibraryOrUsers(env.postLoginPages[k]).Failure?
    ensures LogIn(env, lits).0 == Screen.LibraryOrUsers(env.postLoginPages[p])
  {
    assert AwaitVisible(env.submitVisible).Success?;
    Screen.FirstAcceptedPoll(env.postLoginPages, p);
  }

  /** When every browser step succeeds and a device matches, the run exits with 0 and prints its token. */
  lemma StepsSucceed(env: Environment, opts: Options, lits: Literals)
    requires env.dockerFound && env.pullCode == 0 && env.runCode == 0
    requires Provisioning.Connect(env.attempts, opts.initTimeout).Some?
    requires CaptureClientId(env).0.Success?
    requires LogIn(env, lits).0.Success?
    requires UserSelect.SelectUser(LogIn(env, lits).0.value, env.entries, lits.entryName, opts.pin,
                                   env.headerVisible).error.None?
    requires exists i :: 0 <= i < |env.devices| && env.devices[i].clientIdentifier == CaptureClientId(env).0.value
    ensures ExitCode(Run(env, opts, lits).status) == 0
    ensures var clientId := CaptureClientId(env).0.value;
      exists i :: (0 <= i < |env.devices| && env.devices[i].clientIdentifier == clientId
        && Run(env, opts, lits).stdout == [Devices.TokenLine(env.devices[i].token)]
        && forall j :: 0 <= j < i ==> env.devices[j].clientIdentifier != clientId)
  {
    var (captured, signedIn) := CaptureClientId(env);
    RunAfterSession(env, opts, lits);
    BrowseAfterCapture(env, opts, lits);
    SignedInSucceeds(env, opts, lits, captured.value, signedIn);
  }

  /** After the identifier is captured, successful steps and a matching device complete the run. */
  lemma SignedInSucceeds(env: Environment, opts: Options, lits: Literals, clientId: string, signedIn: seq<Action>)
    requires LogIn(env, lits).0.Success?
    requires UserSelect.SelectUser(LogIn(env, lits).0.value, env.entries, lits.entryName, opts.pin,
                                   env.headerVisible).error.None?
    requires exists i :: 0 <= i < |env.devices| && env.devices[i].clientIdentifier == clientId
    ensures SignedIn(env, opts, lits, clientId, signedIn).status == Exited(0)
  {
    var (screen, typed) := LogIn(env, lits);
    SignedInAfterScreen(env, opts, lits, clientId, signedIn);
    SelectedSucceeds(env, opts, lits, clientId, signedIn + typed, screen.value);
  }

  /** When the user-select branch succeeds, the outcome is the resolution's. */
  lemma SelectedSucceeds(env: Environment, opts: Options, lits: Literals, clientId: string, submitted: seq<Action>,
                         elm: Element)
    requires UserSelect.SelectUser(elm, env.entries, lits.entryName, opts.pin, env.headerVisible).error.None?
    ensures Selected(env, opts, lits, clientId, submitted, elm)
         == Finish(env, clientId, submitted + UserSelect.SelectUser(elm, env.entries, lits.entryName, opts.pin,
                                                                   env.headerVisible).actions)
  {
  }

  /**
   * When the sign-in redirect yields an identifier, the form is submitted,
   * the first classified poll `p` shows the user list with a protected entry
   * for the selected user, and no PIN is configured, the run clicks that
   * entry and then stops with the PIN error: nothing is typed into the PIN
   * field and no token is printed.
   */
  lemma MissingPinAborts(env: Environment, opts: Options, lits: Literals, p: nat)
    requires env.dockerFound && env.pullCode == 0 && env.runCode == 0
    requires Provisioning.Connect(env.attempts, opts.initTimeout).Some?
    requires exists i :: 0 <= i < |env.signInVisible| && env.signInVisible[i]
    requires exists i :: 0 <= i < |env.signInClasses| && !CssClass.HasClass(env.signInClasses[i], CssClass.Disabled)
    requires ClientId.ExtractClientId(env.urlAfterSignIn).Success?
    requires exists i :: 0 <= i < |env.submitVisible| && env.submitVisible[i]
    requires p < |env.postLoginPages| && Screen.LibraryOrUsers(env.postLoginPages[p]).Success?
    requires forall k :: 0 <= k < p ==> Screen.LibraryOrUsers(env.postLoginPages[k]).Failure?
    requires Screen.ShowsUserSelect(Screen.LibraryOrUsers(env.postLoginPages[p]).value)
    requires exists j :: 0 <= j < |env.entries| && UserSelect.ProtectedEntryFor(lits.entryName, env.entries[j])
    requires !UserSelect.PinGiven(opts.pin)
    ensures Run(env, opts, lits).status == Raised(PinRequired)
    ensures Run(env, opts, lits).stdout == []
    ensures var acts := Run(env, opts, lits).actions;
      |acts| > 0 && acts[|acts| - 1].ClickEntry? && acts[|acts| - 1].entry.isProtected
      && SendCount(acts) == 0
  {
    assert CaptureClientId(env).0.Success?;
    LogInScreen(env, lits, p);
    PinAbortAfterSteps(env, opts, lits);
  }

  /** The missing-PIN abort, stated over the results of the earlier browser steps. */
  lemma PinAbortAfterSteps(env: Environment, opts: Options, lits: Literals)
    requires env.dockerFound && env.pullCode == 0 && env.runCode == 0
    requires Provisioning.Connect(env.attempts, opts.initTimeout).Some?
    requires CaptureClientId(env).0.Success?
    requires LogIn(env, lits).0.Success? && Screen.ShowsUserSelect(LogIn(env, lits).0.value)
    requires exists j :: 0 <= j < |env.entries| && UserSelect.ProtectedEntryFor(lits.entryName, env.entries[j])
    requires !UserSelect.PinGiven(opts.pin)
    ensures Run(env, opts, lits).status == Raised(PinRequired)
    ensures Run(env, opts, lits).stdout == []
    ensures var acts := Run(env, opts, lits).actions;
      |acts| > 0 && acts[|acts| - 1].ClickEntry? && acts[|acts| - 1].entry.isProtected
      && SendCount(acts) == 0
  {
    var (captured, signedIn) := CaptureClientId(env);
    var (screen, typed) := LogIn(env, lits);
    RunAfterSession(env, opts, lits);
    BrowseAfterCapture(env, opts, lits);
    SignedInAfterScreen(env, opts, lits, captured.value, signedIn);
    SelectedPinAbort(env, opts, lits, captured.value, signedIn + typed, screen.value);
    SendCountAppend(signedIn, typed);
  }

  /** On the user list, a protected entry met without a PIN is clicked and the run raises. */
  lemma SelectedPinAbort(env: Environment, opts: Options, lits: Literals, clientId: string, submitted: seq<Action>,
                         elm: Element)
    requires Screen.ShowsUserSelect(elm)
    requires exists j :: 0 <= j < |env.entries| && UserSelect.ProtectedEntryFor(lits.entryName, env.entries[j])
    requires !UserSelect.PinGiven(opts.pin)
    ensures var o := Selected(env, opts, lits, clientId, submitted, elm);
      && o.status == Raised(PinRequired) && o.stdout == []
      && |o.actions| > 0 && o.actions[|o.actions| - 1].ClickEntry? && o.actions[|o.actions| - 1].entry.isProtected
      && SendCount(o.actions) == SendCount(submitted)
  {
    var step := UserSelect.SelectUser(elm, env.entries, lits.entryName, opts.pin, env.headerVisible);
    AbortActions(submitted, step.actions);
  }

  /** A trace that ends with the click on a protected entry adds no `send_keys`. */
  lemma AbortActions(submitted: seq<Action>, stepActions: seq<Action>)
    requires |stepActions| == 1 && stepActions[0].ClickEntry? && stepActions[0].entry.isProtected
    ensures var acts := submitted + stepActions;
      && |acts| > 0 && acts[|acts| - 1].ClickEntry? && acts[|acts| - 1].entry.isProtected
      && SendCount(acts) == SendCount(submitted)
  {
    var acts := submitted + stepActions;
    assert acts[|acts| - 1] == stepActions[0];
    NoSends(stepActions);
    SendCountAppend(submitted, stepActions);
  }

  /** Actions none of which is a `send_keys` to the focused field send nothing. */
  lemma {:induction false} NoSends(actions: seq<Action>)
    requires forall k :: 0 <= k < |actions| ==> !actions[k].SendToFocused?
    ensures SendCount(actions) == 0
  {
    if |actions| > 0 {
      NoSends(actions[1..]);
    }
  }

  lemma {:induction false} SendCountAppend(a: seq<Action>, b: seq<Action>)
    ensures SendCount(a + b) == SendCount(a) + SendCount(b)
    decreases |a|
  {
    if |a| == 0 {
      assert a + b == b;
    } else {
      assert (a + b)[1..] == a[1..] + b;
      SendCountAppend(a[1..], b);
    }
  }
}
