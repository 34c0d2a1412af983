# Plex test-client bootstrap: a Dafny model of its decision logic

`tools/plex-bootstraptestclient.py` starts a Selenium Firefox container, signs a
browser into app.plex.tv, and prints the auth token of the device that browser
became. That token is what the python-plexapi test suite needs. Most of the
script is Docker, Selenium and network plumbing. This project models the pure
decisions inside it as functions over the observations a run makes. Docker's
return codes, the connect attempts, the page at each poll of each bounded wait,
the redirect URL, the user-select list and the account's device list are all
inputs.

Modules, in the order the script runs:

- `Provisioning`: the Docker preflight, `docker pull`, `docker run` and their
  exit codes, plus the loop that retries `webdriver.Remote` until the timeout.
- `CssClass`: the `element_has_css_class` condition. The sign-in wait uses it
  to hold off until `isDisabled` is gone from the button's class attribute.
- `ClientId`: takes the URL after the sign-in click, splits it on `#!?`,
  parses the query, builds a dictionary and looks up `clientID`.
- `Screen`: the `is_library_or_users` classifier and the test on the returned
  element that decides whether the user-select branch runs.
- `UserSelect`: the user-select branch. It tries the protected entry first,
  then the plain one. A protected entry with no PIN raises; otherwise the PIN
  is sent.
- `Devices`: the scan for the first device with the captured identifier, and
  the `PLEXAPI_AUTH_CLIENT_TOKEN=` output line.
- `Bootstrap`: the whole `__main__` block as one function, `Run`. It returns
  the printed lines, the actions taken on the page and how the process ends.

Supporting modules: `Wrappers` (Option and Result), `Exceptions` (the
exceptions a run can end with), `Search` (first match in a sequence), `Text`
(Python's `str.split` and `str.join`), and `Browser` (page elements, user
entries, the action trace, and `WebDriverWait.until` / `until_not` over a
finite sequence of polls).

The form credentials and the username in the user-entry XPath are string
literals in the script, not `opts.username` / `opts.password`. The model keeps
them as the separate `Bootstrap.Literals` parameter. `opts.username` and
`opts.password` only reach the account lookup, which the model replaces with
its input device list.

Notes on what the code does, which the model follows:

- A failed `docker pull` exits with 1, not with the pull's own code. A failed
  `docker run` exits with that command's code.
- The class attribute is split on a single space, not on any whitespace. A
  tab-separated class list therefore never matches.
- `for c in {opts.pin}` iterates over a one-element set. The whole PIN goes out
  in one `send_keys`, and every character reaches the field in order
  (`UserSelect.PinSentWhole`).
- `not opts.pin` also holds for an empty PIN string, so `--pin ""` counts as
  no PIN (`UserSelect.PinGiven`).
- `Outcome.stdout` holds only the script's own `print` calls. The `docker`
  subprocesses write to the same standard output, and the model leaves their
  output out.

## Model

| member | source | states |
|---|---|---|
| `CssClass.HasClass` | tools/plex-bootstraptestclient.py:38-43 | The condition returns the element iff the class name is a whole token of the class attribute: a space-free slice with a space or an end of the attribute on each side. |
| `CssClass.TokensAreSpans` | tools/plex-bootstraptestclient.py:40 | The pieces of `class.split(' ')` are exactly the space-bounded, space-free slices of the attribute. |
| `CssClass.LongerClassDoesNotMatch` | tools/plex-bootstraptestclient.py:40 | A class that only begins a longer token (`isDisabled` against `btn isDisabledX`) does not match; the bare token does. |
| `CssClass.SingleClassAttribute` | tools/plex-bootstraptestclient.py:40 | An attribute with no space matches exactly one class name: itself. |
| `CssClass.EmptyClass` | tools/plex-bootstraptestclient.py:40 | The empty class name matches iff the attribute has an empty token (it is empty, starts or ends with a space, or has two spaces in a row). |
| `Browser.UntilNot` | tools/plex-bootstraptestclient.py:94-96 | The wait returns at the first poll where the condition is false and raises `TimeoutException` iff the condition held at every poll. |
| `Browser.Until` | tools/plex-bootstraptestclient.py:91-93 | The wait returns the first truthy poll result, and raises `TimeoutException` iff no poll is truthy. |
| `Browser.FindElement` | tools/plex-bootstraptestclient.py:48-50 | A lookup returns the first matching element in document order, and raises `NoSuchElementException` iff none matches. |
| `Text.IndexOfLeftmost` | tools/plex-bootstraptestclient.py:99 | The search behind `split` finds the leftmost occurrence of the separator, and finds nothing iff the separator does not occur. |
| `Text.FirstTwoPieces` | tools/plex-bootstraptestclient.py:99 | When the separator occurs, the split has a second piece. The string starts with piece 0, the separator and piece 1, and after that comes either nothing or another separator. |
| `Text.JoinSplit` | tools/plex-bootstraptestclient.py:99 | Joining the pieces of `s.split(d)` with `d` gives `s` back. |
| `Text.SplitPiecesFree` | tools/plex-bootstraptestclient.py:99 | No piece of `s.split(d)` contains `d`. |
| `Text.SplitJoin` | tools/plex-bootstraptestclient.py:99 | For a one-character separator, splitting undoes joining when no piece contains the separator. |
| `ClientId.Fragment` | tools/plex-bootstraptestclient.py:99 | `url.split('#!?')[1]` raises `IndexError` iff the URL has no `#!?`. Otherwise it is the marker-free text between the first marker and the end or the second marker. |
| `ClientId.DictKeys` | tools/plex-bootstraptestclient.py:99 | The keys of `dict(pairs)` are exactly the keys occurring in the pairs. |
| `ClientId.DictLastWins` | tools/plex-bootstraptestclient.py:99-100 | A key that occurs more than once maps to the value of its last occurrence. |
| `ClientId.DictConcat` | tools/plex-bootstraptestclient.py:99 | The dictionary of `a + b` is the dictionary of `a` overridden by that of `b`. |
| `ClientId.DictOrderIrrelevant` | tools/plex-bootstraptestclient.py:99 | When `a` and `b` share no key, the dictionaries of `a + b` and `b + a` are equal. |
| `ClientId.ParseEncoded` | tools/plex-bootstraptestclient.py:99 | `parse_qsl` gives back, in order, the pairs a well-formed query was encoded from. |
| `ClientId.ExtractFromQuery` | tools/plex-bootstraptestclient.py:98-100 | For a URL `prefix#!?query` with a single marker and no `#` before it, the identifier is the `clientID` entry of the dictionary built from the whole query. |
| `ClientId.ExtractFromRedirect` | tools/plex-bootstraptestclient.py:98-100 | For a URL `prefix#!?query` the identifier is the value of the last `clientID` pair. Other keys do not matter, and a query without `clientID` raises `KeyError`. |
| `ClientId.KeyOrderIrrelevant` | tools/plex-bootstraptestclient.py:98-100 | Reordering query pairs with distinct keys does not change the captured identifier. |
| `ClientId.ExtractClientId` | tools/plex-bootstraptestclient.py:98-100 | The extraction fails with `IndexError` iff the URL lacks `#!?`. It fails with `KeyError('clientID')` iff the URL has the marker and the parsed query has no `clientID` pair; nothing else can fail. On success the identifier is the value of the last `clientID` pair of the query after the first marker. |
| `ClientId.LookupLast` | tools/plex-bootstraptestclient.py:99-100 | A key of `dict(pairs)` maps to the value of the last pair with that key. |
| `Screen.LibraryOrUsers` | tools/plex-bootstraptestclient.py:46-52 | The classifier returns the first user-select list item whenever one exists, even if the header is also present. It returns the first "Online Content" header only when no list item exists, and raises `NoSuchElementException` iff neither exists. |
| `Screen.PostLoginScreen` | tools/plex-bootstraptestclient.py:109 | The wait returns the classifier's result at the first poll where the classifier finds an element, and times out iff it never does. |
| `Screen.FirstAcceptedPoll` | tools/plex-bootstraptestclient.py:109 | If poll `p` is the first one the classifier accepts, the wait returns exactly the classifier's result on that poll. |
| `Screen.ClassifierDecidesBranch` | tools/plex-bootstraptestclient.py:111 | A list item on the page always leads into the user-select branch. Without one, the classifier's element is the header. |
| `UserSelect.SelectUser` | tools/plex-bootstraptestclient.py:111-126 | The header screen clicks nothing. The only click comes first and lands on an entry for the selected name. That entry is a plain one only when no protected entry exists. `PinRequired` is raised iff a protected entry is met without a PIN, after clicking it and before anything is typed. With a PIN the click is followed by exactly the PIN. With no protected entry but an entry for the name, the plain entry is clicked and nothing else is done. `NoSuchElementException` is raised iff there is no entry for the name. Any other error follows a click and is the header wait's timeout. |
| `UserSelect.SelectUserSucceeds` | tools/plex-bootstraptestclient.py:111-126 | The branch ends without an exception iff either the screen is not the user list, or all three hold: the list has an entry for the name, a protected entry is met only with a PIN given, and the header shows at some poll. |
| `UserSelect.AwaitHeader` | tools/plex-bootstraptestclient.py:124-126 | After a click the branch succeeds iff the header shows at some poll, and times out otherwise. |
| `UserSelect.PinSentWhole` | tools/plex-bootstraptestclient.py:117-120 | With a protected entry and a PIN, the text sent to the focused field is exactly the PIN, in one `send_keys`. |
| `UserSelect.NoPinWithoutProtection` | tools/plex-bootstraptestclient.py:114-122 | Without a protected entry for the name, nothing is ever sent to the focused field. |
| `Devices.FindClient` | tools/plex-bootstraptestclient.py:129-133 | The loop finds the first device in list order whose identifier equals the captured one, and finds none iff no device has it. |
| `Devices.Resolve` | tools/plex-bootstraptestclient.py:129-138 | The output is the token line of the first matching device. When no device matches, `ClientNotFound` is raised. |
| `Devices.TokenLineRoundTrip` | tools/plex-bootstraptestclient.py:138 | Reading the output line back gives exactly the token, and only the token line of `t` reads back as `t`. |
| `Devices.ResolveExample` | tools/plex-bootstraptestclient.py:129-136 | Identifier `abc123` against devices `xyz999`/`T1`, `abc123`/`T2` resolves to `T2`. Without a match the run fails. |
| `Provisioning.Provision` | tools/plex-bootstraptestclient.py:56-74 | The run continues iff Docker is present and both commands returned 0. Every early exit has a non-zero code. Only a failed `docker run` exits without a message. |
| `Provisioning.Connect` | tools/plex-bootstraptestclient.py:76-88 | A session is obtained iff some attempt connects with it and all earlier attempts started before the timeout. It is the first connecting attempt. |
| `Provisioning.NoTimeNoSession` | tools/plex-bootstraptestclient.py:78 | With a timeout of zero or less no attempt is made and no session is obtained. |
| `Bootstrap.CaptureClientId` | tools/plex-bootstraptestclient.py:90-100 | The sign-in button is clicked at most once. It is clicked iff it became visible and some poll found `isDisabled` gone from its class tokens. The URL is read only after the click, and without the click a wait timed out. |
| `Bootstrap.LogIn` | tools/plex-bootstraptestclient.py:102-109 | The credentials are typed and the form submitted iff the submit button became visible. A post-login screen is found iff the form was submitted and some poll's page satisfies the classifier, and it is the classifier's element at the first poll it accepts. Otherwise the wait times out. |
| `Bootstrap.Browse` | tools/plex-bootstraptestclient.py:90-138 | After the session opens, a run that completes captured an identifier and printed exactly the token line of the first device carrying it. A run that raises prints nothing, and its exception is one the steps can raise. |
| `Bootstrap.SignedIn` | tools/plex-bootstraptestclient.py:102-138 | Once the identifier is captured, a completing run printed only the token line of the first device carrying it. A raising run prints nothing and ends with a timeout, a failed entry lookup, the PIN error or the missing device. |
| `Bootstrap.Selected` | tools/plex-bootstraptestclient.py:111-138 | On the post-login screen, a completing run printed only the first matching device's token line. A raising run prints nothing and ends with a timeout, a failed entry lookup, the PIN error or the missing device. |
| `Bootstrap.Finish` | tools/plex-bootstraptestclient.py:128-138 | The actions are kept. The run completes iff some device carries the identifier, and then prints only the first such device's token line. Otherwise it raises `ClientNotFound` and prints nothing. |
| `Bootstrap.Run` | tools/plex-bootstraptestclient.py:55-138 | The process exits with 0 iff the script's own output is exactly one token line. No failing run prints a token line. The `docker` subprocesses' output is not counted. |
| `Bootstrap.ExitCodes` | tools/plex-bootstraptestclient.py:56-88 | Missing Docker exits with 1 before anything else. A failed pull exits with 1 whatever its code. A failed `docker run` exits with that command's code. No session within the timeout exits with 1. None of them touches the page. |
| `Bootstrap.SuccessPrintsFirstMatchingToken` | tools/plex-bootstraptestclient.py:98-138 | A successful run printed exactly the token of the first device whose identifier is the one captured from the redirect URL. |
| `Bootstrap.RunSucceeds` | tools/plex-bootstraptestclient.py:55-138 | The success direction, stated over what the run observes. Suppose the docker steps succeed and a session opens. The sign-in button shows and a poll finds it without `isDisabled`. The redirect yields `clientId`. The submit button shows. The first poll the classifier accepts either shows the header, or shows a user list with an entry for the name, a protected entry only with a PIN, and the header eventually shown. Some device carries `clientId`. Then the run exits with 0 and prints the token line of the first such device. |
| `Bootstrap.MissingPinAborts` | tools/plex-bootstraptestclient.py:90-118 | Suppose the sign-in and the form succeed, the first accepted post-login poll shows the user list with a protected entry for the name, and no PIN is given. Then the run's last action is the click on the protected entry. It ends with `PinRequired`, with nothing sent to the PIN field and nothing printed. |

## Left out

- Docker: `which`, `call` and `DOCKER_CMD` run subprocesses. Only their results (Docker found, pull code, run code) are inputs.
- Selenium: element lookup by XPath, visibility, clicks and `send_keys` are remote UI automation. Pages are sequences of elements, waits are finite sequences of poll results, and clicks and sent text are recorded as actions.
- The clock: the connect loop's `time()` and `sleep(1)` are replaced by a finite list of attempts, each with the elapsed time at its loop check. Running out of listed attempts counts as running out of time. Elapsed times are whole numbers, not floats.
- `MyPlexAccount(...).devices()` is a network call. The device list is an input sequence.
- `parse_qsl` internals: percent-decoding, `+` handling, and the `;` separator some Python versions also accept are not modelled. The query is split on `&`, then each piece at its first `=`. Empty pieces, pieces without `=` and pairs with an empty value are dropped.
- argparse and the `CONFIG` defaults are command-line plumbing. `Options` holds the parsed values.
- The credential literals typed into the form and the username in the entry XPath are parameters (`Literals`). Their values are not part of the model.
- `get_attribute('class')` returning `None` for an element without a class attribute, which would raise `AttributeError`: the class attribute is always a string here, empty when absent.
- The `NoSuchElementException` that `until_not` would treat as success if the sign-in button vanished between polls is not modelled. The button is taken to stay on the page once the visibility wait has found it.
- The email and password fields are taken to exist; a failing `find_element_by_id` is not modelled.
- `webdriver.Remote` sessions and `Device` objects are taken to be truthy, as they are by default.
- Subprocess output: `call(...)` lets `docker pull` and `docker run -d` write their progress and the container id to the script's standard output, ahead of any token line. `Outcome.stdout` holds only the script's own `print` calls.
- Process exit statuses are reported as the integer passed to `exit`. The operating system's truncation to 8 bits is not modelled.
- Navigation (`wd.get`) and switching to the active element are not recorded as actions.
