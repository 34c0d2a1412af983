/**
 * The remote browser as the script observes it. Selenium itself is not part
 * of the model: a page is a sequence of elements in document order, a bounded
 * wait is the finite sequence of poll results taken before its deadline, and
 * the script's effects on the page are recorded as a sequence of actions.
 */
module Browser {
  import opened Wrappers
  import opened Exceptions
  import Search

  /** An element of the page, with the attributes the script's XPath lookups test. */
  datatype Element = Element(tag: string, classAttr: string, role: string, text: string)

  /** An entry of the post-login user-select list. */
  datatype UserEntry = UserEntry(username: string, isProtected: bool)

  /** The fields the credential form is filled through. */
  datatype Field = EmailField | PasswordField

  /** What the script does to the page. */
  datatype Action =
    | ClickSignIn
    | TypeInto(field: Field, text: string)
    | ClickSubmit
    | ClickEntry(entry: UserEntry)
    | SendToFocused(text: string)

  /** `find_element`: the first element of the page the locator matches. */
  function FindElement(page: seq<Element>, locator: Element -> bool): (r: Result<Element, Exception>)
    ensures r.Success? <==> exists i :: 0 <= i < |page| && locator(page[i])
    ensures r.Success? ==> exists i :: (0 <= i < |page| && page[i] == r.value && locator(page[i])
      && forall k :: 0 <= k < i ==> !locator(page[k]))
    ensures r.Failure? ==> r.error == NoSuchElement
  {
    match Search.First(page, locator)
    case None => Failure(NoSuchElement)
    case Some(e) => Success(e)
  }

  /**
   * `WebDriverWait(...).until(condition)`: `polls` holds the condition's
   * result at each poll before the deadline, `None` for a falsy result or an
   * ignored `NoSuchElementException`. The wait returns the first truthy
   * result, or raises `TimeoutException` when there is none.
   */
  function Until<T>(polls: seq<Option<T>>): (r: Result<T, Exception>)
    ensures r.Success? <==> exists i :: 0 <= i < |polls| && polls[i].Some?
    ensures r.Success? ==> exists i :: (0 <= i < |polls| && polls[i] == Some(r.value)
      && forall k :: 0 <= k < i ==> polls[k].None?)
    ensures r.Failure? ==> r.error == Timeout
  {
    match Search.FirstIndex(polls, (o: Option<T>) => o.Some?)
    case None => Failure(Timeout)
    case Some(i) => Success(polls[i].value)
  }

  /**
   * `WebDriverWait(...).until_not(condition)`: `polls` holds the condition's
   * truth value at each poll before the deadline. The wait returns at the
   * first poll where the condition is false, and raises `TimeoutException`
   * when it held at every poll.
   */
  function UntilNot(polls: seq<bool>): (r: Result<nat, Exception>)
    ensures r.Success? <==> exists i :: 0 <= i < |polls| && !polls[i]
    ensures r.Success? ==> r.value < |polls| && !polls[r.value]
    ensures r.Success? ==> forall k :: 0 <= k < r.value ==> polls[k]
    ensures r.Failure? ==> r.error == Timeout
  {
    match Search.FirstIndex(polls, (b: bool) => !b)
    case None => Failure(Timeout)
    case Some(i) => Success(i)
  }

  /** Everything sent to the focused element, in order and concatenated. */
  function SentText(actions: seq<Action>): string
  {
    if |actions| == 0 then ""
    else (if actions[0].SendToFocused? then actions[0].text else "") + SentText(actions[1..])
  }

  /** How many `send_keys` calls went to the focused element. */
  function SendCount(actions: seq<Action>): nat
  {
    if |actions| == 0 then 0
    else (if actions[0].SendToFocused? then 1 else 0) + SendCount(actions[1..])
  }
}
