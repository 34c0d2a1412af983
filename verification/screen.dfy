/**
 * The post-login screen classifier `is_library_or_users` and the test that
 * decides whether the user-select branch runs.
 */
module Screen {
  import opened Wrappers
  import opened Exceptions
  import opened Browser

  /** The class attribute of a user-select list item. */
  const UserSelectClass: string := "user-select-list-item"

  /** The text of the header shown once the library is reachable. */
  const OnlineContent: string := "Online Content"

  /** `//li[@class="user-select-list-item"]` */
  predicate IsUserListItem(e: Element) {
    e.tag == "li" && e.classAttr == UserSelectClass
  }

  /** `//div[@role="header"][text()="Online Content"]` */
  predicate IsContentHeader(e: Element) {
    e.tag == "div" && e.role == "header" && e.text == OnlineContent
  }

  /**
   * `is_library_or_users`: the first user-select list item of the page; only
   * when there is none, the first "Online Content" header; when neither is
   * present, the header lookup's `NoSuchElementException`.
   */
  function LibraryOrUsers(page: seq<Element>): (r: Result<Element, Exception>)
    ensures (exists i :: 0 <= i < |page| && IsUserListItem(page[i])) ==>
      r.Success? && IsUserListItem(r.value)
      && exists i :: (0 <= i < |page| && page[i] == r.value
           && forall k :: 0 <= k < i ==> !IsUserListItem(page[k]))
    ensures ((forall i :: 0 <= i < |page| ==> !IsUserListItem(page[i]))
             && (exists i :: 0 <= i < |page| && IsContentHeader(page[i]))) ==>
      r.Success? && IsContentHeader(r.value)
      && exists i :: (0 <= i < |page| && page[i] == r.value
           && forall k :: 0 <= k < i ==> !IsContentHeader(page[k]))
    ensures r.Failure? <==> forall i :: 0 <= i < |page| ==> !IsUserListItem(page[i]) && !IsContentHeader(page[i])
    ensures r.Failure? ==> r.error == NoSuchElement
  {
    match FindElement(page, IsUserListItem)
    case Success(item) => Success(item)
    case Failure(_) => FindElement(page, IsContentHeader)
  }

  /**
   * `WebDriverWait(wd, 10).until(is_library_or_users)`: `polls` holds the
   * page at each poll before the deadline. The lookup's
   * `NoSuchElementException` is one of the exceptions the wait ignores.
   */
  function PostLoginScreen(polls: seq<seq<Element>>): (r: Result<Element, Exception>)
    ensures r.Success? <==> exists i :: 0 <= i < |polls| && LibraryOrUsers(polls[i]).Success?
    ensures r.Success? ==> exists i :: (0 <= i < |polls| && LibraryOrUsers(polls[i]) == Success(r.value)
      && forall k :: 0 <= k < i ==> LibraryOrUsers(polls[k]).Failure?)
    ensures r.Failure? ==> r.error == Timeout
  {
    var results := seq(|polls|, i requires 0 <= i < |polls| =>
      match LibraryOrUsers(polls[i])
      case Success(e) => Some(e)
      case Failure(_) => None);
    assert forall i :: 0 <= i < |polls| ==>
      (results[i].Some? <==> LibraryOrUsers(polls[i]).Success?)
      && (results[i].Some? ==> LibraryOrUsers(polls[i]) == Success(results[i].value));
    Until(results)
  }

  /** The wait returns the classifier's result at the first poll it accepts. */
  lemma FirstAcceptedPoll(polls: seq<seq<Element>>, p: nat)
    requires p < |polls| && LibraryOrUsers(polls[p]).Success?
    requires forall k :: 0 <= k < p ==> LibraryOrUsers(polls[k]).Failure?
    ensures PostLoginScreen(polls) == LibraryOrUsers(polls[p])
  {
    var r := PostLoginScreen(polls);
    var i :| 0 <= i < |polls| && LibraryOrUsers(polls[i]) == Success(r.value)
      && forall k :: 0 <= k < i ==> LibraryOrUsers(polls[k]).Failure?;
    assert i == p;
  }

  /** `elm.get_attribute('class') == 'user-select-list-item'`: the user-select branch runs. */
  predicate ShowsUserSelect(e: Element) {
    e.classAttr == UserSelectClass
  }

  /**
   * The classifier prefers the user list: whenever a list item is on the
   * page the user-select branch runs, even if the header is present too.
   * Without a list item whatever the classifier returns is the header.
   */
  lemma ClassifierDecidesBranch(page: seq<Element>)
    ensures (exists i :: 0 <= i < |page| && IsUserListItem(page[i])) ==>
      LibraryOrUsers(page).Success? && ShowsUserSelect(LibraryOrUsers(page).value)
    ensures ((forall i :: 0 <= i < |page| ==> !IsUserListItem(page[i]))
             && LibraryOrUsers(page).Success?) ==>
      IsContentHeader(LibraryOrUsers(page).value)
  {
  }
}
