/**
 * The user-select branch of the bootstrap run: the protected entry for the
 * selected user is tried first, the plain entry only when the protected
 * lookup finds nothing, and a protected entry needs a PIN.
 */
module UserSelect {
  import opened Wrappers
  import opened Exceptions
  import opened Browser
  import Search
  import Screen

  /** `not opts.pin` is false: a PIN was given and is not the empty string. */
  predicate PinGiven(pin: Option<string>) {
    pin.Some? && |pin.value| > 0
  }

  /** The protected-entry XPath: an entry for `name` that carries the lock icon. */
  predicate ProtectedEntryFor(name: string, e: UserEntry) {
    e.username == name && e.isProtected
  }

  /** The plain XPath: any entry for `name`. */
  predicate EntryFor(name: string, e: UserEntry) {
    e.username == name
  }

  /** The actions of the branch and the exception it ends with, if any. */
  datatype Step = Step(actions: seq<Action>, error: Option<Exception>)

  /**
   * Lines 111-126 of the script. `elm` is the element the post-login wait
   * returned, `entries` the user-select list in document order, `name` the
   * username the entry XPath is built from, and `headerPolls` the visibility
   * of the "Online Content" header at each poll of the final wait.
   *
   * The loop `for c in {opts.pin}` runs over a one-element set, so the whole
   * PIN goes out in a single `send_keys`.
   */
  function SelectUser(elm: Element, entries: seq<UserEntry>, name: string, pin: Option<string>,
                      headerPolls: seq<bool>): (r: Step)
    // the header screen: nothing is clicked and nothing can fail
    ensures !Screen.ShowsUserSelect(elm) ==> r == Step([], None)
    // every click lands on an entry for `name`; a plain entry only when no protected one exists
    ensures forall k :: 0 <= k < |r.actions| && r.actions[k].ClickEntry? ==>
      EntryFor(name, r.actions[k].entry)
      && (!r.actions[k].entry.isProtected ==> forall j :: 0 <= j < |entries| ==> !ProtectedEntryFor(name, entries[j]))
    // at most one click, and it comes first
    ensures forall k :: 0 < k < |r.actions| ==> !r.actions[k].ClickEntry?
    // a protected entry is clicked, then a missing PIN aborts before anything is typed
    ensures (Screen.ShowsUserSelect(elm) && (exists j :: 0 <= j < |entries| && ProtectedEntryFor(name, entries[j]))
             && !PinGiven(pin)) ==>
      r.error == Some(PinRequired) && |r.actions| == 1 && r.actions[0].ClickEntry? && r.actions[0].entry.isProtected
    // with a PIN, the click is followed by exactly the PIN, sent once
    ensures (Screen.ShowsUserSelect(elm) && (exists j :: 0 <= j < |entries| && ProtectedEntryFor(name, entries[j]))
             && PinGiven(pin)) ==>
      |r.actions| == 2 && r.actions[0].ClickEntry? && r.actions[1] == SendToFocused(pin.value)
    // no protected entry but an entry for the user: the plain entry is clicked, and nothing else is done
    ensures Screen.ShowsUserSelect(elm) && (forall j :: 0 <= j < |entries| ==> !ProtectedEntryFor(name, entries[j]))
            && (exists j :: 0 <= j < |entries| && EntryFor(name, entries[j])) ==>
      r.actions == [ClickEntry(UserEntry(name, false))]
    // no entry for the user at all: the plain lookup raises and nothing is clicked
    ensures Screen.ShowsUserSelect(elm) && (forall j :: 0 <= j < |entries| ==> !EntryFor(name, entries[j])) ==>
      r == Step([], Some(NoSuchElement))
    // after a click without error, the outcome is the header wait's
    ensures (|r.actions| > 0 && r.error != Some(PinRequired)) ==>
      (r.error.None? <==> exists i :: 0 <= i < |headerPolls| && headerPolls[i])
    // the PIN error arises only from a protected entry met without a PIN
    ensures r.error == Some(PinRequired) <==>
      Screen.ShowsUserSelect(elm) && (exists j :: 0 <= j < |entries| && ProtectedEntryFor(name, entries[j]))
      && !PinGiven(pin)
    // the lookup error arises only when the list has no entry for the user
    ensures r.error == Some(NoSuchElement) <==>
      Screen.ShowsUserSelect(elm) && forall j :: 0 <= j < |entries| ==> !EntryFor(name, entries[j])
    // any other error follows a click and is the header wait's timeout
    ensures r.error.Some? && r.error != Some(PinRequired) && r.error != Some(NoSuchElement) ==>
      |r.actions| > 0 && r.error == Some(Timeout)
    ensures r.error.Some? ==> r.error.value.PinRequired? || r.error.value.NoSuchElement? || r.error.value.Timeout?
  {
    if !Screen.ShowsUserSelect(elm) then
      Step([], None)
    else
      match Search.First(entries, (e: UserEntry) => ProtectedEntryFor(name, e))
      case Some(e) =>
        if !PinGiven(pin) then Step([ClickEntry(e)], Some(PinRequired))
        else AwaitHeader([ClickEntry(e), SendToFocused(pin.value)], headerPolls)
      case None =>
        match Search.First(entries, (e: UserEntry) => EntryFor(name, e))
        case None => Step([], Some(NoSuchElement))
        case Some(e) => AwaitHeader([ClickEntry(e)], headerPolls)
  }

  /**
   * The branch completes without an exception exactly when the screen is not
   * the user list, or the list has an entry for `name`, a protected one is
   * met only with a PIN, and the header shows before the deadline.
   */
  lemma SelectUserSucceeds(elm: Element, entries: seq<UserEntry>, name: string, pin: Option<string>,
                           headerPolls: seq<bool>)
    ensures SelectUser(elm, entries, name, pin, headerPolls).error.None? <==>
      (Screen.ShowsUserSelect(elm) ==>
        (exists j :: 0 <= j < |entries| && EntryFor(name, entries[j]))
        && (PinGiven(pin) || forall j :: 0 <= j < |entries| ==> !ProtectedEntryFor(name, entries[j]))
        && exists i :: 0 <= i < |headerPolls| && headerPolls[i])
  {
  }

  /** The wait for the "Online Content" header that confirms the selection. */
  function AwaitHeader(actions: seq<Action>, headerPolls: seq<bool>): (r: Step)
    ensures r.actions == actions
    ensures r.error.None? <==> exists i :: 0 <= i < |headerPolls| && headerPolls[i]
    ensures r.error.Some? ==> r.error == Some(Timeout)
  {
    var shown := seq(|headerPolls|, i requires 0 <= i < |headerPolls| =>
      if headerPolls[i] then Some(true) else None);
    assert forall i :: 0 <= i < |headerPolls| ==> (shown[i].Some? <==> headerPolls[i]);
    match Until(shown)
    case Success(_) => Step(actions, None)
    case Failure(err) => Step(actions, Some(err))
  }

  /**
   * With a PIN configured and a protected entry, every character of the PIN
   * reaches the focused field, in order, through exactly one `send_keys`.
   */
  lemma PinSentWhole(elm: Element, entries: seq<UserEntry>, name: string, pin: Option<string>,
                     headerPolls: seq<bool>)
    requires Screen.ShowsUserSelect(elm)
    requires exists j :: 0 <= j < |entries| && ProtectedEntryFor(name, entries[j])
    requires PinGiven(pin)
    ensures SentText(SelectUser(elm, entries, name, pin, headerPolls).actions) == pin.value
    ensures SendCount(SelectUser(elm, entries, name, pin, headerPolls).actions) == 1
  {
    var actions := SelectUser(elm, entries, name, pin, headerPolls).actions;
    var last := actions[1..];
    assert last == [SendToFocused(pin.value)];
    assert last[1..] == [];
    assert SentText(last) == pin.value + SentText(last[1..]);
    assert SendCount(last) == 1 + SendCount(last[1..]);
  }

  /** Without a protected entry nothing is ever sent to the focused field. */
  lemma NoPinWithoutProtection(elm: Element, entries: seq<UserEntry>, name: string, pin: Option<string>,
                               headerPolls: seq<bool>)
    requires forall j :: 0 <= j < |entries| ==> !ProtectedEntryFor(name, entries[j])
    ensures SendCount(SelectUser(elm, entries, name, pin, headerPolls).actions) == 0
  {
    var actions := SelectUser(elm, entries, name, pin, headerPolls).actions;
    assert |actions| <= 1;
  }
}
