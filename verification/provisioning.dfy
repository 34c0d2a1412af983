/**
 * The start of the run: the Docker preflight, pulling and starting the
 * browser container, and waiting for the remote WebDriver to accept a
 * session. Docker and the clock are not modelled; their results are inputs.
 */
module Provisioning {
  import opened Wrappers

  const DockerMissingMessage: string := "Docker is required to be available"
  const PullFailedMessage: string := "Got an error when executing docker pull!"

  /**
   * One message, written as two literals: Dafny's sequence axioms do not
   * reach the characters of a single literal this long, and the proof that
   * it is not a token line needs its first character.
   */
  const StartTimeoutMessage: string := "Container was unable to start " + "within the time limit!"

  /** An early `exit(code)`, after printing `message` when there is one. */
  datatype Halt = Halt(message: Option<string>, code: int)

  /**
   * Lines 56-74: `None` when Docker is present and both `docker pull` and
   * `docker run` returned 0; otherwise the message and exit code of the
   * first check that failed.
   */
  function Provision(dockerFound: bool, pullCode: int, runCode: int): (r: Option<Halt>)
    ensures r.None? <==> dockerFound && pullCode == 0 && runCode == 0
    ensures r.Some? ==> r.value.code != 0
    ensures r.Some? ==> (r.value.message.None? <==> dockerFound && pullCode == 0)
  {
    if !dockerFound then Some(Halt(Some(DockerMissingMessage), 1))
    else if pullCode != 0 then Some(Halt(Some(PullFailedMessage), 1))
    else if runCode != 0 then Some(Halt(None, runCode))
    else None
  }

  /**
   * One pass of the connect loop: `elapsed` is `time() - start` when the
   * loop condition is checked, `connects` whether `webdriver.Remote` then
   * returns a session instead of raising.
   */
  datatype Attempt = Attempt(elapsed: int, connects: bool)

  /**
   * Lines 76-84: the index of the attempt that obtains a session. Before
   * each attempt the loop checks the elapsed time against the timeout; a
   * failed attempt is followed by the next one. The attempts listed are all
   * the run makes, so running out of them means no session.
   */
  function Connect(attempts: seq<Attempt>, timeout: int): (r: Option<nat>)
    ensures r.Some? ==> r.value < |attempts| && attempts[r.value].connects
    ensures r.Some? ==> forall k :: 0 <= k <= r.value ==> attempts[k].elapsed < timeout
    ensures r.Some? ==> forall k :: 0 <= k < r.value ==> !attempts[k].connects
    ensures r.None? <==> forall i :: 0 <= i < |attempts| && attempts[i].connects ==>
      exists k :: 0 <= k <= i && attempts[k].elapsed >= timeout
  {
    if |attempts| == 0 || attempts[0].elapsed >= timeout then
      None
    else if attempts[0].connects then
      Some(0)
    else
      var rest := Connect(attempts[1..], timeout);
      assert forall i :: 1 <= i < |attempts| ==> attempts[1..][i - 1] == attempts[i];
      match rest
      case None => None
      case Some(j) => Some(j + 1)
  }

  /** With a timeout of zero or less no attempt is made, and so no session is obtained. */
  lemma NoTimeNoSession(attempts: seq<Attempt>, timeout: int)
    requires timeout <= 0
    requires forall k :: 0 <= k < |attempts| ==> attempts[k].elapsed >= 0
    ensures Connect(attempts, timeout).None?
  {
  }
}
