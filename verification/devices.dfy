/**
 * Resolving the captured client identifier against the account's device
 * list, and the single line the script prints on success.
 */
module Devices {
  import opened Wrappers
  import opened Exceptions
  import Search

  /** A device registered with the account, as `account.devices()` lists it. */
  datatype Device = Device(clientIdentifier: string, token: string)

  /** The prefix of the script's only output line. */
  const TokenPrefix: string := "PLEXAPI_AUTH_CLIENT_TOKEN="

  predicate Matches(clientId: string, d: Device) {
    d.clientIdentifier == clientId
  }

  /**
   * The `for device in account.devices()` loop with its `break`: the first
   * device in list order whose identifier equals `clientId`, or `None`.
   */
  method FindClient(devices: seq<Device>, clientId: string) returns (client: Option<Device>)
    ensures client.Some? ==> exists i :: (0 <= i < |devices| && devices[i] == client.value
      && client.value.clientIdentifier == clientId
      && forall j :: 0 <= j < i ==> devices[j].clientIdentifier != clientId)
    ensures client.None? <==> forall j :: 0 <= j < |devices| ==> devices[j].clientIdentifier != clientId
    ensures client == Search.First(devices, (d: Device) => Matches(clientId, d))
  {
    client := None;
    var i := 0;
    while i < |devices|
      invariant 0 <= i <= |devices|
      invariant forall j :: 0 <= j < i ==> devices[j].clientIdentifier != clientId
    {
      if devices[i].clientIdentifier == clientId {
        client := Some(devices[i]);
        break;
      }
      i := i + 1;
    }
  }

  /** `'PLEXAPI_AUTH_CLIENT_TOKEN=' + client.token` */
  function TokenLine(token: string): string
  {
    TokenPrefix + token
  }

  /** How a caller reads the token back from the output line. */
  function ReadTokenLine(line: string): Option<string>
  {
    if |line| >= |TokenPrefix| && line[..|TokenPrefix|] == TokenPrefix then Some(line[|TokenPrefix|..])
    else None
  }

  /** The output line carries the token and nothing else: reading it back gives the token. */
  lemma TokenLineRoundTrip(token: string, line: string)
    ensures ReadTokenLine(TokenLine(token)) == Some(token)
    ensures ReadTokenLine(line) == Some(token) ==> line == TokenLine(token)
  {
    assert TokenLine(token)[..|TokenPrefix|] == TokenPrefix;
    if ReadTokenLine(line) == Some(token) {
      assert line == line[..|TokenPrefix|] + line[|TokenPrefix|..];
    }
  }

  /**
   * Lines 128-138 after the account lookup: the token line of the first
   * matching device, or the "unable to find the client" exception.
   */
  function Resolve(devices: seq<Device>, clientId: string): (r: Result<string, Exception>)
    ensures r.Success? <==> exists i :: 0 <= i < |devices| && devices[i].clientIdentifier == clientId
    ensures r.Success? ==> exists i :: (0 <= i < |devices| && devices[i].clientIdentifier == clientId
      && r.value == TokenLine(devices[i].token)
      && forall j :: 0 <= j < i ==> devices[j].clientIdentifier != clientId)
    ensures r.Failure? ==> r.error == ClientNotFound
  {
    match Search.First(devices, (d: Device) => Matches(clientId, d))
    case None => Failure(ClientNotFound)
    case Some(d) => Success(TokenLine(d.token))
  }

  /** A two-device list resolves to the token of the device with the captured identifier. */
  lemma ResolveExample()
    ensures Resolve([Device("xyz999", "T1"), Device("abc123", "T2")], "abc123") == Success(TokenLine("T2"))
    ensures Resolve([Device("xyz999", "T1")], "abc123") == Failure(ClientNotFound)
  {
  }
}
