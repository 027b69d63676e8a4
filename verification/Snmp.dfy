/** Credentials, the client a probe really builds from them, and the network as an oracle
    (internal/snmp/probe.go, internal/snmp/routes.go, internal/crypto/crypto.go). */
module Snmp {
  import opened Basics

  type Ip = string

  datatype Credentials = Credentials(
    version: string, community: string, v3User: string, v3AuthKey: string, v3PrivKey: string,
    v3AuthProtocol: string, v3PrivProtocol: string)

  datatype AuthProtocol = NoAuth | MD5 | SHA
  datatype PrivProtocol = NoPriv | DES | AES
  datatype SecLevel = NoAuthNoPriv | AuthNoPriv | AuthPriv

  /** The parts of a gosnmp client that the credentials determine. */
  datatype Client =
    | V1(community: string)
    | V2c(community: string)
    | V3(user: string, level: SecLevel, auth: AuthProtocol, authPass: string, priv: PrivProtocol, privPass: string)

  function ParseAuthProtocol(s: string): Option<AuthProtocol> {
    if s == "" || s == "NoAuth" then Some(NoAuth)
    else if s == "MD5" then Some(MD5)
    else if s == "SHA" then Some(SHA)
    else None
  }

  function ParsePrivProtocol(s: string): Option<PrivProtocol> {
    if s == "" || s == "NoPriv" then Some(NoPriv)
    else if s == "DES" then Some(DES)
    else if s == "AES" then Some(AES)
    else None
  }

  function BuildClient(creds: Credentials): Option<Client> {
    if creds.version == "v1" then Some(V1(creds.community))
    else if creds.version == "v2c" then Some(V2c(creds.community))
    else if creds.version == "v3" then
      match (ParseAuthProtocol(creds.v3AuthProtocol), ParsePrivProtocol(creds.v3PrivProtocol))
      case (Some(auth), Some(priv)) =>
        var level := if creds.v3PrivKey != "" then AuthPriv else if creds.v3AuthKey != "" then AuthNoPriv else NoAuthNoPriv;
        Some(V3(creds.v3User, level, auth, creds.v3AuthKey, priv, creds.v3PrivKey))
      case _ => None
    else None
  }

  /** What the texts of the protocols stand for; any other text stands for nothing. */
  predicate NamesAuth(text: string, protocol: AuthProtocol) {
    match protocol
    case NoAuth => text in {"", "NoAuth"}
    case MD5 => text == "MD5"
    case SHA => text == "SHA"
  }

  predicate NamesPriv(text: string, protocol: PrivProtocol) {
    match protocol
    case NoPriv => text in {"", "NoPriv"}
    case DES => text == "DES"
    case AES => text == "AES"
  }

  /** The client is the one these credentials describe. */
  predicate Describes(creds: Credentials, client: Client) {
    match client
    case V1(community) => creds.version == "v1" && community == creds.community
    case V2c(community) => creds.version == "v2c" && community == creds.community
    case V3(user, level, auth, authPass, priv, privPass) =>
      && creds.version == "v3" && user == creds.v3User
      && NamesAuth(creds.v3AuthProtocol, auth) && authPass == creds.v3AuthKey
      && NamesPriv(creds.v3PrivProtocol, priv) && privPass == creds.v3PrivKey
      && (level == AuthPriv <==> creds.v3PrivKey != "")
      && (level == NoAuthNoPriv <==> creds.v3PrivKey == "" && creds.v3AuthKey == "")
  }

  /** A probe and a walk use the one client that the credentials describe, and fail when there is none. */
  lemma ClientIff(creds: Credentials, client: Client)
    ensures BuildClient(creds) == Some(client) <==> Describes(creds, client)
  {
  }

  /** One PDU of a routing-table walk: a textual address, or a value of another type. */
  datatype Pdu = Address(text: string) | OtherValue

  /** The network: does the agent at this address answer a GET from this client, and what does
      a walk of ipRouteNextHop return (None when connecting or walking fails). */
  datatype Network = Network(
    answers: (Ip, Client) -> bool,
    routes: (Ip, Client) -> Option<seq<Pdu>>)

  predicate Verify(net: Network, ip: Ip, creds: Credentials) {
    match BuildClient(creds)
    case None => false
    case Some(client) => net.answers(ip, client)
  }

  const DEFAULT_CREDENTIALS: seq<Credentials> := [CommunityOnly("v2c", "public"), CommunityOnly("v2c", "private"), CommunityOnly("v1", "public")]

  function CommunityOnly(version: string, community: string): Credentials {
    Credentials(version, community, "", "", "", "", "")
  }

  method ProbeDefaults(net: Network, ip: Ip) returns (r: Option<Credentials>)
    ensures r.Some? ==>
              exists i :: 0 <= i < |DEFAULT_CREDENTIALS| && r.value == DEFAULT_CREDENTIALS[i] && Verify(net, ip, r.value)
                          && forall j :: 0 <= j < i ==> !Verify(net, ip, DEFAULT_CREDENTIALS[j])
    ensures r.None? ==> forall i :: 0 <= i < |DEFAULT_CREDENTIALS| ==> !Verify(net, ip, DEFAULT_CREDENTIALS[i])
    ensures r == FirstWorking(net, ip, DEFAULT_CREDENTIALS)
  {
    for i := 0 to |DEFAULT_CREDENTIALS|
      invariant forall j :: 0 <= j < i ==> !Verify(net, ip, DEFAULT_CREDENTIALS[j])
      invariant FirstWorking(net, ip, DEFAULT_CREDENTIALS) == FirstWorking(net, ip, DEFAULT_CREDENTIALS[i..])
    {
      var creds := DEFAULT_CREDENTIALS[i];
      if Verify(net, ip, creds) {
        return Some(creds);
      }
    }
    return None;
  }

  /** The order of the defaults: a community that v2c and v1 share is found as v2c, and public comes first. */
  lemma DefaultsInOrder(net: Network, ip: Ip)
    ensures FirstWorking(net, ip, DEFAULT_CREDENTIALS) ==
              if net.answers(ip, V2c("public")) then Some(CommunityOnly("v2c", "public"))
              else if net.answers(ip, V2c("private")) then Some(CommunityOnly("v2c", "private"))
              else if net.answers(ip, V1("public")) then Some(CommunityOnly("v1", "public"))
              else None
  {
    var rest := DEFAULT_CREDENTIALS[1..];
    assert rest[1..][1..] == [];
    assert FirstWorking(net, ip, rest[1..]) == if net.answers(ip, V1("public")) then Some(CommunityOnly("v1", "public")) else None;
  }

  function FirstWorking(net: Network, ip: Ip, candidates: seq<Credentials>): Option<Credentials> {
    if candidates == [] then None
    else if Verify(net, ip, candidates[0]) then Some(candidates[0])
    else FirstWorking(net, ip, candidates[1..])
  }

  lemma {:induction false} FirstWorkingWorks(net: Network, ip: Ip, candidates: seq<Credentials>)
    ensures var r := FirstWorking(net, ip, candidates); r.Some? ==> r.value in candidates && Verify(net, ip, r.value)
  {
    if candidates != [] && !Verify(net, ip, candidates[0]) {
      FirstWorkingWorks(net, ip, candidates[1..]);
    }
  }

  // ---------------------------------------------------------------- route walk

  predicate Usable(hop: string) {
    hop != "" && hop != "0.0.0.0"
  }

  /** The next hops a walk reports: usable addresses, each at its first occurrence. */
  function NextHops(pdus: seq<Pdu>): seq<Ip> {
    if pdus == [] then []
    else
      var hops, last := NextHops(pdus[..|pdus| - 1]), pdus[|pdus| - 1];
      if last.Address? && Usable(last.text) && last.text !in hops then hops + [last.text] else hops
  }

  lemma {:induction false} NextHopsExact(pdus: seq<Pdu>)
    ensures NoDuplicates(NextHops(pdus))
    ensures forall h :: h in NextHops(pdus) <==> Usable(h) && Address(h) in pdus
  {
    if pdus != [] {
      var rest, last := pdus[..|pdus| - 1], pdus[|pdus| - 1];
      NextHopsExact(rest);
      assert pdus == rest + [last];
    }
  }

  predicate ReportedBefore(pdus: seq<Pdu>, n: nat, h: Ip)
    requires n <= |pdus|
  {
    exists j :: 0 <= j < n && pdus[j] == Address(h)
  }

  /** The hops are in the order of their first appearance: whatever a walk reports before the first mention of
      one hop comes before it, and nothing else does. */
  lemma {:induction false} NextHopsInOrder(pdus: seq<Pdu>, n: nat)
    requires n <= |pdus|
    ensures NextHops(pdus[..n]) <= NextHops(pdus)
    ensures forall h :: h in NextHops(pdus[..n]) <==> Usable(h) && ReportedBefore(pdus, n, h)
  {
    NextHopsExact(pdus[..n]);
    assert forall h :: Address(h) in pdus[..n] <==> ReportedBefore(pdus, n, h);
    if n == |pdus| {
      assert pdus[..n] == pdus;
    } else {
      NextHopsInOrder(pdus[..|pdus| - 1], n);
      assert pdus[..|pdus| - 1][..n] == pdus[..n];
    }
  }

  /** The callback's loop over the PDUs of a walk that succeeded; a walk that failed part-way
      reports no hops at all. */
  method WalkRouteNextHops(net: Network, ip: Ip, creds: Credentials) returns (r: Option<seq<Ip>>)
    ensures r == RouteNextHops(net, ip, creds)
    ensures r.Some? ==> NoDuplicates(r.value) && forall h :: h in r.value ==> Usable(h)
  {
    var client := BuildClient(creds);
    if client.None? {
      return None;
    }
    var walk := net.routes(ip, client.value);
    if walk.None? {
      return None;
    }
    var pdus := walk.value;
    var seen: map<string, bool> := map[];
    var hops: seq<Ip> := [];
    for i := 0 to |pdus|
      invariant hops == NextHops(pdus[..i])
      invariant forall h :: h in seen <==> h in hops
    {
      assert pdus[..i + 1][..i] == pdus[..i];
      if pdus[i].OtherValue? || pdus[i].text == "" || pdus[i].text == "0.0.0.0" {
        continue;
      }
      var hop := pdus[i].text;
      if hop !in seen {
        seen := seen[hop := true];
        hops := hops + [hop];
      }
    }
    assert pdus[..|pdus|] == pdus;
    NextHopsExact(pdus);
    return Some(hops);
  }

  function RouteNextHops(net: Network, ip: Ip, creds: Credentials): Option<seq<Ip>> {
    match BuildClient(creds)
    case None => None
    case Some(client) =>
      match net.routes(ip, client)
      case None => None
      case Some(pdus) => Some(NextHops(pdus))
  }

  /** What a walk reports, by the client: credentials that describe a client yield hops exactly when the walk
      as that client succeeds, and then its usable addresses; credentials that describe none yield nothing. */
  lemma HopsByClient(net: Network, ip: Ip, creds: Credentials, client: Client)
    requires Describes(creds, client)
    ensures RouteNextHops(net, ip, creds).Some? <==> net.routes(ip, client).Some?
    ensures net.routes(ip, client).Some? ==>
              forall h :: h in RouteNextHops(net, ip, creds).value
                          <==> h != "" && h != "0.0.0.0" && Address(h) in net.routes(ip, client).value
  {
    ClientIff(creds, client);
    if net.routes(ip, client).Some? {
      NextHopsExact(net.routes(ip, client).value);
    }
  }

  lemma NoClientNoHops(net: Network, ip: Ip, creds: Credentials)
    requires forall client :: !Describes(creds, client)
    ensures RouteNextHops(net, ip, creds).None? && !Verify(net, ip, creds)
  {
    if BuildClient(creds).Some? {
      ClientIff(creds, BuildClient(creds).value);
    }
  }

  /** Networks that agree on the walk of that one client give the same hops. */
  lemma WalkSeesOneClient(net: Network, net': Network, ip: Ip, creds: Credentials)
    requires forall client :: Describes(creds, client) ==> net.routes(ip, client) == net'.routes(ip, client)
    ensures RouteNextHops(net, ip, creds) == RouteNextHops(net', ip, creds)
  {
    if BuildClient(creds).Some? {
      ClientIff(creds, BuildClient(creds).value);
    }
  }

  /** A probe succeeds exactly when the agent answers the client that the credentials describe. */
  lemma VerifyIff(net: Network, ip: Ip, creds: Credentials)
    ensures Verify(net, ip, creds) <==> exists client :: Describes(creds, client) && net.answers(ip, client)
  {
    if BuildClient(creds).Some? {
      ClientIff(creds, BuildClient(creds).value);
    }
    forall client | Describes(creds, client) ensures BuildClient(creds) == Some(client) {
      ClientIff(creds, client);
    }
  }

  // ---------------------------------------------------------------- encryption at rest

  /** An encryption key: sealing draws a nonce and may fail, opening may fail. */
  datatype Key = Key(seal: (string, string) -> Option<string>, open: string -> Option<string>)

  function Encrypt(key: Key, plaintext: string, nonce: string): Option<string> {
    if plaintext == "" then Some("") else key.seal(plaintext, nonce)
  }

  function Decrypt(key: Key, encoded: string): Option<string> {
    if encoded == "" then Some("") else key.open(encoded)
  }

  /** What is assumed of the cipher: opening undoes sealing, and a sealed text is not empty. */
  ghost predicate Sound(key: Key) {
    forall p, n :: key.seal(p, n).Some? ==> key.seal(p, n).value != "" && key.open(key.seal(p, n).value) == Some(p)
  }

  lemma DecryptUndoesEncrypt(key: Key, plaintext: string, nonce: string)
    requires Sound(key) && Encrypt(key, plaintext, nonce).Some?
    ensures Decrypt(key, Encrypt(key, plaintext, nonce).value) == Some(plaintext)
    ensures Encrypt(key, plaintext, nonce).value == "" <==> plaintext == ""
  {
  }

  /** An empty secret is stored as itself, whatever the cipher does, and reads back as empty. */
  lemma EmptyStaysEmpty(key: Key, nonce: string)
    ensures Encrypt(key, "", nonce) == Some("") && Decrypt(key, "") == Some("")
  {
  }
}
