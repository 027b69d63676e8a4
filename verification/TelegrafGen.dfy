/** Compiling the active rows into a Telegraf configuration (config-watcher/telegraf_gen.go and
    telegraf/telegraf.conf.tmpl). */
module TelegrafGen {
  import opened Basics
  import opened Snmp
  import opened DeviceTable
  import opened HealthCheck

  datatype DeviceData = DeviceData(
    ip: Ip, versionNumber: int, community: string, v3User: string, v3SecLevel: string,
    v3AuthProtocol: string, v3AuthPassword: string, v3PrivProtocol: string, v3PrivPassword: string)

  function VersionNumber(version: string): int {
    if version == "v1" then 1 else if version == "v3" then 3 else 2
  }

  function V3SecLevel(authKey: string, privKey: string): string {
    if privKey != "" then "authPriv" else if authKey != "" then "authNoPriv" else "noAuthNoPriv"
  }

  function DataOf(r: Row, key: Key): Option<DeviceData> {
    match (Decrypt(key, r.Str(Community)), Decrypt(key, r.Str(V3AuthKey)), Decrypt(key, r.Str(V3PrivKey)))
    case (Some(community), Some(authKey), Some(privKey)) =>
      Some(DeviceData(r.ip, VersionNumber(r.Str(SnmpVersion)), community, r.Str(V3User), V3SecLevel(authKey, privKey),
                      r.Str(V3AuthProtocol), authKey, r.Str(V3PrivProtocol), privKey))
    case _ => None
  }

  predicate AllDecrypt(rows: seq<Row>, key: Key) {
    forall i :: 0 <= i < |rows| ==> DataOf(rows[i], key).Some?
  }

  /** One entry per device in the order given, or None if any device's secrets do not decrypt. */
  method BuildDeviceConfigs(rows: seq<Row>, key: Key) returns (r: Option<seq<DeviceData>>)
    ensures r.Some? <==> AllDecrypt(rows, key)
    ensures r.Some? ==> |r.value| == |rows| && forall i :: 0 <= i < |rows| ==> Some(r.value[i]) == DataOf(rows[i], key)
    ensures r == DeviceConfigs(rows, key)
  {
    var out: seq<DeviceData> := [];
    for i := 0 to |rows|
      invariant |out| == i
      invariant forall j :: 0 <= j < i ==> Some(out[j]) == DataOf(rows[j], key)
    {
      var d := rows[i];
      var community := Decrypt(key, d.Str(Community));
      if community.None? {
        assert DataOf(rows[i], key).None?;
        return None;
      }
      var authKey := Decrypt(key, d.Str(V3AuthKey));
      if authKey.None? {
        assert DataOf(rows[i], key).None?;
        return None;
      }
      var privKey := Decrypt(key, d.Str(V3PrivKey));
      if privKey.None? {
        assert DataOf(rows[i], key).None?;
        return None;
      }
      out := out + [DeviceData(d.ip, VersionNumber(d.Str(SnmpVersion)), community.value, d.Str(V3User),
                               V3SecLevel(authKey.value, privKey.value), d.Str(V3AuthProtocol), authKey.value,
                               d.Str(V3PrivProtocol), privKey.value)];
    }
    assert out == DeviceConfigs(rows, key).value;
    return Some(out);
  }

  function DeviceConfigs(rows: seq<Row>, key: Key): Option<seq<DeviceData>> {
    if AllDecrypt(rows, key) then Some(seq(|rows|, i requires 0 <= i < |rows| => DataOf(rows[i], key).value)) else None
  }

  // ---------------------------------------------------------------- the template

  /** An [[inputs.snmp]] section: the template prints either the v3 settings or the community. */
  datatype SnmpInput =
    | CommunityInput(agent: Ip, version: int, community: string)
    | UsmInput(agent: Ip, secName: string, secLevel: string, authProtocol: string, authPassword: string, privProtocol: string, privPassword: string)

  datatype Document = Document(interval: int, url: string, token: string, database: string, inputs: seq<SnmpInput>)

  function InputOf(d: DeviceData): SnmpInput {
    if d.versionNumber == 3 then
      UsmInput(d.ip, d.v3User, d.v3SecLevel, d.v3AuthProtocol, d.v3AuthPassword, d.v3PrivProtocol, d.v3PrivPassword)
    else CommunityInput(d.ip, d.versionNumber, d.community)
  }

  datatype Target = Target(url: string, token: string, database: string)

  /** The document for a polling interval and rows; None when a secret does not decrypt. */
  function DocumentOf(interval: int, target: Target, rows: seq<Row>, key: Key): Option<Document> {
    match DeviceConfigs(rows, key)
    case None => None
    case Some(data) =>
      Some(Document(interval, target.url, target.token, target.database,
                    seq(|data|, i requires 0 <= i < |data| => InputOf(data[i]))))
  }

  // ---------------------------------------------------------------- what a document must say

  /** The three secrets of a row, in the clear. */
  predicate Opens(r: Row, key: Key, community: string, authKey: string, privKey: string) {
    && Decrypt(key, r.Str(Community)) == Some(community)
    && Decrypt(key, r.Str(V3AuthKey)) == Some(authKey) && Decrypt(key, r.Str(V3PrivKey)) == Some(privKey)
  }

  ghost predicate Opening(r: Row, key: Key) {
    exists community, authKey, privKey :: Opens(r, key, community, authKey, privKey)
  }

  /** The section is the one for this row: a v3 row by its user and passphrases, any other by its community, as
      version 1 for v1 and as version 2 otherwise. */
  predicate SectionFor(input: SnmpInput, r: Row, community: string, authKey: string, privKey: string) {
    match input
    case CommunityInput(agent, version, c) =>
      r.Str(SnmpVersion) != "v3" && agent == r.ip && c == community && version == if r.Str(SnmpVersion) == "v1" then 1 else 2
    case UsmInput(agent, name, level, auth, authPass, priv, privPass) =>
      && r.Str(SnmpVersion) == "v3" && agent == r.ip && name == r.Str(V3User)
      && auth == r.Str(V3AuthProtocol) && authPass == authKey && priv == r.Str(V3PrivProtocol) && privPass == privKey
      && (level == "authPriv" || level == "authNoPriv" || level == "noAuthNoPriv")
      && (level == "authPriv" <==> privKey != "") && (level == "noAuthNoPriv" <==> privKey == "" && authKey == "")
  }

  ghost predicate SectionOf(input: SnmpInput, r: Row, key: Key) {
    exists community, authKey, privKey :: Opens(r, key, community, authKey, privKey) && SectionFor(input, r, community, authKey, privKey)
  }

  /** The document for these rows: the settings, and one section per row, in order. */
  ghost predicate DescribesRows(document: Document, interval: int, target: Target, rows: seq<Row>, key: Key) {
    && document.interval == interval
    && document.url == target.url && document.token == target.token && document.database == target.database
    && |document.inputs| == |rows| && forall k :: 0 <= k < |rows| ==> SectionOf(document.inputs[k], rows[k], key)
  }

  lemma SectionIff(input: SnmpInput, r: Row, key: Key)
    ensures DataOf(r, key).Some? <==> Opening(r, key)
    ensures SectionOf(input, r, key) <==> DataOf(r, key).Some? && input == InputOf(DataOf(r, key).value)
  {
    if DataOf(r, key).Some? {
      var community, authKey, privKey :=
        Decrypt(key, r.Str(Community)).value, Decrypt(key, r.Str(V3AuthKey)).value, Decrypt(key, r.Str(V3PrivKey)).value;
      assert Opens(r, key, community, authKey, privKey);
      SectionForIff(input, r, key, community, authKey, privKey);
    }
    forall community, authKey, privKey | Opens(r, key, community, authKey, privKey) && SectionFor(input, r, community, authKey, privKey)
      ensures input == InputOf(DataOf(r, key).value)
    {
      SectionForIff(input, r, key, community, authKey, privKey);
    }
  }

  lemma SectionForIff(input: SnmpInput, r: Row, key: Key, community: string, authKey: string, privKey: string)
    requires Opens(r, key, community, authKey, privKey)
    ensures DataOf(r, key).Some? && (SectionFor(input, r, community, authKey, privKey) <==> input == InputOf(DataOf(r, key).value))
  {
  }

  /** The generated document is the one the rows describe, and there is one exactly if every row's secrets
      decrypt; no row is too few. */
  lemma DocumentIff(interval: int, target: Target, rows: seq<Row>, key: Key, document: Document)
    ensures DocumentOf(interval, target, rows, key) == Some(document) <==> DescribesRows(document, interval, target, rows, key)
    ensures DocumentOf(interval, target, rows, key).Some? <==> forall r :: r in rows ==> Opening(r, key)
  {
    hide DataOf, InputOf, SectionOf, Opening;
    forall input, r ensures SectionOf(input, r, key) <==> DataOf(r, key).Some? && input == InputOf(DataOf(r, key).value) {
      SectionIff(input, r, key);
    }
    forall r ensures DataOf(r, key).Some? <==> Opening(r, key) {
      SectionIff(CommunityInput("", 0, ""), r, key);
    }
    DocumentParts(interval, target, rows, key);
    if DescribesRows(document, interval, target, rows, key) {
      assert forall k :: 0 <= k < |rows| ==> SectionOf(document.inputs[k], rows[k], key);
      assert document.inputs == DocumentOf(interval, target, rows, key).value.inputs;
    }
  }

  lemma DocumentParts(interval: int, target: Target, rows: seq<Row>, key: Key)
    ensures DocumentOf(interval, target, rows, key).Some? <==> forall k :: 0 <= k < |rows| ==> DataOf(rows[k], key).Some?
    ensures DocumentOf(interval, target, rows, key).Some? ==>
              var d := DocumentOf(interval, target, rows, key).value;
              && d.interval == interval && d.url == target.url && d.token == target.token && d.database == target.database
              && |d.inputs| == |rows| && forall k :: 0 <= k < |rows| ==> d.inputs[k] == InputOf(DataOf(rows[k], key).value)
  {
    hide DataOf, InputOf;
  }

  // ---------------------------------------------------------------- what Telegraf is told to use

  function LevelText(level: SecLevel): string {
    match level
    case NoAuthNoPriv => "noAuthNoPriv"
    case AuthNoPriv => "authNoPriv"
    case AuthPriv => "authPriv"
  }

  /** The section tells Telegraf to talk as this client does: same version, and same community, or same
      user, security level, protocols and passphrases. */
  predicate Speaks(input: SnmpInput, client: Client) {
    match (input, client)
    case (CommunityInput(_, version, community), V1(c)) => version == 1 && community == c
    case (CommunityInput(_, version, community), V2c(c)) => version == 2 && community == c
    case (UsmInput(_, name, levelText, authText, authPassword, privText, privPassword), V3(user, level, auth, authPass, priv, privPass)) =>
      && name == user && levelText == LevelText(level)
      && authPassword == authPass && privPassword == privPass
      && NamesAuth(authText, auth) && NamesPriv(privText, priv)
    case _ => false
  }

  lemma VersionedInputSpeaksItsClient(r: Row, key: Key)
    requires Probeable(r, key)
    ensures DataOf(r, key).Some?
    ensures var client := BuildClient(DecryptCredentials(r, key).value);
            client.Some? ==> Speaks(InputOf(DataOf(r, key).value), client.value) && InputOf(DataOf(r, key).value).agent == r.ip
  {
  }

  ghost predicate Backed(input: SnmpInput, net: Network) {
    exists client :: net.answers(input.agent, client) && Speaks(input, client)
  }

  lemma DataIsCredentials(r: Row, key: Key)
    ensures DataOf(r, key).Some? <==> DecryptCredentials(r, key).Some?
  {
  }

  lemma CheckedActiveRowIsBacked(r0: Row, net: Network, key: Key, clock: int -> int)
    requires Scannable(r0)
    requires var r := CheckedRow(r0, net, key, clock);
             r.At(Status) == Text("active") && r.Str(SnmpVersion) != "" && DataOf(r, key).Some?
    ensures Backed(InputOf(DataOf(CheckedRow(r0, net, key, clock), key).value), net)
  {
    hide CheckedRow, DataOf, InputOf, Speaks, DecryptCredentials;
    var r := CheckedRow(r0, net, key, clock);
    CheckedRowExact(r0, net, key, clock);
    SameCredentials(r0, r, key);
    DataIsCredentials(r, key);
    VersionedInputSpeaksItsClient(r, key);
    assert Verify(net, r.ip, DecryptCredentials(r, key).value);
  }

  lemma InputOfRow(interval: int, target: Target, rows: seq<Row>, key: Key, k: nat)
    requires k < |rows| && DocumentOf(interval, target, rows, key).Some?
    ensures DataOf(rows[k], key).Some?
    ensures |DocumentOf(interval, target, rows, key).value.inputs| == |rows|
    ensures DocumentOf(interval, target, rows, key).value.inputs[k] == InputOf(DataOf(rows[k], key).value)
  {
  }

  /** A health check directly followed by generating the configuration: every section emitted for a row
      that has a version describes a client whose probe has just succeeded at that address. */
  lemma EmittedInputsAreProbed(t: Table, net: Network, key: Key, clock: int -> int, interval: int, target: Target, k: nat)
    requires AllScannable(t.rows)
    requires var rows := WithStatus(HealthPass(t, net, key, clock).rows, "active");
             && k < |rows| && DocumentOf(interval, target, rows, key).Some? && rows[k].Str(SnmpVersion) != ""
    ensures var rows := WithStatus(HealthPass(t, net, key, clock).rows, "active");
            Backed(DocumentOf(interval, target, rows, key).value.inputs[k], net)
  {
    hide CheckedRow, DataOf, InputOf, Backed, Scannable, DocumentOf, DeviceConfigs;
    var t1 := HealthPass(t, net, key, clock);
    var rows := WithStatus(t1.rows, "active");
    var r := rows[k];
    InputOfRow(interval, target, rows, key, k);
    WithStatusExact(t1.rows, "active");
    assert r in rows;
    var i :| 0 <= i < |t1.rows| && t1.rows[i] == r;
    assert r == CheckedRow(t.rows[i], net, key, clock);
    CheckedActiveRowIsBacked(t.rows[i], net, key, clock);
  }

  /** The check keeps the row active and the section it then leads to describes a client that answers, or
      the check takes the row out of the configuration. */
  ghost predicate BackedIfKept(r: Row, net: Network, key: Key, clock: int -> int) {
    var r' := CheckedRow(r, net, key, clock);
    r'.At(Status) == Text("active") ==> DataOf(r', key).Some? && Backed(InputOf(DataOf(r', key).value), net)
  }

  /** A row without a version, which an explicit status can leave active, passes every check unprobed and is
      emitted as v2c all the same. */
  lemma UnversionedPasses(r: Row, net: Network, key: Key, clock: int -> int)
    requires r.Str(SnmpVersion) == "" && DataOf(r, key).Some?
    ensures CheckedRow(r, net, key, clock) == r
    ensures InputOf(DataOf(r, key).value).CommunityInput? && InputOf(DataOf(r, key).value).version == 2
  {
  }

  /** The exact condition, for an active row whose secrets decrypt: its section is backed by a successful probe
      over every network exactly if the row has a version. */
  lemma {:induction false} BackedIffVersioned(r: Row, key: Key, clock: int -> int)
    requires Scannable(r) && r.At(Status) == Text("active") && DataOf(r, key).Some?
    ensures (forall net :: BackedIfKept(r, net, key, clock)) <==> r.Str(SnmpVersion) != ""
  {
    if r.Str(SnmpVersion) != "" {
      forall net ensures BackedIfKept(r, net, key, clock) {
        VersionedIsBacked(r, net, key, clock);
      }
    } else {
      var silent := Network((_, _) => false, (_, _) => None);
      UnversionedPasses(r, silent, key, clock);
      assert !BackedIfKept(r, silent, key, clock);
    }
  }

  lemma VersionedIsBacked(r: Row, net: Network, key: Key, clock: int -> int)
    requires Scannable(r) && r.Str(SnmpVersion) != "" && DataOf(r, key).Some?
    ensures BackedIfKept(r, net, key, clock)
  {
    hide CheckedRow, Backed, InputOf;
    var r' := CheckedRow(r, net, key, clock);
    CheckedRowExact(r, net, key, clock);
    SameSections(r, r', key);
    if r'.At(Status) == Text("active") {
      CheckedActiveRowIsBacked(r, net, key, clock);
    }
  }

  lemma SameSections(r: Row, r': Row, key: Key)
    requires r'.ip == r.ip && forall c :: c != Status ==> r'.At(c) == r.At(c)
    ensures DataOf(r', key) == DataOf(r, key) && r'.Str(SnmpVersion) == r.Str(SnmpVersion)
  {
  }
}
