/** What a trap is, where it happened and who sent it: the identity the receiver stores
    (trap-receiver/handler.go) and the attribution the API adds (config-api/handlers/traps.go). */
module Traps {
  import opened Basics
  import opened Oid
  import opened TrapNames
  import opened DeviceTable
  import S = Snmp

  // ---------------------------------------------------------------- identity

  const SNMP_TRAP_OID := ".1.3.6.1.6.3.1.1.4.1.0"

  /** A received variable: its value when that is a string, None for any other type. */
  datatype Variable = Variable(name: string, value: Option<string>)

  datatype Packet =
    | V1(enterprise: string, generic: int, specific: int)
    | V2(variables: seq<Variable>)

  function GenericTrapOid(generic: int): Option<string> {
    match generic
    case 0 => Some(SNMP_TRAPS_TEXT + ".1")
    case 1 => Some(SNMP_TRAPS_TEXT + ".2")
    case 2 => Some(SNMP_TRAPS_TEXT + ".3")
    case 3 => Some(SNMP_TRAPS_TEXT + ".4")
    case 4 => Some(SNMP_TRAPS_TEXT + ".5")
    case 5 => Some(SNMP_TRAPS_TEXT + ".6")
    case _ => None
  }

  function EnterpriseTrapOid(enterprise: string, specific: int): string {
    TrimDot(enterprise) + "." + Itoa(specific)
  }

  predicate CarriesIdentity(v: Variable) {
    v.name == SNMP_TRAP_OID && v.value.Some?
  }

  /** The identity text of a packet: for v2c and v3 the first string-valued snmpTrapOID.0, if any. */
  function TrapOid(p: Packet): string {
    match p
    case V1(enterprise, generic, specific) =>
      (match GenericTrapOid(generic)
       case Some(oid) => oid
       case None => EnterpriseTrapOid(enterprise, specific))
    case V2(variables) => FirstIdentity(variables)
  }

  function FirstIdentity(variables: seq<Variable>): string {
    if variables == [] then ""
    else if CarriesIdentity(variables[0]) then variables[0].value.value
    else FirstIdentity(variables[1..])
  }

  method ExtractTrapOid(p: Packet) returns (oid: string)
    ensures oid == TrapOid(p)
  {
    if p.V1? {
      var generic := GenericTrapOid(p.generic);
      if generic.Some? {
        return generic.value;
      }
      return EnterpriseTrapOid(p.enterprise, p.specific);
    }
    for i := 0 to |p.variables|
      invariant FirstIdentity(p.variables) == FirstIdentity(p.variables[i..])
    {
      var v := p.variables[i];
      if v.name == SNMP_TRAP_OID {
        if v.value.Some? {
          return v.value.value;
        }
      }
      assert p.variables[i..][1..] == p.variables[i + 1..];
    }
    return "";
  }

  /** What a v1 packet says of itself: generic traps are snmpTraps.(g + 1); anything else is the enterprise,
      up to one trailing dot, with the specific number. */
  function V1Identity(p: Packet): (string, int)
    requires p.V1?
  {
    if 0 <= p.generic <= 5 then (SNMP_TRAPS_TEXT, p.generic + 1) else (TrimDot(p.enterprise), p.specific)
  }

  lemma V1Text(p: Packet)
    requires p.V1?
    ensures TrapOid(p) == V1Identity(p).0 + "." + Itoa(V1Identity(p).1)
  {
    if 0 <= p.generic <= 5 {
      var n := p.generic + 1;
      assert Itoa(n) == [Digit(n)];
      ConcatAssociative(SNMP_TRAPS_TEXT, ".", [Digit(n)]);
      assert "." + [Digit(1)] == ".1" && "." + [Digit(2)] == ".2" && "." + [Digit(3)] == ".3";
      assert "." + [Digit(4)] == ".4" && "." + [Digit(5)] == ".5" && "." + [Digit(6)] == ".6";
    }
  }

  /** The stored text identifies a v1 trap: two packets get the same text exactly when they are the same
      trap, for all enterprises and numbers. In particular an enterprise-specific trap is mistaken for a
      generic one only if its enterprise is snmpTraps itself. */
  lemma V1IdentityIsInjective(p: Packet, q: Packet)
    requires p.V1? && q.V1?
    ensures TrapOid(p) == TrapOid(q) <==> V1Identity(p) == V1Identity(q)
  {
    hide TrapOid, Itoa;
    V1Text(p);
    V1Text(q);
    ItoaInjective(V1Identity(p).1, V1Identity(q).1);
    ItoaInjective(V1Identity(q).1, V1Identity(p).1);
    LastDotSplits(V1Identity(p).0, Itoa(V1Identity(p).1), V1Identity(q).0, Itoa(V1Identity(q).1));
  }

  /** Which v1 packets get a name, and which name: generic traps theirs, enterprise traps only those whose
      enterprise text, dots aside, is snmpTraps or the notification prefix that ends in 0. */
  lemma V1Name(p: Packet)
    requires p.V1?
    ensures TrapName(TrapOid(p)) ==
              match NameByText(WithDotUnlessEmpty(V1Identity(p).0), V1Identity(p).1) {
                case Some(name) => name
                case None => TrapOid(p)
              }
  {
    hide TrapOid, Itoa, KnownTrap;
    var (parent, n) := V1Identity(p);
    V1Text(p);
    ItoaInjective(n, n);
    var text := parent + "." + Itoa(n);
    assert text[|text| - 1] in Itoa(n);
    var dotted := WithDotUnlessEmpty(parent) + "." + Itoa(n);
    assert WithDot(text) == dotted by {
      if parent == "" {
        assert text[0] == '.';
      } else if parent[0] != '.' {
        assert text[0] == parent[0];
        ConcatAssociative(".", parent, ".");
        ConcatAssociative(".", parent + ".", Itoa(n));
      } else {
        assert text[0] == '.';
      }
    }
    assert dotted[|dotted| - 1] in Itoa(n);
    KnownByNumber(WithDotUnlessEmpty(parent), n);
  }

  function WithDotUnlessEmpty(parent: string): string {
    if parent == "" then "" else WithDot(parent)
  }

  predicate SpellsIdentity(oid: string, o: SubIds) {
    var s := PrintOid(o);
    s != "" && oid in [s, s[1..], s + ".", s[1..] + "."]
  }

  /** A v1 generic trap and the v2c or v3 notification for the same event get the same name, the registered
      one, however the notification spells its dots and whatever other variables it carries. */
  lemma SameNameAcrossVersions(p: Packet, q: Packet, i: nat)
    requires p.V1? && 0 <= p.generic <= 5
    requires q.V2? && i < |q.variables| && CarriesIdentity(q.variables[i])
    requires forall j :: 0 <= j < i ==> !CarriesIdentity(q.variables[j])
    requires SpellsIdentity(q.variables[i].value.value, SNMP_TRAPS + [p.generic + 1])
    ensures RegisteredName(SNMP_TRAPS, p.generic + 1).Some?
    ensures TrapName(TrapOid(p)) == TrapName(TrapOid(q)) == RegisteredName(SNMP_TRAPS, p.generic + 1).value
  {
    hide TrapName, KnownTrap;
    FirstIdentityAt(q.variables, i);
    TrapNameOfRegistered(TrapOid(q), SNMP_TRAPS, p.generic + 1);
    V1Text(p);
    PrintedSnmpTraps();
    PrintAppend(SNMP_TRAPS, p.generic + 1);
    TrapNameOfRegistered(TrapOid(p), SNMP_TRAPS, p.generic + 1);
  }

  lemma {:induction false} FirstIdentityAt(variables: seq<Variable>, i: nat)
    requires i < |variables| && CarriesIdentity(variables[i])
    requires forall j :: 0 <= j < i ==> !CarriesIdentity(variables[j])
    ensures FirstIdentity(variables) == variables[i].value.value
  {
    if i > 0 {
      assert !CarriesIdentity(variables[0]);
      assert forall j :: 0 <= j < i - 1 ==> variables[1..][j] == variables[j + 1];
      FirstIdentityAt(variables[1..], i - 1);
    }
  }

  /** Section 3.1 of RFC 3584 translates an enterprise-specific trap to enterprise.0.specific; the receiver
      leaves the zero out. Its text is the standard identity of some trap exactly when the packet's own
      enterprise ends in that zero. */
  lemma TextIsStandardIff(enterprise: SubIds, specific: nat, standard: SubIds, number: nat)
    requires enterprise != []
    ensures (EnterpriseTrapOid(PrintOid(enterprise), specific) == PrintOid(standard + [0, number]))
        <==> (enterprise == standard + [0] && specific == number)
  {
    PrintEnds(enterprise);
    PrintAppend(enterprise, specific);
    assert standard + [0, number] == standard + [0] + [number];
    PrintInjective(enterprise + [specific], standard + [0] + [number]);
    if enterprise + [specific] == standard + [0] + [number] {
      assert enterprise == (enterprise + [specific])[..|enterprise|];
      assert standard + [0] == (standard + [0] + [number])[..|standard| + 1];
    }
  }

  /** So a notification of the configuration-management MIB is named when it arrives as v2c, and not when
      the same event arrives as a v1 trap of that MIB's enterprise. */
  lemma V1ConfigTrapsAreUnnamed(p: Packet, parent: SubIds)
    requires p.V1? && !(0 <= p.generic <= 5) && 1 <= p.specific <= 3
    requires CONFIG_MAN == parent + [0] && p.enterprise == PrintOid(parent)
    ensures TrapName(PrintOid(parent + [0, p.specific])) == RegisteredName(CONFIG_MAN, p.specific).value
    ensures TrapName(TrapOid(p)) == TrapOid(p)
  {
    hide TrapName, KnownTrap, PrintOid;
    assert parent + [0, p.specific] == CONFIG_MAN + [p.specific];
    TrapNameOfRegistered(PrintOid(CONFIG_MAN + [p.specific]), CONFIG_MAN, p.specific);
    PrintEnds(parent);
    PrintAppend(parent, p.specific);
    assert parent != SNMP_TRAPS && parent != CONFIG_MAN;
    TrapNameOfRegistered(TrapOid(p), parent, p.specific);
  }

  /** snmpTrapOID.0 of SNMPv2-MIB. */
  lemma PrintedTrapOid()
    ensures PrintOid([1, 3, 6, 1, 6, 3, 1, 1, 4, 1, 0]) == SNMP_TRAP_OID
  {
    hide PrintOid;
    PrintThree(1, 3, 6);
    PrintThree(1, 6, 3);
    PrintThree(1, 1, 4);
    PrintPair(1, 0);
    PrintConcat([1, 3, 6], [1, 6, 3]);
    PrintConcat([1, 1, 4], [1, 0]);
    PrintConcat([1, 3, 6] + [1, 6, 3], [1, 1, 4] + [1, 0]);
    assert [1, 3, 6] + [1, 6, 3] + ([1, 1, 4] + [1, 0]) == [1, 3, 6, 1, 6, 3, 1, 1, 4, 1, 0];
    assert PrintOid([1, 3, 6]) == ".1.3.6" && PrintOid([1, 6, 3]) == ".1.6.3" && PrintOid([1, 1, 4]) == ".1.1.4" && PrintOid([1, 0]) == ".1.0";
  }

  /** The identity of a v2c or v3 notification: the first string at snmpTrapOID.0, past any value of another type
      there, and the empty text without one. */
  lemma NotificationIdentity(variables: seq<Variable>, i: nat)
    requires i <= |variables|
    requires forall j :: 0 <= j < i ==> variables[j].name != ".1.3.6.1.6.3.1.1.4.1.0" || variables[j].value.None?
    ensures i == |variables| ==> TrapOid(V2(variables)) == ""
    ensures i < |variables| && variables[i].name == ".1.3.6.1.6.3.1.1.4.1.0" && variables[i].value.Some? ==>
              TrapOid(V2(variables)) == variables[i].value.value
  {
    hide FirstIdentity;
    assert forall j :: 0 <= j < i ==> !CarriesIdentity(variables[j]);
    if i < |variables| {
      if CarriesIdentity(variables[i]) {
        FirstIdentityAt(variables, i);
      }
    } else {
      NoIdentity(variables);
    }
  }

  lemma {:induction false} NoIdentity(variables: seq<Variable>)
    requires forall j :: 0 <= j < |variables| ==> !CarriesIdentity(variables[j])
    ensures FirstIdentity(variables) == ""
  {
    if variables != [] {
      assert !CarriesIdentity(variables[0]);
      NoIdentity(variables[1..]);
    }
  }

  // ---------------------------------------------------------------- the interface of a trap

  /** A stored value: a string, or the rendering of a JSON value of another type. */
  datatype Value = Text(s: string) | Other(rendering: string)
  datatype Varbind = Varbind(oid: string, value: Value)

  function Rendered(v: Value): string {
    match v
    case Text(s) => s
    case Other(rendering) => rendering
  }

  /** ifDescr and ifIndex, columns 2 and 1 of ifTable (RFC 2863). */
  const IF_DESCR: SubIds := [1, 3, 6, 1, 2, 1, 2, 2, 1, 2]
  const IF_INDEX: SubIds := [1, 3, 6, 1, 2, 1, 2, 2, 1, 1]
  const IF_DESCR_PREFIX := ".1.3.6.1.2.1.2.2.1.2."
  const IF_INDEX_PREFIX := ".1.3.6.1.2.1.2.2.1.1."

  function FirstDescr(vars: seq<Varbind>): Option<string> {
    if vars == [] then None
    else if HasPrefix(vars[0].oid, IF_DESCR_PREFIX) && vars[0].value.Text? && vars[0].value.s != "" then Some(vars[0].value.s)
    else FirstDescr(vars[1..])
  }

  function LastIndex(vars: seq<Varbind>): string {
    if vars == [] then ""
    else
      var last := vars[|vars| - 1];
      if !HasPrefix(last.oid, IF_DESCR_PREFIX) && HasPrefix(last.oid, IF_INDEX_PREFIX) then Rendered(last.value)
      else LastIndex(vars[..|vars| - 1])
  }

  function InterfaceOf(vars: seq<Varbind>): string {
    match FirstDescr(vars)
    case Some(name) => name
    case None => if LastIndex(vars) != "" then "ifIndex " + LastIndex(vars) else ""
  }

  /** The scan of a decoded payload; None is a payload that does not decode. */
  method ExtractInterface(payload: Option<seq<Varbind>>) returns (name: string)
    ensures name == if payload.Some? then InterfaceOf(payload.value) else ""
  {
    if payload.None? {
      return "";
    }
    var vars := payload.value;
    var ifIndex := "";
    for i := 0 to |vars|
      invariant FirstDescr(vars) == FirstDescr(vars[i..])
      invariant ifIndex == LastIndex(vars[..i])
    {
      var v := vars[i];
      assert vars[i..][1..] == vars[i + 1..];
      assert vars[..i + 1][..i] == vars[..i];
      if HasPrefix(v.oid, IF_DESCR_PREFIX) {
        if v.value.Text? && v.value.s != "" {
          return v.value.s;
        }
      } else if HasPrefix(v.oid, IF_INDEX_PREFIX) {
        ifIndex := Rendered(v.value);
      }
    }
    assert vars[..|vars|] == vars;
    if ifIndex != "" {
      return "ifIndex " + ifIndex;
    }
    return "";
  }

  const IF_ENTRY: SubIds := [1, 3, 6, 1, 2, 1, 2, 2, 1]

  lemma PrintedIfEntry()
    ensures PrintOid(IF_ENTRY) == ".1.3.6.1.2.1.2.2.1"
  {
    hide PrintOid;
    PrintThree(1, 3, 6);
    PrintThree(1, 2, 1);
    PrintThree(2, 2, 1);
    PrintConcat([1, 3, 6], [1, 2, 1]);
    PrintConcat([1, 3, 6] + [1, 2, 1], [2, 2, 1]);
    assert [1, 3, 6] + [1, 2, 1] + [2, 2, 1] == IF_ENTRY;
    assert PrintOid([1, 3, 6]) == ".1.3.6" && PrintOid([1, 2, 1]) == ".1.2.1" && PrintOid([2, 2, 1]) == ".2.2.1";
  }

  lemma PrintedColumns()
    ensures PrintOid(IF_DESCR) + "." == IF_DESCR_PREFIX
    ensures PrintOid(IF_INDEX) + "." == IF_INDEX_PREFIX
  {
    hide PrintOid;
    PrintedIfEntry();
    PrintAppend(IF_ENTRY, 2);
    PrintAppend(IF_ENTRY, 1);
    assert IF_ENTRY + [2] == IF_DESCR && IF_ENTRY + [1] == IF_INDEX;
  }

  /** The k-th variable names an interface: an instance of column ifDescr with a non-empty string. */
  predicate Names(vars: seq<Varbind>, oids: seq<SubIds>, k: nat)
    requires |oids| == |vars| && k < |vars|
  {
    Below(oids[k], IF_DESCR) && vars[k].value.Text? && vars[k].value.s != ""
  }

  lemma ColumnTests(oid: string, o: SubIds)
    requires oid == PrintOid(o)
    ensures HasPrefix(oid, IF_DESCR_PREFIX) <==> Below(o, IF_DESCR)
    ensures HasPrefix(oid, IF_INDEX_PREFIX) <==> Below(o, IF_INDEX)
    ensures !(Below(o, IF_DESCR) && Below(o, IF_INDEX))
  {
    hide PrintOid, HasPrefix;
    PrintedColumns();
    HasPrefixIffBelow(o, IF_DESCR);
    HasPrefixIffBelow(o, IF_INDEX);
    if Below(o, IF_DESCR) {
      assert o[9] == IF_DESCR[9];
    }
    if Below(o, IF_INDEX) {
      assert o[9] == IF_INDEX[9];
    }
  }

  lemma {:induction false} FirstDescrByColumn(vars: seq<Varbind>, oids: seq<SubIds>, k: nat)
    requires |oids| == |vars| && k <= |vars| && forall i :: 0 <= i < |vars| ==> vars[i].oid == PrintOid(oids[i])
    requires forall j :: 0 <= j < k ==> !Names(vars, oids, j)
    ensures k == |vars| ==> FirstDescr(vars) == None
    ensures k < |vars| && Names(vars, oids, k) ==> FirstDescr(vars) == Some(vars[k].value.s)
  {
    hide PrintOid, HasPrefix;
    if vars != [] {
      ColumnTests(vars[0].oid, oids[0]);
      if k > 0 {
        assert !Names(vars, oids, 0);
        forall j | 0 <= j < k - 1 ensures !Names(vars[1..], oids[1..], j) {
          assert !Names(vars, oids, j + 1);
        }
        FirstDescrByColumn(vars[1..], oids[1..], k - 1);
      }
    }
  }

  lemma {:induction false} LastIndexByColumn(vars: seq<Varbind>, oids: seq<SubIds>, m: int)
    requires |oids| == |vars| && -1 <= m < |vars| && forall i :: 0 <= i < |vars| ==> vars[i].oid == PrintOid(oids[i])
    requires forall j :: m < j < |vars| ==> !Below(oids[j], IF_INDEX)
    ensures m == -1 ==> LastIndex(vars) == ""
    ensures m >= 0 && Below(oids[m], IF_INDEX) ==> LastIndex(vars) == Rendered(vars[m].value)
  {
    hide PrintOid, HasPrefix;
    if vars != [] {
      ColumnTests(vars[|vars| - 1].oid, oids[|vars| - 1]);
      if m < |vars| - 1 {
        LastIndexByColumn(vars[..|vars| - 1], oids[..|vars| - 1], m);
      }
    }
  }

  /** What the scan means for printed identifiers: the first variable of column ifDescr that holds a non-empty
      string names the interface; without one, the last variable of column ifIndex does; with neither, nothing.
      A sibling column such as 20 counts as neither. */
  lemma InterfaceByColumn(vars: seq<Varbind>, oids: seq<SubIds>, k: nat, m: int)
    requires |oids| == |vars| && forall i :: 0 <= i < |vars| ==> vars[i].oid == PrintOid(oids[i])
    requires k <= |vars| && (k < |vars| ==> Names(vars, oids, k)) && forall j :: 0 <= j < k ==> !Names(vars, oids, j)
    requires -1 <= m < |vars| && (m >= 0 ==> Below(oids[m], IF_INDEX)) && forall j :: m < j < |vars| ==> !Below(oids[j], IF_INDEX)
    ensures InterfaceOf(vars) ==
              if k < |vars| then vars[k].value.s
              else if m < 0 then ""
              else
                match vars[m].value {
                  case Text(s) => if s == "" then "" else "ifIndex " + s
                  case Other(rendering) => if rendering == "" then "" else "ifIndex " + rendering
                }
  {
    hide PrintOid, HasPrefix, FirstDescr, LastIndex;
    FirstDescrByColumn(vars, oids, k);
    LastIndexByColumn(vars, oids, m);
  }

  // ---------------------------------------------------------------- the device of a trap

  /** The first row, in id order, whose community decrypts to the given one. */
  ghost predicate FirstSharing(rows: seq<Row>, key: S.Key, community: string, i: nat) {
    && i < |rows| && S.Decrypt(key, rows[i].Str(Community)) == Some(community)
    && forall j :: 0 <= j < i ==> S.Decrypt(key, rows[j].Str(Community)) != Some(community)
  }

  predicate NoneSharing(rows: seq<Row>, key: S.Key, community: string) {
    forall j :: 0 <= j < |rows| ==> S.Decrypt(key, rows[j].Str(Community)) != Some(community)
  }

  /** Rule of attribution by the agent address alone: a known, readable device. */
  predicate KnownAgent(t: Table, agentAddress: S.Ip) {
    agentAddress != "" && GetByIp(t, agentAddress).Found?
  }

  method ResolveDevice(devices: Option<Table>, key: Option<S.Key>, agentAddress: S.Ip, community: string) returns (host: string)
    ensures devices.None? ==> host == ""
    ensures devices.Some? && KnownAgent(devices.value, agentAddress) ==>
              host == GetByIp(devices.value, agentAddress).row.Str(Hostname)
    ensures devices.Some? && !KnownAgent(devices.value, agentAddress) ==>
              if community == "" || key.None? || List(devices.value).None? then host == ""
              else
                && (forall i: nat :: FirstSharing(devices.value.rows, key.value, community, i) ==> host == devices.value.rows[i].Str(Hostname))
                && (NoneSharing(devices.value.rows, key.value, community) ==> host == "")
  {
    if devices.None? {
      return "";
    }
    if agentAddress != "" {
      var found := GetByIp(devices.value, agentAddress);
      if found.Found? {
        return found.row.Str(Hostname);
      }
    }
    if community == "" || key.None? {
      return "";
    }
    var listed := List(devices.value);
    if listed.None? {
      return "";
    }
    var rows := listed.value;
    for i := 0 to |rows|
      invariant forall j :: 0 <= j < i ==> S.Decrypt(key.value, rows[j].Str(Community)) != Some(community)
    {
      var d := rows[i];
      if d.Str(Community) == "" {
        continue;
      }
      var plain := S.Decrypt(key.value, d.Str(Community));
      if plain.None? || plain.value == "" {
        continue;
      }
      if plain.value == community {
        return d.Str(Hostname);
      }
    }
    return "";
  }

  /** With communities sealed under the API's own key, a device is the first to share a trap's community
      exactly when it is the first one registered with it; so distinct communities attribute uniquely. */
  lemma SharingIsRegistration(rows: seq<Row>, key: S.Key, communities: seq<string>, nonces: seq<string>, community: string, i: nat)
    requires S.Sound(key) && |communities| == |nonces| == |rows| && i < |rows|
    requires forall j :: 0 <= j < |rows| ==> S.Encrypt(key, communities[j], nonces[j]) == Some(rows[j].Str(Community))
    ensures FirstSharing(rows, key, community, i) <==> communities[i] == community && forall j :: 0 <= j < i ==> communities[j] != community
    ensures NoneSharing(rows, key, community) <==> community !in communities
  {
    forall j | 0 <= j < |rows| ensures S.Decrypt(key, rows[j].Str(Community)) == Some(communities[j]) {
      S.DecryptUndoesEncrypt(key, communities[j], nonces[j]);
    }
  }

  /** A device whose own row cannot be read is never attributed, by address or by community. */
  lemma UnreadableAgentIsUnattributed(t: Table, agentAddress: S.Ip)
    requires GetByIp(t, agentAddress).ScanError?
    ensures !KnownAgent(t, agentAddress) && List(t).None?
  {
  }
}
