/** Well-known trap identities and their names (internal/snmp/trapnames.go). */
module TrapNames {
  import opened Basics
  import opened Oid

  /** snmpTraps, section 2 of RFC 3418. */
  const SNMP_TRAPS_TEXT := ".1.3.6.1.6.3.1.1.5"
  const SNMP_TRAPS: SubIds := [1, 3, 6, 1, 6, 3, 1, 1, 5]

  /** The notification prefix of CISCO-CONFIG-MAN-MIB. */
  const CONFIG_MAN_TEXT := ".1.3.6.1.4.1.9.9.43.2.0"
  const CONFIG_MAN: SubIds := [1, 3, 6, 1, 4, 1, 9, 9, 43, 2, 0]

  function KnownTrap(oid: string): Option<string> {
    if oid == SNMP_TRAPS_TEXT + ".1" then Some("ColdStart")
    else if oid == SNMP_TRAPS_TEXT + ".2" then Some("WarmStart")
    else if oid == SNMP_TRAPS_TEXT + ".3" then Some("LinkDown")
    else if oid == SNMP_TRAPS_TEXT + ".4" then Some("LinkUp")
    else if oid == SNMP_TRAPS_TEXT + ".5" then Some("AuthenticationFailure")
    else if oid == SNMP_TRAPS_TEXT + ".6" then Some("EgpNeighborLoss")
    else if oid == CONFIG_MAN_TEXT + ".1" then Some("ConfigManEvent")
    else if oid == CONFIG_MAN_TEXT + ".2" then Some("ConfigChanged")
    else if oid == CONFIG_MAN_TEXT + ".3" then Some("ConfigCTIDRolledOver")
    else None
  }

  function WithDot(oid: string): string {
    if HasPrefix(oid, ".") then oid else "." + oid
  }

  function Normalize(oid: string): string {
    TrimDot(WithDot(oid))
  }

  /** The name of a trap, or the text itself when it is not a known one. */
  function TrapName(oid: string): string {
    match KnownTrap(Normalize(oid))
    case Some(name) => name
    case None => oid
  }

  // ---------------------------------------------------------------- the same names on sub-identifiers

  /** The names by registration, stated without any text of an identifier. */
  function RegisteredName(parent: SubIds, n: int): Option<string> {
    if parent == SNMP_TRAPS then
      match n
      case 1 => Some("ColdStart")
      case 2 => Some("WarmStart")
      case 3 => Some("LinkDown")
      case 4 => Some("LinkUp")
      case 5 => Some("AuthenticationFailure")
      case 6 => Some("EgpNeighborLoss")
      case _ => None
    else if parent == CONFIG_MAN then
      match n
      case 1 => Some("ConfigManEvent")
      case 2 => Some("ConfigChanged")
      case 3 => Some("ConfigCTIDRolledOver")
      case _ => None
    else None
  }

  lemma PrintPair(a: nat, b: nat)
    ensures PrintOid([a, b]) == "." + Dec(a) + ("." + Dec(b))
  {
    assert [a, b][1..] == [b] && [b][1..] == [];
    assert PrintOid([b]) == "." + Dec(b);
  }

  lemma PrintThree(a: nat, b: nat, c: nat)
    ensures PrintOid([a, b, c]) == "." + Dec(a) + ("." + Dec(b) + ("." + Dec(c)))
  {
    PrintPair(b, c);
    assert [a, b, c][1..] == [b, c];
  }

  lemma PrintedSnmpTraps()
    ensures PrintOid(SNMP_TRAPS) == SNMP_TRAPS_TEXT
  {
    hide PrintOid;
    PrintThree(1, 3, 6);
    PrintThree(1, 6, 3);
    PrintThree(1, 1, 5);
    PrintConcat([1, 3, 6], [1, 6, 3]);
    PrintConcat([1, 3, 6] + [1, 6, 3], [1, 1, 5]);
    assert [1, 3, 6] + [1, 6, 3] + [1, 1, 5] == SNMP_TRAPS;
    assert PrintOid([1, 3, 6]) == ".1.3.6" && PrintOid([1, 6, 3]) == ".1.6.3" && PrintOid([1, 1, 5]) == ".1.1.5";
  }

  lemma PrintedConfigMan()
    ensures PrintOid(CONFIG_MAN) == CONFIG_MAN_TEXT
  {
    hide PrintOid, Dec;
    var enterprises, configMan: SubIds := [1, 3, 6, 1, 4, 1], [9, 9, 43, 2, 0];
    PrintedEnterprises();
    PrintedConfigManTail();
    PrintConcat(enterprises, configMan);
    assert enterprises + configMan == CONFIG_MAN;
  }

  lemma PrintedEnterprises()
    ensures PrintOid([1, 3, 6, 1, 4, 1]) == ".1.3.6.1.4.1"
  {
    hide PrintOid;
    PrintThree(1, 3, 6);
    PrintThree(1, 4, 1);
    PrintConcat([1, 3, 6], [1, 4, 1]);
    assert [1, 3, 6] + [1, 4, 1] == [1, 3, 6, 1, 4, 1];
    assert PrintOid([1, 3, 6]) == ".1.3.6" && PrintOid([1, 4, 1]) == ".1.4.1";
  }

  lemma PrintedConfigManTail()
    ensures PrintOid([9, 9, 43, 2, 0]) == ".9.9.43.2.0"
  {
    hide PrintOid;
    PrintThree(9, 9, 43);
    PrintPair(2, 0);
    assert Dec(43) == Dec(4) + [Digit(3)] == "43";
    PrintConcat([9, 9, 43], [2, 0]);
    assert [9, 9, 43] + [2, 0] == [9, 9, 43, 2, 0];
    assert PrintOid([9, 9, 43]) == ".9.9.43" && PrintOid([2, 0]) == ".2.0";
  }

  /** The registered name of a text whose last number is split off. */
  function NameByText(parent: string, n: int): Option<string> {
    if parent == SNMP_TRAPS_TEXT then RegisteredName(SNMP_TRAPS, n)
    else if parent == CONFIG_MAN_TEXT then RegisteredName(CONFIG_MAN, n)
    else None
  }

  lemma EntryByNumber(parent: string, n: int, entry: string, k: int)
    requires 1 <= k <= 6
    ensures parent + "." + Itoa(n) == entry + "." + Itoa(k) <==> parent == entry && n == k
    ensures entry + "." + Itoa(k) == entry + ("." + [Digit(k)])
  {
    ItoaInjective(n, k);
    ItoaInjective(k, n);
    LastDotSplits(parent, Itoa(n), entry, Itoa(k));
    ConcatAssociative(entry, ".", [Digit(k)]);
  }

  /** The table of texts is the table of registrations, for every text before the last number. */
  lemma KnownByNumber(parent: string, n: int)
    ensures KnownTrap(parent + "." + Itoa(n)) == NameByText(parent, n)
  {
    hide Itoa;
    forall entry, k | entry in [SNMP_TRAPS_TEXT, CONFIG_MAN_TEXT] && 1 <= k <= 6
      ensures parent + "." + Itoa(n) == entry + ("." + [Digit(k)]) <==> parent == entry && n == k
    {
      EntryByNumber(parent, n, entry, k);
    }
    var text := parent + "." + Itoa(n);
    forall k | 1 <= k <= 6
      ensures text == SNMP_TRAPS_TEXT + ("." + [Digit(k)]) <==> parent == SNMP_TRAPS_TEXT && n == k
      ensures text == CONFIG_MAN_TEXT + ("." + [Digit(k)]) <==> parent == CONFIG_MAN_TEXT && n == k
    {
      assert SNMP_TRAPS_TEXT in [SNMP_TRAPS_TEXT, CONFIG_MAN_TEXT];
      assert CONFIG_MAN_TEXT in [SNMP_TRAPS_TEXT, CONFIG_MAN_TEXT];
    }
    assert "." + [Digit(1)] == ".1" && "." + [Digit(2)] == ".2" && "." + [Digit(3)] == ".3";
    assert "." + [Digit(4)] == ".4" && "." + [Digit(5)] == ".5" && "." + [Digit(6)] == ".6";
  }

  /** On identifiers: a printed identifier is named exactly when its parent and last number are registered. */
  lemma KnownTrapIsRegistered(parent: SubIds, n: nat)
    ensures KnownTrap(PrintOid(parent + [n])) == RegisteredName(parent, n)
  {
    hide KnownTrap, PrintOid;
    PrintAppend(parent, n);
    KnownByNumber(PrintOid(parent), n);
    PrintedSnmpTraps();
    PrintedConfigMan();
    PrintInjective(parent, SNMP_TRAPS);
    PrintInjective(parent, CONFIG_MAN);
  }

  /** Normalising yields a printed identifier from exactly four texts: with or without the leading dot,
      and with or without one trailing dot. */
  lemma NormalizesFromFour(oid: string, o: SubIds)
    requires o != []
    ensures var s := PrintOid(o); Normalize(oid) == s <==> oid in [s, s[1..], s + ".", s[1..] + "."]
  {
    hide PrintOid;
    PrintEnds(o);
    var s := PrintOid(o);
    assert s == "." + s[1..];
    assert s + "." == "." + (s[1..] + ".");
    assert TrimDot(s) == s && TrimDot(s + ".") == s;
    var dotted := WithDot(oid);
    assert TrimDot(dotted) == s <==> dotted == s || dotted == s + "." by {
      if TrimDot(dotted) == s && dotted != s {
        assert dotted == dotted[..|dotted| - 1] + ".";
      }
    }
    WithDotOf(oid, s);
    WithDotOf(oid, s + ".");
    assert (s + ".")[1..] == s[1..] + ".";
  }

  lemma WithDotOf(oid: string, s: string)
    requires |s| >= 2 && s[0] == '.' && s[1] != '.'
    ensures WithDot(oid) == s <==> oid == s || oid == s[1..]
  {
    assert s == "." + s[1..];
    if WithDot(oid) == s && !HasPrefix(oid, ".") {
      assert ("." + oid)[1..] == oid;
    }
    if oid == s[1..] {
      assert oid[0] == s[1];
    }
  }

  /** A text is named exactly when it spells a registered identifier in one of those four ways. */
  lemma {:induction false} TrapNameOfRegistered(oid: string, parent: SubIds, n: nat)
    requires var s := PrintOid(parent + [n]); oid in [s, s[1..], s + ".", s[1..] + "."]
    ensures TrapName(oid) == match RegisteredName(parent, n) { case Some(name) => name case None => oid }
  {
    hide PrintOid, KnownTrap;
    NormalizesFromFour(oid, parent + [n]);
    KnownTrapIsRegistered(parent, n);
  }
}
