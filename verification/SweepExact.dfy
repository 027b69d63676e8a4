/** What one sweep inserts, stated without reference to its loops. */
module SweepExact {
  import opened Basics
  import opened Snmp
  import opened DeviceTable
  import opened HealthCheck
  import opened DiscoverySweep

  function Min(a: nat, b: nat): nat {
    if a <= b then a else b
  }

  ghost function PrivateOf(e: Env, hops: seq<Ip>): set<Ip> {
    set h | h in hops && e.isPrivate(h)
  }

  /** The private next hops one parent reports; none when it is skipped. */
  ghost function PrivateHops(e: Env, parent: Row): set<Ip> {
    match Walked(e, parent)
    case None => {}
    case Some((_, hops)) => PrivateOf(e, hops)
  }

  /** What a sweep wants from a parent is decided by the walk of the one client that its stored credentials
      describe, the client a probe of that row uses: the private usable addresses that walk reports. */
  lemma PrivateHopsByClient(e: Env, parent: Row, creds: Credentials, client: Client)
    requires DecryptCredentials(parent, e.key) == Some(creds) && Describes(creds, client)
    ensures Verify(e.net, parent.ip, creds) <==> e.net.answers(parent.ip, client)
    ensures forall h :: h in PrivateHops(e, parent) <==>
              && e.net.routes(parent.ip, client).Some? && Address(h) in e.net.routes(parent.ip, client).value
              && h != "" && h != "0.0.0.0" && e.isPrivate(h)
  {
    hide DecryptCredentials, Describes, RouteNextHops;
    ClientIff(creds, client);
    HopsByClient(e.net, parent.ip, creds, client);
  }

  lemma NoClientNothingWanted(e: Env, parent: Row)
    requires forall creds, client :: !(DecryptCredentials(parent, e.key) == Some(creds) && Describes(creds, client))
    ensures PrivateHops(e, parent) == {}
  {
    hide DecryptCredentials, Describes, RouteNextHops;
    if DecryptCredentials(parent, e.key).Some? {
      NoClientNoHops(e.net, parent.ip, DecryptCredentials(parent, e.key).value);
    }
  }

  ghost function Wanted(e: Env, parents: seq<Row>): set<Ip> {
    if parents == [] then {} else PrivateHops(e, parents[0]) + Wanted(e, parents[1..])
  }

  lemma {:induction false} WantedExact(e: Env, parents: seq<Row>)
    ensures forall h :: h in Wanted(e, parents) <==> exists p :: p in parents && h in PrivateHops(e, p)
  {
    if parents != [] {
      WantedExact(e, parents[1..]);
      assert parents == [parents[0]] + parents[1..];
    }
  }

  /** Networks on which the parents' own clients walk alike are the same to a sweep, however other clients fare. */
  lemma {:induction false} WantedSeesStoredClients(e: Env, net: Network, parents: seq<Row>)
    requires forall p, creds, client :: p in parents && DecryptCredentials(p, e.key) == Some(creds) && Describes(creds, client)
               ==> e.net.routes(p.ip, client) == net.routes(p.ip, client)
    ensures Wanted(e, parents) == Wanted(e.(net := net), parents)
  {
    hide DecryptCredentials, Describes, RouteNextHops;
    if parents != [] {
      var p := parents[0];
      assert p in parents;
      assert forall q :: q in parents[1..] ==> q in parents;
      WantedSeesStoredClients(e, net, parents[1..]);
      if DecryptCredentials(p, e.key).Some? {
        WalkSeesOneClient(e.net, net, p.ip, DecryptCredentials(p, e.key).value);
      }
    }
  }

  /** A row the sweep made for a private next hop of this parent. */
  ghost predicate BornOf(e: Env, r: Row, parent: Row) {
    && Walked(e, parent).Some?
    && r.ip in PrivateHops(e, parent)
    && r.cells == CellsOf(Discovered(e, r.ip, Walked(e, parent).value.0))
  }

  lemma PrivateOfSplit(e: Env, hops: seq<Ip>)
    requires hops != []
    ensures PrivateOf(e, hops) == PrivateOf(e, [hops[0]]) + PrivateOf(e, hops[1..])
  {
    assert hops == [hops[0]] + hops[1..];
  }

  // ---------------------------------------------------------------- capped growth, abstractly

  function Ips(rows: seq<Row>): set<Ip> {
    if rows == [] then {} else Ips(rows[..|rows| - 1]) + {rows[|rows| - 1].ip}
  }

  lemma {:induction false} IpsMember(rows: seq<Row>, ip: Ip)
    ensures ip in Ips(rows) <==> exists i :: 0 <= i < |rows| && rows[i].ip == ip
  {
    if rows != [] {
      IpsMember(rows[..|rows| - 1], ip);
    }
  }

  /** A run that started with `count` insertions done, appended `added` to `rows`, each of the
      appended rows satisfying `born`, and stopped at the cap or when all of `wanted` was tracked. */
  ghost predicate Grew(born: Row -> bool, rows: seq<Row>, added: seq<Row>, wanted: set<Ip>, count: nat, n: nat) {
    && n == count + |added|
    && (forall r :: r in added ==> born(r) && r.ip in wanted && r.ip !in Ips(rows))
    && n == Min(MAX_NEW_DEVICES_PER_SWEEP, count + |wanted - Ips(rows)|)
    && (n < MAX_NEW_DEVICES_PER_SWEEP ==> wanted <= Ips(rows) + Ips(added))
  }

  lemma GrewNothing(born: Row -> bool, rows: seq<Row>, wanted: set<Ip>, count: nat)
    requires count == MAX_NEW_DEVICES_PER_SWEEP || (count < MAX_NEW_DEVICES_PER_SWEEP && wanted <= Ips(rows))
    ensures Grew(born, rows, [], wanted, count, count)
  {
    if wanted <= Ips(rows) {
      assert wanted - Ips(rows) == {};
    }
  }

  lemma GrewOne(born: Row -> bool, rows: seq<Row>, r: Row, count: nat)
    requires count < MAX_NEW_DEVICES_PER_SWEEP && born(r) && r.ip !in Ips(rows)
    ensures Grew(born, rows, [r], {r.ip}, count, count + 1)
  {
    assert {r.ip} - Ips(rows) == {r.ip};
    assert [r][..0] == [];
    assert Ips([r]) == {r.ip};
  }

  lemma {:induction false} IpsConcat(a: seq<Row>, b: seq<Row>)
    ensures Ips(a + b) == Ips(a) + Ips(b)
  {
    if b == [] {
      assert a + b == a;
    } else {
      var n := |b| - 1;
      assert (a + b)[..|a| + n] == a + b[..n];
      IpsConcat(a, b[..n]);
    }
  }

  lemma {:induction false} IpsOfAll(rows: seq<Row>, wanted: set<Ip>)
    requires forall r :: r in rows ==> r.ip in wanted
    ensures Ips(rows) <= wanted
  {
    if rows != [] {
      IpsOfAll(rows[..|rows| - 1], wanted);
    }
  }

  lemma CapAdds(tracked: set<Ip>, added: set<Ip>, w1: set<Ip>, w2: set<Ip>, count: nat, n1: nat, n2: nat)
    requires added <= w1
    requires n1 == Min(MAX_NEW_DEVICES_PER_SWEEP, count + |w1 - tracked|)
    requires n1 < MAX_NEW_DEVICES_PER_SWEEP ==> w1 <= tracked + added
    requires n2 == Min(MAX_NEW_DEVICES_PER_SWEEP, n1 + |w2 - (tracked + added)|)
    ensures n2 == Min(MAX_NEW_DEVICES_PER_SWEEP, count + |(w1 + w2) - tracked|)
  {
    if n1 < MAX_NEW_DEVICES_PER_SWEEP {
      assert (w1 + w2) - tracked == (w1 - tracked) + (w2 - (tracked + added));
    } else {
      MoreWanted(w1 - tracked, (w1 + w2) - tracked);
    }
  }

  lemma GrewThenGrew(born: Row -> bool, rows: seq<Row>, a1: seq<Row>, a2: seq<Row>, w1: set<Ip>, w2: set<Ip>, count: nat, n1: nat, n2: nat)
    requires Grew(born, rows, a1, w1, count, n1)
    requires Grew(born, rows + a1, a2, w2, n1, n2)
    ensures Grew(born, rows, a1 + a2, w1 + w2, count, n2)
  {
    IpsConcat(rows, a1);
    IpsConcat(a1, a2);
    IpsOfAll(a1, w1);
    CapAdds(Ips(rows), Ips(a1), w1, w2, count, n1, n2);
  }

  lemma MoreWanted(a: set<Ip>, b: set<Ip>)
    requires a <= b
    ensures |a| <= |b|
  {
    assert b == a + (b - a);
  }

  // ---------------------------------------------------------------- the sweep's loops

  lemma LookupIffTracked(t: Table, ip: Ip)
    ensures GetByIp(t, ip) == NotFound <==> ip !in Ips(t.rows)
  {
    IpsMember(t.rows, ip);
  }

  /** What the loops need of a parent: a version the CHECK admits, and a tracked address. */
  predicate GoodParent(p: Row, rows: seq<Row>) {
    p.Str(SnmpVersion) in {"v1", "v2c", "v3", ""} && p.ip in Ips(rows)
  }

  ghost predicate GoodParents(parents: seq<Row>, rows: seq<Row>) {
    forall p :: p in parents ==> GoodParent(p, rows)
  }

  /** Every row born of one of these parents satisfies `born`. */
  ghost predicate Covers(e: Env, parents: seq<Row>, born: Row -> bool) {
    forall r, p :: p in parents && BornOf(e, r, p) ==> born(r)
  }

  lemma CoversParts(e: Env, parents: seq<Row>, born: Row -> bool)
    requires parents != [] && Covers(e, parents, born)
    ensures Covers(e, [parents[0]], born) && Covers(e, parents[1..], born)
  {
    assert forall p :: p in parents[1..] || p in [parents[0]] ==> p in parents;
  }

  lemma GoodParentsStayGood(parents: seq<Row>, rows: seq<Row>, added: seq<Row>)
    requires parents != [] && GoodParents(parents, rows)
    ensures GoodParent(parents[0], rows)
    ensures GoodParents(parents[1..], rows) && GoodParents(parents[1..], rows + added)
  {
    IpsConcat(rows, added);
  }

  lemma DiscoveredInsertable(e: Env, t: Table, parent: Row, hop: Ip)
    requires GoodParent(parent, t.rows) && Walked(e, parent).Some? && hop !in Ips(t.rows)
    ensures Insert(t, Discovered(e, hop, Walked(e, parent).value.0), e.clock(hop)).Some?
  {
    IpsMember(t.rows, hop);
    InsertSucceedsIff(t, Discovered(e, hop, Walked(e, parent).value.0), e.clock(hop));
  }

  /** A next hop is inserted exactly when it is private and nobody tracks it yet. */
  lemma VisitHopExact(e: Env, t: Table, parent: Row, hop: Ip)
    requires GoodParent(parent, t.rows) && Walked(e, parent).Some? && hop in Walked(e, parent).value.1
    ensures var (t1, inserted) := VisitHop(e, t, parent.ip, Walked(e, parent).value.0, hop);
            && (inserted <==> e.isPrivate(hop) && hop !in Ips(t.rows))
            && (inserted ==> exists r :: t1.rows == t.rows + [r] && r.ip == hop && BornOf(e, r, parent))
            && (!inserted ==> t1 == t)
  {
    LookupIffTracked(t, hop);
    if hop !in Ips(t.rows) {
      DiscoveredInsertable(e, t, parent, hop);
    }
  }

  lemma {:induction false} SweepHopsExact(e: Env, t: Table, parent: Row, hops: seq<Ip>, count: nat, born: Row -> bool)
    returns (added: seq<Row>)
    requires GoodParent(parent, t.rows) && Walked(e, parent).Some? && count <= MAX_NEW_DEVICES_PER_SWEEP
    requires forall h :: h in hops ==> h in Walked(e, parent).value.1
    requires Covers(e, [parent], born)
    ensures var (t', n) := SweepHops(e, t, parent.ip, Walked(e, parent).value.0, hops, count);
            && t'.rows == t.rows + added && n <= MAX_NEW_DEVICES_PER_SWEEP
            && Grew(born, t.rows, added, PrivateOf(e, hops), count, n)
    decreases |hops|
  {
    if hops == [] || count == MAX_NEW_DEVICES_PER_SWEEP {
      GrewNothing(born, t.rows, PrivateOf(e, hops), count);
      return [];
    }
    var hop, rest := hops[0], hops[1..];
    PrivateOfSplit(e, hops);
    var first := HopExact(e, t, parent, hop, count, born);
    var (t1, inserted) := VisitHop(e, t, parent.ip, Walked(e, parent).value.0, hop);
    var count1 := if inserted then count + 1 else count;
    var others := SweepHopsExact(e, t1, parent, rest, count1, born);
    var n := SweepHops(e, t1, parent.ip, Walked(e, parent).value.0, rest, count1).1;
    GrewThenGrew(born, t.rows, first, others, PrivateOf(e, [hop]), PrivateOf(e, rest), count, count1, n);
    added := first + others;
    ConcatAssociative(t.rows, first, others);
  }

  lemma HopExact(e: Env, t: Table, parent: Row, hop: Ip, count: nat, born: Row -> bool) returns (added: seq<Row>)
    requires GoodParent(parent, t.rows) && Walked(e, parent).Some? && hop in Walked(e, parent).value.1
    requires count < MAX_NEW_DEVICES_PER_SWEEP
    requires Covers(e, [parent], born)
    ensures var (t1, inserted) := VisitHop(e, t, parent.ip, Walked(e, parent).value.0, hop);
            && t1.rows == t.rows + added
            && Grew(born, t.rows, added, PrivateOf(e, [hop]), count, if inserted then count + 1 else count)
            && GoodParent(parent, t1.rows)
  {
    hide VisitHop, Walked, Grew, BornOf, Ips;
    var (t1, inserted) := VisitHop(e, t, parent.ip, Walked(e, parent).value.0, hop);
    VisitHopExact(e, t, parent, hop);
    assert hop in [hop];
    if inserted {
      var r :| t1.rows == t.rows + [r] && r.ip == hop && BornOf(e, r, parent);
      assert parent in [parent];
      GrewOne(born, t.rows, r, count);
      IpsConcat(t.rows, [r]);
      assert PrivateOf(e, [hop]) == {hop};
      added := [r];
    } else {
      assert PrivateOf(e, [hop]) <= Ips(t.rows);
      GrewNothing(born, t.rows, PrivateOf(e, [hop]), count);
      assert t.rows + [] == t.rows;
      added := [];
    }
  }

  lemma SkippedWantsNothing(e: Env, parents: seq<Row>)
    requires parents != [] && Walked(e, parents[0]).None?
    ensures Wanted(e, parents) == Wanted(e, parents[1..])
  {
    assert PrivateHops(e, parents[0]) == {};
  }

  lemma {:induction false} SweepParentsExact(e: Env, t: Table, parents: seq<Row>, count: nat, born: Row -> bool)
    returns (added: seq<Row>)
    requires count <= MAX_NEW_DEVICES_PER_SWEEP
    requires GoodParents(parents, t.rows)
    requires Covers(e, parents, born)
    ensures var (t', n) := SweepParents(e, t, parents, count);
            t'.rows == t.rows + added && Grew(born, t.rows, added, Wanted(e, parents), count, n)
    decreases |parents|
  {
    if parents == [] || count == MAX_NEW_DEVICES_PER_SWEEP {
      GrewNothing(born, t.rows, Wanted(e, parents), count);
      return [];
    }
    var p, rest := parents[0], parents[1..];
    CoversParts(e, parents, born);
    if Walked(e, p).None? {
      GoodParentsStayGood(parents, t.rows, []);
      SkippedWantsNothing(e, parents);
      added := SweepParentsExact(e, t, rest, count, born);
    } else {
      var (creds, hops) := Walked(e, p).value;
      GoodParentsStayGood(parents, t.rows, []);
      var first := SweepHopsExact(e, t, p, hops, count, born);
      var (t1, count1) := SweepHops(e, t, p.ip, creds, hops, count);
      GoodParentsStayGood(parents, t.rows, first);
      var others := SweepParentsExact(e, t1, rest, count1, born);
      var n := SweepParents(e, t1, rest, count1).1;
      GrewThenGrew(born, t.rows, first, others, PrivateOf(e, hops), Wanted(e, rest), count, count1, n);
      added := first + others;
      ConcatAssociative(t.rows, first, others);
    }
  }

  lemma {:induction false} SweepHopsKeepsValid(e: Env, t: Table, parentIp: Ip, creds: Credentials, hops: seq<Ip>, count: nat)
    requires Valid(t)
    ensures Valid(SweepHops(e, t, parentIp, creds, hops, count).0)
    decreases |hops|
  {
    if hops != [] && count < MAX_NEW_DEVICES_PER_SWEEP {
      var d := Discovered(e, hops[0], creds);
      if Insert(t, d, e.clock(hops[0])).Some? {
        InsertKeepsValid(t, d, e.clock(hops[0]));
      }
      var (t1, inserted) := VisitHop(e, t, parentIp, creds, hops[0]);
      SweepHopsKeepsValid(e, t1, parentIp, creds, hops[1..], if inserted then count + 1 else count);
    }
  }

  lemma {:induction false} SweepParentsKeepsValid(e: Env, t: Table, parents: seq<Row>, count: nat)
    requires Valid(t)
    ensures Valid(SweepParents(e, t, parents, count).0)
    decreases |parents|
  {
    if parents != [] && count < MAX_NEW_DEVICES_PER_SWEEP {
      match Walked(e, parents[0]) {
        case None => SweepParentsKeepsValid(e, t, parents[1..], count);
        case Some((creds, hops)) =>
          SweepHopsKeepsValid(e, t, parents[0].ip, creds, hops, count);
          var (t1, count1) := SweepHops(e, t, parents[0].ip, creds, hops, count);
          SweepParentsKeepsValid(e, t1, parents[1..], count1);
      }
    }
  }

  /** The rows a sweep starts from. */
  function ActiveRows(t: Table): seq<Row> {
    WithStatus(t.rows, "active")
  }

  ghost predicate BornOfActive(e: Env, t: Table, r: Row) {
    exists p :: p in ActiveRows(t) && BornOf(e, r, p)
  }

  lemma SweepAdded(e: Env, t: Table) returns (added: seq<Row>)
    requires Valid(t) && AllScannable(ActiveRows(t))
    ensures var (t', n) := Sweep(e, t);
            && t'.rows == t.rows + added && n == |added| == Min(MAX_NEW_DEVICES_PER_SWEEP, |Wanted(e, ActiveRows(t)) - Ips(t.rows)|)
            && (forall r :: r in added ==> BornOfActive(e, t, r) && r.ip in Wanted(e, ActiveRows(t)) && r.ip !in Ips(t.rows))
            && (n < MAX_NEW_DEVICES_PER_SWEEP ==> Wanted(e, ActiveRows(t)) <= Ips(t.rows) + Ips(added))
  {
    WithStatusExact(t.rows, "active");
    forall p | p in ActiveRows(t) ensures GoodParent(p, t.rows) {
      var i :| 0 <= i < |t.rows| && t.rows[i] == p;
      assert Checks(p);
      IpsMember(t.rows, p.ip);
    }
    ghost var born := (r: Row) => BornOfActive(e, t, r);
    added := SweepParentsExact(e, t, ActiveRows(t), 0, born);
  }

  /** One sweep of a table nobody else writes. If some active row does not scan nothing happens.
      Otherwise the sweep keeps every old row and appends exactly min(10, number of untracked private
      next hops of the active rows) rows. Each is for a previously untracked private next hop of a row
      that was active at the start, no address comes twice, and unless the cap was reached every
      such next hop is tracked afterwards. */
  lemma SweepInsertsExactly(e: Env, t: Table)
    requires Valid(t)
    ensures var (t', n) := Sweep(e, t);
            var wanted := Wanted(e, ActiveRows(t));
            && Valid(t') && |t.rows| <= |t'.rows|
            && (!AllScannable(ActiveRows(t)) ==> t' == t && n == 0)
            && (AllScannable(ActiveRows(t)) ==>
                  var added := t'.rows[|t.rows|..];
                  && t'.rows == t.rows + added
                  && n == |added| == Min(10, |wanted - Ips(t.rows)|)
                  && (forall r :: r in added ==> r.ip in wanted && r.ip !in Ips(t.rows))
                  && |Ips(added)| == |added|
                  && (n < 10 ==> wanted <= Ips(t'.rows)))
  {
    SweepKeepsValid(e, t);
    if AllScannable(ActiveRows(t)) {
      var added := SweepAdded(e, t);
      var t' := Sweep(e, t).0;
      IpsConcat(t.rows, added);
      assert t'.rows[|t.rows|..] == added;
      TailDistinct(t', |t.rows|);
    }
  }

  lemma {:induction false} IpsCount(rows: seq<Row>)
    requires forall i, j :: 0 <= i < j < |rows| ==> rows[i].ip != rows[j].ip
    ensures |Ips(rows)| == |rows|
  {
    if rows != [] {
      IpsCount(rows[..|rows| - 1]);
      IpsMember(rows[..|rows| - 1], rows[|rows| - 1].ip);
    }
  }

  lemma TailDistinct(t: Table, k: nat)
    requires Valid(t) && k <= |t.rows|
    ensures |Ips(t.rows[k..])| == |t.rows[k..]|
  {
    IpsCount(t.rows[k..]);
  }

  lemma SweepKeepsValid(e: Env, t: Table)
    requires Valid(t)
    ensures Valid(Sweep(e, t).0)
  {
    SweepParentsKeepsValid(e, t, ActiveRows(t), 0);
  }
}
